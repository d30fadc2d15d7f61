/** Signing authorities: how they are built from their configuration, and what they sign with. */
module Signing {
  import opened Wrappers
  import opened SshModel

  datatype SigningError =
    | AccessError
    | SigningFailure
    | ParsingError
    | UnknownAuthority(authority: string)
    | DuplicatedKey(first: string, second: string)
    | IdenticalUserAndHostKey(authority: string)
    | SignerDoesNotHaveSshKeys
    | SignerDoesNotHaveAllRequiredSshKeys

  datatype SshKeys = SshKeys(user: KeyName, host: KeyName)

  /** A signer kept in the configuration file, or one backed by a device or a remote service. */
  datatype Signer =
    | FileSigner(sshKeys: Option<SshKeys>, clientCa: Option<string>)
    | RemoteSigner(user: Option<KeyName>, host: Option<KeyName>, remoteClientCa: Option<string>)

  datatype FileConfig = FileConfig(
    userKey: Option<KeyName>,
    hostKey: Option<KeyName>,
    x509Key: Option<string>,
    x509Algorithm: Option<string>,
    clientCaKey: Option<string>,
    clientCaAlgorithm: Option<string>,
    clientCaName: Option<string>)

  datatype SignerType = File(config: FileConfig) | Remote(outcome: Result<Signer, SigningError>)

  /** `rcgen_certificate_from_private_key`: common name, key and algorithm to a CA certificate. */
  type CaBuilder = (string, string, string) -> Result<string, SigningError>

  function FileIntoSigner(config: FileConfig, build: CaBuilder): Result<Signer, SigningError> {
    var x509 :=
      if config.x509Key.Some? && config.x509Algorithm.Some?
      then build("Rustica", config.x509Key.value, config.x509Algorithm.value) else Ok("");
    var client :=
      if config.clientCaKey.Some? && config.clientCaAlgorithm.Some? && config.clientCaName.Some?
      then build(config.clientCaName.value, config.clientCaKey.value, config.clientCaAlgorithm.value) else Ok("");
    if x509.Err? then Err(x509.error)
    else if client.Err? then Err(client.error)
    else
      var clientCa := if config.clientCaKey.Some? && config.clientCaAlgorithm.Some? && config.clientCaName.Some?
                      then Some(client.value) else None;
      match (config.userKey, config.hostKey)
      case (Some(user), Some(host)) => Ok(FileSigner(Some(SshKeys(user, host)), clientCa))
      case (None, None) => Ok(FileSigner(None, clientCa))
      case _ => Err(SignerDoesNotHaveAllRequiredSshKeys)
  }

  function IntoSigner(t: SignerType, build: CaBuilder): Result<Signer, SigningError> {
    match t
    case File(config) => FileIntoSigner(config, build)
    case Remote(outcome) => outcome
  }

  function PublicKeyFor(s: Signer, certType: CertType): Option<KeyName> {
    match s
    case FileSigner(None, _) => None
    case FileSigner(Some(keys), _) => Some(if certType.User? then keys.user else keys.host)
    case RemoteSigner(user, host, _) => if certType.User? then user else host
  }

  function ClientCa(s: Signer): Option<string> {
    match s
    case FileSigner(_, ca) => ca
    case RemoteSigner(_, _, ca) => ca
  }

  /** A remote signer may know its key and still fail to sign; `responds` says whether it does at this call. */
  function SignWith(s: Signer, body: CertBody, responds: bool): Result<Certificate, SigningError> {
    match PublicKeyFor(s, body.certType)
    case None => Err(SignerDoesNotHaveSshKeys)
    case Some(key) => if s.RemoteSigner? && !responds then Err(SigningFailure) else Ok(Sign(body, key))
  }

  datatype SigningMechanism = SigningMechanism(defaultAuthority: string, authorities: map<string, Signer>)

  function MechanismSign(m: SigningMechanism, authority: string, body: CertBody, responds: bool)
    : Result<Certificate, SigningError>
  {
    if authority in m.authorities then SignWith(m.authorities[authority], body, responds)
    else Err(UnknownAuthority(authority))
  }

  function MechanismPublicKey(m: SigningMechanism, authority: string, certType: CertType)
    : Result<KeyName, SigningError>
  {
    if authority !in m.authorities then Err(UnknownAuthority(authority))
    else match PublicKeyFor(m.authorities[authority], certType)
      case None => Err(SignerDoesNotHaveSshKeys)
      case Some(key) => Ok(key)
  }

  /** The authority is served by a key of the configuration file, or by a remote signer that responds. */
  predicate InReach(m: SigningMechanism, authority: string, responds: bool) {
    authority in m.authorities && (m.authorities[authority].FileSigner? || responds)
  }

  /** The public key an authority announces for a certificate type is the one it signs that type with. */
  lemma AnnouncedKeySigns(m: SigningMechanism, authority: string, body: CertBody, responds: bool)
    ensures MechanismSign(m, authority, body, responds).Ok?
       <==> MechanismPublicKey(m, authority, body.certType).Ok? && InReach(m, authority, responds)
    ensures MechanismSign(m, authority, body, responds).Ok? ==>
              (Verifies(MechanismSign(m, authority, body, responds).value)
               <==> MechanismPublicKey(m, authority, body.certType) == Ok(body.signatureKey))
    ensures authority !in m.authorities ==>
              MechanismSign(m, authority, body, responds) == Err(UnknownAuthority(authority))
    ensures authority in m.authorities ==>
              var key := PublicKeyFor(m.authorities[authority], body.certType);
              && (MechanismPublicKey(m, authority, body.certType).Ok? <==> key.Some?)
              && (key.Some? ==> MechanismPublicKey(m, authority, body.certType) == Ok(key.value))
              && (MechanismSign(m, authority, body, responds).Ok? ==>
                    MechanismSign(m, authority, body, responds) == Ok(Certificate(body, Made(key.value, body))))
  {
  }

  /** Which key of its configuration a signer built from a file signs with: the user key for users, the host key for
      hosts. */
  lemma FileKeysSign(config: FileConfig, build: CaBuilder, body: CertBody, responds: bool)
    requires IntoSigner(File(config), build).Ok?
    ensures var signer := IntoSigner(File(config), build).value;
            var key := if body.certType.User? then config.userKey else config.hostKey;
            && PublicKeyFor(signer, body.certType) == key
            && SignWith(signer, body, responds)
               == if key.Some? then Ok(Certificate(body, Made(key.value, body))) else Err(SignerDoesNotHaveSshKeys)
  {
  }

  /** The same for a remote signer, which its backend builds. */
  lemma RemoteKeysSign(user: Option<KeyName>, host: Option<KeyName>, ca: Option<string>, body: CertBody, responds: bool,
                       build: CaBuilder, error: SigningError)
    ensures var signer := RemoteSigner(user, host, ca);
            var key := if body.certType.User? then user else host;
            && IntoSigner(Remote(Ok(signer)), build) == Ok(signer)
            && IntoSigner(Remote(Err(error)), build) == Err(error)
            && ClientCa(signer) == ca
            && PublicKeyFor(signer, body.certType) == key
            && SignWith(signer, body, responds)
               == if key.None? then Err(SignerDoesNotHaveSshKeys)
                  else if responds then Ok(Certificate(body, Made(key.value, body)))
                  else Err(SigningFailure)
  {
  }

  /** A file is a signer exactly when it gives both SSH keys or neither and the CAs it configures build; its client CA
      is the one built from its three settings. */
  lemma FileConvertsExactlyWhen(config: FileConfig, build: CaBuilder)
    ensures var x509 := config.x509Key.Some? && config.x509Algorithm.Some?;
            var client := config.clientCaKey.Some? && config.clientCaAlgorithm.Some? && config.clientCaName.Some?;
            && (IntoSigner(File(config), build).Ok? <==>
                  && (config.userKey.Some? <==> config.hostKey.Some?)
                  && (x509 ==> build("Rustica", config.x509Key.value, config.x509Algorithm.value).Ok?)
                  && (client ==>
                        build(config.clientCaName.value, config.clientCaKey.value, config.clientCaAlgorithm.value).Ok?))
            && (IntoSigner(File(config), build).Ok? ==>
                  ClientCa(IntoSigner(File(config), build).value)
                  == if client
                     then Some(build(config.clientCaName.value, config.clientCaKey.value,
                                     config.clientCaAlgorithm.value).value)
                     else None)
  {
  }

  // ---------- building the mechanism ----------

  type Configurations = map<string, SignerType>

  function KeyAt(cs: Configurations, build: CaBuilder, name: string, certType: CertType): Option<KeyName>
    requires name in cs
  {
    match IntoSigner(cs[name], build)
    case Err(_) => None
    case Ok(signer) => PublicKeyFor(signer, certType)
  }

  ghost predicate AllDistinct(cs: Configurations, build: CaBuilder, names: set<string>)
    requires names <= cs.Keys
  {
    forall n, t, n', t' :: n in names && n' in names && (n, t) != (n', t') && KeyAt(cs, build, n, t).Some?
                           ==> KeyAt(cs, build, n, t) != KeyAt(cs, build, n', t')
  }

  ghost predicate AllConvert(cs: Configurations, build: CaBuilder, names: set<string>)
    requires names <= cs.Keys
  {
    forall n :: n in names ==> IntoSigner(cs[n], build).Ok?
  }

  /** What a configuration must satisfy, with no mention of an order. */
  ghost predicate Buildable(cs: Configurations, build: CaBuilder) {
    AllConvert(cs, build, cs.Keys) && AllDistinct(cs, build, cs.Keys)
  }

  ghost predicate ShareAKey(cs: Configurations, build: CaBuilder, a: string, b: string) {
    && a in cs && b in cs
    && exists t, t' :: KeyAt(cs, build, a, t).Some? && KeyAt(cs, build, a, t) == KeyAt(cs, build, b, t')
  }

  /** An error says something true of the configuration. */
  ghost predicate Explains(cs: Configurations, build: CaBuilder, e: SigningError) {
    || (exists n :: n in cs && IntoSigner(cs[n], build) == Err(e))
    || (e.DuplicatedKey? && e.first != e.second && ShareAKey(cs, build, e.first, e.second))
    || (e.IdenticalUserAndHostKey? && e.authority in cs
        && KeyAt(cs, build, e.authority, User).Some?
        && KeyAt(cs, build, e.authority, User) == KeyAt(cs, build, e.authority, Host))
  }

  /** The index of keys seen so far: exactly the keys of the authorities done, each with its owner. */
  ghost predicate Indexes(cs: Configurations, build: CaBuilder, done: set<string>, seen: map<KeyName, string>)
    requires done <= cs.Keys
  {
    && (forall k :: k in seen ==> seen[k] in done && exists t :: KeyAt(cs, build, seen[k], t) == Some(k))
    && (forall n, t :: n in done && KeyAt(cs, build, n, t).Some? ==> KeyAt(cs, build, n, t).value in seen)
  }

  /** `convert_to_signing_mechanism`: the loop visits the authorities in an arbitrary order. */
  method ConvertToSigningMechanism(defaultAuthority: string, cs: Configurations, build: CaBuilder)
    returns (r: Result<SigningMechanism, SigningError>)
    ensures r.Ok? <==> Buildable(cs, build)
    ensures r.Ok? ==> r.value.defaultAuthority == defaultAuthority && r.value.authorities.Keys == cs.Keys
    ensures r.Ok? ==> forall n :: n in cs ==> IntoSigner(cs[n], build) == Ok(r.value.authorities[n])
    ensures r.Err? ==> Explains(cs, build, r.error)
  {
    var converted: map<string, Signer> := map[];
    var publicKeys: map<KeyName, string> := map[];
    var pending := cs.Keys;
    while pending != {}
      invariant pending <= cs.Keys && converted.Keys == cs.Keys - pending
      invariant forall n :: n in converted ==> IntoSigner(cs[n], build) == Ok(converted[n])
      invariant AllConvert(cs, build, cs.Keys - pending) && AllDistinct(cs, build, cs.Keys - pending)
      invariant Indexes(cs, build, cs.Keys - pending, publicKeys)
      decreases pending
    {
      var name :| name in pending;
      ghost var done := cs.Keys - pending;
      var outcome := IntoSigner(cs[name], build);
      if outcome.Err? {
        return Err(outcome.error);
      }
      var signer := outcome.value;
      var user, host := PublicKeyFor(signer, User), PublicKeyFor(signer, Host);
      assert KeyAt(cs, build, name, User) == user && KeyAt(cs, build, name, Host) == host;
      if user.Some? && host.Some? && user.value == host.value {
        return Err(IdenticalUserAndHostKey(name));
      }
      ghost var before := publicKeys;
      if user.Some? {
        if user.value in publicKeys {
          Clash(cs, build, done, publicKeys, name, User);
          return Err(DuplicatedKey(name, publicKeys[user.value]));
        }
        publicKeys := publicKeys[user.value := name];
      }
      if host.Some? {
        if host.value in publicKeys {
          Clash(cs, build, done, before, name, Host);
          return Err(DuplicatedKey(name, publicKeys[host.value]));
        }
        publicKeys := publicKeys[host.value := name];
      }
      converted := converted[name := signer];
      NoClash(cs, build, done, before, name);
      IndexGrows(cs, build, done, before, name, publicKeys);
      pending := pending - {name};
      assert cs.Keys - pending == done + {name};
    }
    assert cs.Keys - pending == cs.Keys;
    return Ok(SigningMechanism(defaultAuthority, converted));
  }

  lemma Clash(cs: Configurations, build: CaBuilder, done: set<string>, seen: map<KeyName, string>, name: string,
              t: CertType)
    requires done <= cs.Keys && name in cs && name !in done
    requires Indexes(cs, build, done, seen)
    requires KeyAt(cs, build, name, t).Some? && KeyAt(cs, build, name, t).value in seen
    ensures var other := seen[KeyAt(cs, build, name, t).value];
            other != name && ShareAKey(cs, build, name, other)
    ensures !AllDistinct(cs, build, cs.Keys)
  {
    var k := KeyAt(cs, build, name, t).value;
    var t' :| KeyAt(cs, build, seen[k], t') == Some(k);
    assert (name, t) != (seen[k], t');
  }

  lemma NoClash(cs: Configurations, build: CaBuilder, done: set<string>, seen: map<KeyName, string>, name: string)
    requires done <= cs.Keys && name in cs && name !in done
    requires Indexes(cs, build, done, seen) && AllDistinct(cs, build, done)
    requires forall t :: KeyAt(cs, build, name, t).Some? ==> KeyAt(cs, build, name, t).value !in seen
    requires KeyAt(cs, build, name, User).Some? ==> KeyAt(cs, build, name, User) != KeyAt(cs, build, name, Host)
    ensures AllDistinct(cs, build, done + {name})
  {
    forall n, t, n', t' |
      n in done + {name} && n' in done + {name} && (n, t) != (n', t') && KeyAt(cs, build, n, t).Some?
      ensures KeyAt(cs, build, n, t) != KeyAt(cs, build, n', t')
    {
      assert n in done ==> KeyAt(cs, build, n, t).value in seen;
    }
  }

  lemma IndexGrows(cs: Configurations, build: CaBuilder, done: set<string>, before: map<KeyName, string>,
                   name: string, after: map<KeyName, string>)
    requires done <= cs.Keys && name in cs && name !in done && Indexes(cs, build, done, before)
    requires before.Keys <= after.Keys
    requires forall k :: k in after ==>
      if k in before then after[k] == before[k]
      else after[k] == name && (KeyAt(cs, build, name, User) == Some(k) || KeyAt(cs, build, name, Host) == Some(k))
    requires forall t :: KeyAt(cs, build, name, t).Some? ==> KeyAt(cs, build, name, t).value in after
    ensures Indexes(cs, build, done + {name}, after)
  {
  }
}
