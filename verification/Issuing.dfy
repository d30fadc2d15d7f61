/** The server's `certificate` call: validation, authorization, signing and client-certificate renewal. */
module Issuing {
  import opened Wrappers
  import opened Words
  import opened SshModel
  import opened ChallengeProtocol
  import Signing
  import Authorization

  datatype CertificateRequest = CertificateRequest(
    certType: nat,
    keyId: string,
    principals: seq<string>,
    validAfter: u64,
    validBefore: u64,
    challenge: Option<Challenge>,
    remoteIp: string)   // the caller's address, as the transport reports it

  /** The three clock readings of one call; `None` where the system clock fails. */
  datatype Clocks = Clocks(validated: Option<u64>, checked: Option<u64>, authorized: Option<u64>)

  /** The state a call reads besides its request, and whether remote signers respond to it. */
  datatype Backend = Backend(
    srv: Server,
    lib: Library,
    signing: Signing.SigningMechanism,
    tables: Authorization.Tables,
    signersRespond: bool)

  /** `renewal` is the validity of the client certificate issued along with the SSH certificate. */
  datatype Response = Failed(error: ServerError) | Issued(cert: Certificate, renewal: Option<Refresh>)

  function RequestedType(code: nat): Option<CertType> {
    if code == 1 then Some(User) else if code == 2 then Some(Host) else None
  }

  function FromAuthorizationError(e: Authorization.AuthorizationError): ServerError {
    match e
    case CertTypeNotAllowed => BadCertOptions
    case NotAuthorized => NotAuthorized
    case DatabaseError => Unknown
  }

  function CheckTime(clock: Option<u64>): u64 {
    if clock.Some? then clock.value else 0xFFFF_FFFF_FFFF_FFFF
  }

  function AuthorityFor(m: Signing.SigningMechanism, keyId: string): string {
    if keyId == "" then m.defaultAuthority else keyId
  }

  function AuthorizationRequest(b: Backend, v: Validated, req: CertificateRequest, t: CertType)
    : Authorization.SshRequest
  {
    Authorization.SshRequest(v.key.name, req.principals, t, req.validAfter, req.validBefore,
                             AuthorityFor(b.signing, req.keyId))
  }

  function CriticalOptions(a: Authorization.SshAuthorization, remoteIp: string): map<string, string> {
    var forced := if a.forceCommand.Some? then map["force-command" := a.forceCommand.value] else map[];
    if a.forceSourceIp then forced["source-address" := remoteIp] else forced
  }

  function BodyFor(v: Validated, t: CertType, ca: KeyName, a: Authorization.SshAuthorization, remoteIp: string)
    : CertBody
  {
    CertBody(v.key.name, t, ca, a.serial, Plain("Rustica-JITC-for-" + v.key.name), a.principals,
             a.validAfter, a.validBefore, CriticalOptions(a, remoteIp), a.extensions)
  }

  function IssueFor(b: Backend, v: Validated, req: CertificateRequest, clocks: Clocks): Response {
    if req.validBefore < req.validAfter || CheckTime(clocks.checked) > req.validBefore then Failed(BadCertOptions)
    else match RequestedType(req.certType)
      case None => Failed(BadCertOptions)
      case Some(t) =>
        match Signing.MechanismPublicKey(b.signing, AuthorityFor(b.signing, req.keyId), t)
        case Err(_) => Failed(ServerError.NotAuthorized)
        case Ok(ca) =>
          match Authorization.AuthorizeSshCert(b.tables, AuthorizationRequest(b, v, req, t), clocks.authorized)
          case Err(e) => Failed(FromAuthorizationError(e))
          case Ok(a) =>
            match Signing.MechanismSign(b.signing, a.authority, BodyFor(v, t, ca, a, req.remoteIp), b.signersRespond)
            case Err(_) => Failed(BadChallenge)
            case Ok(cert) =>
              if !Verifies(cert) then Failed(BadCertOptions)
              else Issued(cert, if v.refresh.Some? && ClientCaOf(b).Some? then v.refresh else None)
  }

  function ClientCaOf(b: Backend): Option<string> {
    if b.srv.clientAuthority in b.signing.authorities
    then Signing.ClientCa(b.signing.authorities[b.srv.clientAuthority]) else None
  }

  function HandleCertificate(b: Backend, peers: Option<seq<PeerCert>>, req: CertificateRequest, clocks: Clocks)
    : Response
  {
    if req.challenge.None? || peers.None? then Failed(BadRequest)
    else match ValidateRequest(b.srv, b.lib, peers.value, req.challenge.value, clocks.validated)
      case Err(e) => Failed(e)
      case Ok(v) => IssueFor(b, v, req, clocks)
  }

  /** The row that decides: that of the key, under the authority asked for or else the default one. */
  function RowKey(b: Backend, v: Validated, req: CertificateRequest): (string, string) {
    (v.key.name, if req.keyId == "" then b.signing.defaultAuthority else req.keyId)
  }

  /** What a row says of a certificate type. */
  predicate RowAllows(row: Authorization.Permission, code: nat) {
    (code == 1 && row.canCreateUserCerts) || (code == 2 && row.canCreateHostCerts)
  }

  /** The certificate that the permission row of `(key, authority)` entitles to. */
  ghost predicate Entitled(b: Backend, v: Validated, req: CertificateRequest, clocks: Clocks, body: CertBody) {
    var authority := if req.keyId == "" then b.signing.defaultAuthority else req.keyId;
    && body.key == v.key.name
    && (v.key.name, authority) in b.tables.permissions
    && var row := b.tables.permissions[(v.key.name, authority)];
    && (body.certType.User? ==> req.certType == 1 && row.canCreateUserCerts)
    && (body.certType.Host? ==> req.certType == 2 && row.canCreateHostCerts)
    && (if row.principalUnrestricted then body.principals == req.principals
        else forall p :: multiset(body.principals)[p]
                      == multiset(b.tables.principals)[Authorization.Grant(v.key.name, authority, p)])
    && var time := if clocks.authorized.Some? then clocks.authorized.value else 0xEFFF_FFFF_FFFF_FFFF;
    && body.validBefore == WrapAdd(time, AsU64(row.maxCreationTime))
    && body.validAfter == req.validAfter
    && body.serial == 0
    && body.keyId == Plain("Rustica-JITC-for-" + v.key.name)
    && body.criticalOptions == map[]
    && (forall name :: Authorization.LastRowSays(b.tables.extensions, v.key.name, authority, name,
                                                 Authorization.ValueAt(body.extensions, name)))
    && Signing.MechanismPublicKey(b.signing, authority, body.certType) == Ok(body.signatureKey)
  }

  /** Options that an authorizer may force appear in the certificate, and nothing else does. */
  lemma ForcedOptionsAppear(v: Validated, t: CertType, ca: KeyName, a: Authorization.SshAuthorization, remoteIp: string,
                            name: string)
    ensures var options := BodyFor(v, t, ca, a, remoteIp).criticalOptions;
            Authorization.ValueAt(options, name)
            == if name == "force-command" then a.forceCommand
               else if name == "source-address" && a.forceSourceIp then Some(remoteIp)
               else None
  {
  }

  /** Every issued certificate is for the validated key, as its permission row entitles, and carries a valid
      signature of the very key named in it. */
  lemma IssuedIsEntitled(b: Backend, peers: Option<seq<PeerCert>>, req: CertificateRequest, clocks: Clocks)
    requires HandleCertificate(b, peers, req, clocks).Issued?
    ensures var Issued(cert, renewal) := HandleCertificate(b, peers, req, clocks);
            && peers.Some? && req.challenge.Some?
            && var verdict := ValidateRequest(b.srv, b.lib, peers.value, req.challenge.value, clocks.validated);
            && verdict.Ok?
            && Entitled(b, verdict.value, req, clocks, cert.body)
            && Verifies(cert)
            && (renewal.Some? ==> renewal == verdict.value.refresh)
  {
    var v := ValidateRequest(b.srv, b.lib, peers.value, req.challenge.value, clocks.validated).value;
    var authority := AuthorityFor(b.signing, req.keyId);
    forall p ensures multiset(Authorization.Granted(b.tables.principals, v.key.name, authority))[p]
                  == multiset(b.tables.principals)[Authorization.Grant(v.key.name, authority, p)]
    {
      Authorization.GrantedAreTheRows(b.tables.principals, v.key.name, authority, p);
    }
    var extensions := Authorization.ExtensionsOf(b.tables.extensions, v.key.name, authority);
    forall name ensures Authorization.LastRowSays(b.tables.extensions, v.key.name, authority, name,
                                                  Authorization.ValueAt(extensions, name))
    {
      Authorization.ExtensionsAreTheRows(b.tables.extensions, v.key.name, authority, name);
    }
  }

  /** Whatever response a server sent, a certificate issued on the agent's completed challenge is for the
      agent's own key. */
  lemma IssuedIsForSignatory(b: Backend, peers: Option<seq<PeerCert>>, req: CertificateRequest, clocks: Clocks,
                             s: Signatory, response: ChallengeResponse)
    requires KeysReadBack(b.lib) && Completed(b.lib, s, response).Ok?
    requires req.challenge == Some(Completed(b.lib, s, response).value)
    requires HandleCertificate(b, peers, req, clocks).Issued?
    ensures PublicHalf(s).Ok? && HandleCertificate(b, peers, req, clocks).cert.body.key == PublicHalf(s).value.name
  {
    IssuedIsEntitled(b, peers, req, clocks);
  }

  /** The requested window is ordered and has not passed; without a clock only the last second has not. */
  predicate WindowOpen(req: CertificateRequest, clocks: Clocks) {
    && req.validAfter <= req.validBefore
    && (if clocks.checked.Some? then clocks.checked.value <= req.validBefore
        else req.validBefore == 0xFFFF_FFFF_FFFF_FFFF)
  }

  /** The authority asked for announces a key for the type asked for. */
  predicate Announced(b: Backend, v: Validated, req: CertificateRequest) {
    Signing.MechanismPublicKey(b.signing, RowKey(b, v, req).1, if req.certType == 1 then User else Host).Ok?
  }

  /** Once a request is validated, exactly these conditions make the server issue; and which error it gives where one of
      them fails. */
  lemma IssuesExactlyWhen(b: Backend, v: Validated, req: CertificateRequest, clocks: Clocks)
    ensures var sound := WindowOpen(req, clocks) && (req.certType == 1 || req.certType == 2);
            var known := RowKey(b, v, req) in b.tables.permissions;
            var allowed := known && RowAllows(b.tables.permissions[RowKey(b, v, req)], req.certType);
            var inReach := Signing.InReach(b.signing, RowKey(b, v, req).1, b.signersRespond);
            var response := IssueFor(b, v, req, clocks);
            && (response.Issued? <==> sound && Announced(b, v, req) && allowed && inReach)
            && (response == Failed(ServerError.NotAuthorized) <==> sound && !(Announced(b, v, req) && known))
            && (response == Failed(BadCertOptions) <==> !sound || (Announced(b, v, req) && known && !allowed))
            && (response == Failed(BadChallenge) <==> sound && Announced(b, v, req) && allowed && !inReach)
  {
  }

  /** A call without a challenge or a client certificate is refused, and a refusal of the challenge is passed on. */
  lemma RefusalsPassThrough(b: Backend, peers: Option<seq<PeerCert>>, req: CertificateRequest, clocks: Clocks)
    ensures req.challenge.None? || peers.None? ==> HandleCertificate(b, peers, req, clocks) == Failed(BadRequest)
    ensures req.challenge.Some? && peers.Some? ==>
              var verdict := ValidateRequest(b.srv, b.lib, peers.value, req.challenge.value, clocks.validated);
              verdict.Err? ==> HandleCertificate(b, peers, req, clocks) == Failed(verdict.error)
  {
  }

  /** An issued response brings new client credentials exactly when they are due and the configured client authority
      has a CA. */
  lemma RenewalIsSentIff(b: Backend, peers: Option<seq<PeerCert>>, req: CertificateRequest, clocks: Clocks)
    requires HandleCertificate(b, peers, req, clocks).Issued?
    ensures peers.Some? && peers.value != [] && peers.value[0].Peer? && clocks.validated.Some?
    ensures var refresh := RefreshFor(b.srv, peers.value[0].notAfter, clocks.validated.value);
            var sent := HandleCertificate(b, peers, req, clocks).renewal;
            && (sent.Some? <==>
                  && refresh.Some?
                  && b.srv.clientAuthority in b.signing.authorities
                  && Signing.ClientCa(b.signing.authorities[b.srv.clientAuthority]).Some?)
            && (sent.Some? ==> sent == refresh)
  {
  }

  predicate SameButFlag(p: Authorization.Permission, p': Authorization.Permission) {
    p' == p.(hostUnrestricted := p'.hostUnrestricted)
  }

  /** Tables that agree but for the granted hosts and the host flags. */
  ghost predicate SameButHosts(t: Authorization.Tables, t': Authorization.Tables) {
    && t'.principals == t.principals
    && t'.extensions == t.extensions
    && t'.permissions.Keys == t.permissions.Keys
    && forall k :: k in t.permissions ==> SameButFlag(t.permissions[k], t'.permissions[k])
  }

  /** Host restrictions never matter: whatever hosts the tables grant or leave unrestricted, the server's response
      is the same. */
  lemma HostsNeverMatter(b: Backend, tables: Authorization.Tables, peers: Option<seq<PeerCert>>,
                         req: CertificateRequest, clocks: Clocks)
    requires SameButHosts(b.tables, tables)
    ensures HandleCertificate(b.(tables := tables), peers, req, clocks) == HandleCertificate(b, peers, req, clocks)
  {
    forall v: Validated ensures IssueFor(b.(tables := tables), v, req, clocks) == IssueFor(b, v, req, clocks) {
      HostsDoNotMatterFor(b, tables, v, req, clocks);
    }
  }

  lemma HostsDoNotMatterFor(b: Backend, tables: Authorization.Tables, v: Validated, req: CertificateRequest,
                            clocks: Clocks)
    requires SameButHosts(b.tables, tables)
    ensures IssueFor(b.(tables := tables), v, req, clocks) == IssueFor(b, v, req, clocks)
  {
    var k := (v.key.name, AuthorityFor(b.signing, req.keyId));
    assert k in b.tables.permissions ==> SameButFlag(b.tables.permissions[k], tables.permissions[k]);
  }

  /** The start of the validity comes from the request and its end from the permission row, so an issued
      certificate is ever valid exactly when the requested start comes before that end. */
  lemma IssuedWindow(b: Backend, v: Validated, req: CertificateRequest, clocks: Clocks)
    requires IssueFor(b, v, req, clocks).Issued?
    ensures RowKey(b, v, req) in b.tables.permissions
    ensures var body := IssueFor(b, v, req, clocks).cert.body;
            var row := b.tables.permissions[RowKey(b, v, req)];
            var time := if clocks.authorized.Some? then clocks.authorized.value else 0xEFFF_FFFF_FFFF_FFFF;
            var end := WrapAdd(time, AsU64(row.maxCreationTime));
            (exists now: u64 :: ValidAt(body, now)) <==> req.validAfter < end
  {
    var body := IssueFor(b, v, req, clocks).cert.body;
    if body.validAfter < body.validBefore {
      assert ValidAt(body, body.validAfter);
    }
  }

  /** The gap is real: any request the server issues for has a sibling for which it issues a certificate that
      is never valid. */
  lemma NeverValidCertificate(b: Backend, v: Validated, req: CertificateRequest, clocks: Clocks)
    requires IssueFor(b, v, req, clocks).Issued?
    ensures var late := IssueFor(b, v, req, clocks).cert.body.validBefore;
            var end := if req.validBefore < late then late else req.validBefore;
            var sibling := IssueFor(b, v, req.(validAfter := late, validBefore := end), clocks);
            sibling.Issued? && forall now: u64 :: !ValidAt(sibling.cert.body, now)
  {
    var late := IssueFor(b, v, req, clocks).cert.body.validBefore;
    var end := if req.validBefore < late then late else req.validBefore;
    IssuesExactlyWhen(b, v, req, clocks);
    IssuesExactlyWhen(b, v, req.(validAfter := late, validBefore := end), clocks);
  }
}
