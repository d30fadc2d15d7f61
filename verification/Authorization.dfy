/** The local authorizer: permission tables, and the table of registered keys. */
module Authorization {
  import opened Wrappers
  import opened Words
  import opened Texts
  import opened SshModel

  datatype AuthorizationError = CertTypeNotAllowed | NotAuthorized | DatabaseError

  // ---------- permissions ----------

  datatype Permission = Permission(
    hostUnrestricted: bool,
    principalUnrestricted: bool,
    canCreateHostCerts: bool,
    canCreateUserCerts: bool,
    maxCreationTime: i64)

  datatype Grant = Grant(fingerprint: string, authority: string, name: string)

  datatype ExtensionRow = ExtensionRow(fingerprint: string, authority: string, name: string, value: Option<string>)

  /** The tables the authorizer reads; permissions are keyed by fingerprint and authority. */
  datatype Tables = Tables(
    permissions: map<(string, string), Permission>,
    principals: seq<Grant>,
    hosts: seq<Grant>,
    extensions: seq<ExtensionRow>)

  datatype SshRequest = SshRequest(
    fingerprint: string,
    principals: seq<string>,
    certType: CertType,
    validAfter: u64,
    validBefore: u64,
    authority: string)

  datatype SshAuthorization = SshAuthorization(
    serial: u64,
    validAfter: u64,
    validBefore: u64,
    principals: seq<string>,
    hosts: Option<seq<string>>,
    extensions: map<string, string>,
    forceCommand: Option<string>,
    forceSourceIp: bool,
    authority: string)

  function Granted(rows: seq<Grant>, fingerprint: string, authority: string): seq<string> {
    if rows == [] then []
    else
      var rest := Granted(rows[1..], fingerprint, authority);
      if rows[0].fingerprint == fingerprint && rows[0].authority == authority then [rows[0].name] + rest else rest
  }

  function ExtensionsOf(rows: seq<ExtensionRow>, fingerprint: string, authority: string): map<string, string> {
    if rows == [] then map[]
    else
      var n := |rows| - 1;
      var before := ExtensionsOf(rows[..n], fingerprint, authority);
      if rows[n].fingerprint == fingerprint && rows[n].authority == authority
      then before[rows[n].name := ExtensionValue(rows[n])]
      else before
  }

  const CLOCK_FALLBACK: u64 := 0xEFFF_FFFF_FFFF_FFFF

  function AuthorizationTime(clock: Option<u64>): u64 {
    if clock.Some? then clock.value else CLOCK_FALLBACK
  }

  predicate Allows(p: Permission, certType: CertType) {
    if certType.User? then p.canCreateUserCerts else p.canCreateHostCerts
  }

  function AuthorizeSshCert(t: Tables, req: SshRequest, clock: Option<u64>)
    : Result<SshAuthorization, AuthorizationError>
  {
    if (req.fingerprint, req.authority) !in t.permissions then Err(NotAuthorized)
    else
      var p := t.permissions[(req.fingerprint, req.authority)];
      if !Allows(p, req.certType) then Err(CertTypeNotAllowed)
      else Ok(SshAuthorization(
        0,
        req.validAfter,
        WrapAdd(AuthorizationTime(clock), AsU64(p.maxCreationTime)),
        if p.principalUnrestricted then req.principals else Granted(t.principals, req.fingerprint, req.authority),
        if p.hostUnrestricted then None else Some(Granted(t.hosts, req.fingerprint, req.authority)),
        ExtensionsOf(t.extensions, req.fingerprint, req.authority),
        None,
        false,
        req.authority))
  }

  /** Each name is granted as often as the table holds its row. */
  lemma {:induction false} GrantedAreTheRows(rows: seq<Grant>, fingerprint: string, authority: string, name: string)
    ensures multiset(Granted(rows, fingerprint, authority))[name] == multiset(rows)[Grant(fingerprint, authority, name)]
  {
    if rows != [] {
      GrantedAreTheRows(rows[1..], fingerprint, authority, name);
      assert rows == [rows[0]] + rows[1..];
      var matches := rows[0].fingerprint == fingerprint && rows[0].authority == authority;
      var head := if matches then [rows[0].name] else [];
      assert Granted(rows, fingerprint, authority) == head + Granted(rows[1..], fingerprint, authority);
      assert multiset(head)[name] == if rows[0] == Grant(fingerprint, authority, name) then 1 else 0;
    }
  }

  /** The hosts a key is restricted to, which the authorizer looks up like its principals. */
  lemma HostsAreTheRows(t: Tables, req: SshRequest, clock: Option<u64>, name: string)
    requires AuthorizeSshCert(t, req, clock).Ok?
    ensures (req.fingerprint, req.authority) in t.permissions
    ensures var hosts := AuthorizeSshCert(t, req, clock).value.hosts;
            && (hosts.None? <==> t.permissions[(req.fingerprint, req.authority)].hostUnrestricted)
            && (hosts.Some? ==>
                  multiset(hosts.value)[name] == multiset(t.hosts)[Grant(req.fingerprint, req.authority, name)])
  {
    GrantedAreTheRows(t.hosts, req.fingerprint, req.authority, name);
  }

  predicate Concerns(row: ExtensionRow, fingerprint: string, authority: string, name: string) {
    row.fingerprint == fingerprint && row.authority == authority && row.name == name
  }

  /** `found` is what the last row of that name says (nothing set means the empty value), or nothing without such a
      row. */
  ghost predicate LastRowSays(rows: seq<ExtensionRow>, fingerprint: string, authority: string, name: string,
                              found: Option<string>)
  {
    match found
    case None => forall i :: 0 <= i < |rows| ==> !Concerns(rows[i], fingerprint, authority, name)
    case Some(value) =>
      exists i :: 0 <= i < |rows| && Concerns(rows[i], fingerprint, authority, name)
        && ExtensionValue(rows[i]) == value
        && forall j :: i < j < |rows| ==> !Concerns(rows[j], fingerprint, authority, name)
  }

  function ValueAt(m: map<string, string>, name: string): Option<string> {
    if name in m then Some(m[name]) else None
  }

  lemma {:induction false} ExtensionsAreTheRows(rows: seq<ExtensionRow>, fingerprint: string, authority: string,
                                                name: string)
    ensures LastRowSays(rows, fingerprint, authority, name, ValueAt(ExtensionsOf(rows, fingerprint, authority), name))
  {
    if rows != [] {
      var n := |rows| - 1;
      ExtensionsAreTheRows(rows[..n], fingerprint, authority, name);
      if !Concerns(rows[n], fingerprint, authority, name) {
        LaterRowOfOthers(rows, fingerprint, authority, name, ValueAt(ExtensionsOf(rows, fingerprint, authority), name));
      }
    }
  }

  lemma LaterRowOfOthers(rows: seq<ExtensionRow>, fingerprint: string, authority: string, name: string,
                         found: Option<string>)
    requires rows != [] && !Concerns(rows[|rows| - 1], fingerprint, authority, name)
    requires LastRowSays(rows[..|rows| - 1], fingerprint, authority, name, found)
    ensures LastRowSays(rows, fingerprint, authority, name, found)
  {
    var before := rows[..|rows| - 1];
    assert forall i :: 0 <= i < |before| ==> before[i] == rows[i];
    if found.Some? {
      var i :| 0 <= i < |before| && Concerns(before[i], fingerprint, authority, name)
        && ExtensionValue(before[i]) == found.value
        && forall j :: i < j < |before| ==> !Concerns(before[j], fingerprint, authority, name);
      assert Concerns(rows[i], fingerprint, authority, name);
    }
  }

  function ExtensionValue(row: ExtensionRow): string {
    if row.value.Some? then row.value.value else ""
  }

  /** The table's primary key. */
  ghost predicate KeyedByName(rows: seq<ExtensionRow>) {
    forall i, j :: 0 <= i < j < |rows| ==> !Concerns(rows[j], rows[i].fingerprint, rows[i].authority, rows[i].name)
  }

  /** With one row per name every row counts, in whatever order they come. */
  lemma ExtensionIsItsRow(rows: seq<ExtensionRow>, row: ExtensionRow)
    requires KeyedByName(rows) && row in rows
    ensures ValueAt(ExtensionsOf(rows, row.fingerprint, row.authority), row.name) == Some(ExtensionValue(row))
  {
    ExtensionsAreTheRows(rows, row.fingerprint, row.authority, row.name);
  }

  // ---------- registered keys ----------

  datatype Attestation =
    | Piv(firmware: string, serial: string, touchPolicy: string, pinPolicy: string, certificate: string,
          intermediate: string)
    | U2f(firmware: string, intermediate: string, authData: string, authDataSignature: string,
          aaguid: string, challenge: string, alg: int, application: string)

  datatype Registration = Registration(
    fingerprint: string,
    pubkey: string,
    identities: seq<string>,
    attestation: Option<Attestation>)

  datatype RegisteredKey = RegisteredKey(
    fingerprint: string,
    pubkey: string,
    user: string,
    firmware: Option<string>,
    hsmSerial: Option<string>,
    touchPolicy: Option<string>,
    pinPolicy: Option<string>,
    attestationCertificate: Option<string>,
    attestationIntermediate: Option<string>,
    authData: Option<string>,
    authDataSignature: Option<string>,
    aaguid: Option<string>,
    challenge: Option<string>,
    alg: Option<int>,
    application: Option<string>)

  /** The attestation a row records. */
  function AttestationOf(k: RegisteredKey): Option<Attestation> {
    match (k.firmware, k.hsmSerial, k.touchPolicy, k.pinPolicy, k.attestationCertificate, k.attestationIntermediate)
    case (Some(f), Some(s), Some(t), Some(p), Some(c), Some(i)) => Some(Piv(f, s, t, p, c, i))
    case _ =>
      match (k.firmware, k.attestationIntermediate, k.authData, k.authDataSignature, k.aaguid, k.challenge, k.alg,
             k.application)
      case (Some(f), Some(i), Some(d), Some(s), Some(g), Some(c), Some(a), Some(app)) =>
        Some(U2f(f, i, d, s, g, c, a, app))
      case _ => None
  }

  /** Which columns of a row an attestation fills, with what. */
  predicate Columns(k: RegisteredKey, a: Option<Attestation>) {
    match a
    case Some(Piv(firmware, serial, touchPolicy, pinPolicy, certificate, intermediate)) =>
      && k.firmware == Some(firmware) && k.hsmSerial == Some(serial)
      && k.touchPolicy == Some(touchPolicy) && k.pinPolicy == Some(pinPolicy)
      && k.attestationCertificate == Some(certificate) && k.attestationIntermediate == Some(intermediate)
      && k.authData == k.authDataSignature == k.aaguid == k.challenge == k.application == None && k.alg == None
    case Some(U2f(firmware, intermediate, authData, authDataSignature, aaguid, challenge, alg, application)) =>
      && k.firmware == Some(firmware) && k.attestationIntermediate == Some(intermediate)
      && k.authData == Some(authData) && k.authDataSignature == Some(authDataSignature)
      && k.aaguid == Some(aaguid) && k.challenge == Some(challenge)
      && k.alg == Some(alg) && k.application == Some(application)
      && k.hsmSerial == k.touchPolicy == k.pinPolicy == k.attestationCertificate == None
    case None =>
      && k.firmware == k.hsmSerial == k.touchPolicy == k.pinPolicy == None
      && k.attestationCertificate == k.attestationIntermediate == None
      && k.authData == k.authDataSignature == k.aaguid == k.challenge == k.application == None && k.alg == None
  }

  /** The columns tell the two kinds of attestation, and every field, apart. */
  lemma AttestationReadsBack(k: RegisteredKey, a: Option<Attestation>)
    requires Columns(k, a)
    ensures AttestationOf(k) == a
  {
  }

  /** A row that records a registration completely. */
  predicate Records(k: RegisteredKey, r: Registration) {
    && k.fingerprint == r.fingerprint
    && k.pubkey == r.pubkey
    && k.user == Join(r.identities, ",")
    && Columns(k, r.attestation)
  }

  /** Registrations asked for one after another (`None` where a call asks for none), by primary key: the first
      of a fingerprint stays. */
  function Insertions(rs: seq<Option<Registration>>): map<string, Registration> {
    if rs == [] then map[]
    else
      var n := |rs| - 1;
      var before := Insertions(rs[..n]);
      if rs[n].None? || rs[n].value.fingerprint in before then before
      else before[rs[n].value.fingerprint := rs[n].value]
  }

  lemma {:induction false} InsertedOnce(rs: seq<Option<Registration>>, fingerprint: string) returns (i: nat)
    requires fingerprint in Insertions(rs)
    ensures i < |rs| && rs[i] == Some(Insertions(rs)[fingerprint])
    ensures Insertions(rs)[fingerprint].fingerprint == fingerprint && fingerprint !in Insertions(rs[..i])
  {
    var n := |rs| - 1;
    i := n;
    if fingerprint in Insertions(rs[..n]) {
      i := InsertedOnce(rs[..n], fingerprint);
      assert rs[..n][..i] == rs[..i];
    }
  }

  /** Every fingerprint that is asked for has a row. */
  lemma {:induction false} AskedIsInserted(rs: seq<Option<Registration>>, i: nat)
    requires i < |rs| && rs[i].Some?
    ensures rs[i].value.fingerprint in Insertions(rs)
  {
    if i < |rs| - 1 {
      AskedIsInserted(rs[..|rs| - 1], i);
    }
  }

  lemma {:induction false} InsertionsStay(rs: seq<Option<Registration>>, n: nat, fingerprint: string)
    requires n <= |rs| && fingerprint in Insertions(rs[..n])
    ensures fingerprint in Insertions(rs) && Insertions(rs)[fingerprint] == Insertions(rs[..n])[fingerprint]
  {
    if n < |rs| {
      var m := |rs| - 1;
      assert rs[..m][..n] == rs[..n];
      InsertionsStay(rs[..m], n, fingerprint);
    } else {
      assert rs[..n] == rs;
    }
  }

  /** The stored rows record exactly those registrations. */
  ghost predicate Store(keys: map<string, RegisteredKey>, rows: map<string, Registration>) {
    keys.Keys == rows.Keys && forall f :: f in keys ==> Records(keys[f], rows[f])
  }

  class LocalDatabase {
    /** `registered_keys`, by its primary key. */
    var registeredKeys: map<string, RegisteredKey>
    /** Every registration asked for so far. */
    ghost var asked: seq<Option<Registration>>

    ghost predicate Valid()
      reads this
    {
      Store(registeredKeys, Insertions(asked))
    }

    constructor ()
      ensures registeredKeys == map[] && asked == [] && Valid()
    {
      registeredKeys := map[];
      asked := [];
    }

    /** `register_key`: a new fingerprint gets a row that records the request; a known one changes nothing. */
    method RegisterKey(req: Registration) returns (r: Result<(), AuthorizationError>)
      requires Valid()
      modifies this
      ensures Valid() && asked == old(asked) + [Some(req)]
      ensures r.Ok? <==> req.fingerprint !in old(registeredKeys)
      ensures r.Ok? ==> && req.fingerprint in registeredKeys
                        && Records(registeredKeys[req.fingerprint], req)
                        && registeredKeys == old(registeredKeys)[req.fingerprint := registeredKeys[req.fingerprint]]
      ensures r.Err? ==> registeredKeys == old(registeredKeys) && r.error == DatabaseError
    {
      var key := RegisteredKey(req.fingerprint, req.pubkey, Join(req.identities, ","),
                               None, None, None, None, None, None, None, None, None, None, None, None);
      match req.attestation {
        case Some(Piv(firmware, serial, touchPolicy, pinPolicy, certificate, intermediate)) =>
          key := key.(firmware := Some(firmware));
          key := key.(hsmSerial := Some(serial));
          key := key.(touchPolicy := Some(touchPolicy));
          key := key.(pinPolicy := Some(pinPolicy));
          key := key.(attestationCertificate := Some(certificate));
          key := key.(attestationIntermediate := Some(intermediate));
        case Some(U2f(firmware, intermediate, authData, authDataSignature, aaguid, challenge, alg, application)) =>
          key := key.(firmware := Some(firmware));
          key := key.(attestationIntermediate := Some(intermediate));
          key := key.(authData := Some(authData));
          key := key.(authDataSignature := Some(authDataSignature));
          key := key.(aaguid := Some(aaguid));
          key := key.(challenge := Some(challenge));
          key := key.(alg := Some(alg));
          key := key.(application := Some(application));
        case None =>
      }
      assert (asked + [Some(req)])[..|asked|] == asked;
      asked := asked + [Some(req)];
      if key.fingerprint in registeredKeys {
        return Err(DatabaseError);
      }
      registeredKeys := registeredKeys[key.fingerprint := key];
      return Ok(());
    }
  }
}
