/** The agent's handler: its certificate cache, its loaded and device-held keys, and the dispatcher that decides
    which key answers a signing request. */
module AgentHandler {
  import opened Wrappers
  import opened Words
  import opened Texts
  import opened SshModel
  import opened ChallengeProtocol
  import opened AgentWire
  import AgentConnection

  /** The parts of the SSH and device libraries left uninterpreted. */
  datatype Codec = Codec(
    encodeKey: KeyName -> bytes,
    readKey: bytes -> Option<KeyName>,
    encodeCert: Certificate -> bytes,
    readCert: bytes -> Option<Certificate>,
    sign: (KeyName, bytes) -> bytes,
    text: string -> bytes,
    slotName: nat -> string,
    certComment: Certificate -> bytes)

  /** Blobs read back to what they encode, certificates if their signature verifies, and a key blob is no
      certificate blob. */
  ghost predicate Lawful(codec: Codec) {
    && (forall k :: codec.readKey(codec.encodeKey(k)) == Some(k) && codec.readCert(codec.encodeKey(k)) == None)
    && (forall c :: Verifies(c) ==> codec.readCert(codec.encodeCert(c)) == Some(c))
  }

  datatype PivDescriptor = PivDescriptor(serial: nat, slot: nat, publicKey: PublicKey)

  /** What stays fixed while the agent runs; `slots` is what the connected devices hold. */
  datatype Config = Config(
    codec: Codec,
    pubkey: PublicKey,
    signatory: Signatory,
    piv: map<bytes, PivDescriptor>,
    slots: (nat, nat) -> Option<PublicKey>,
    certificatePriority: bool)

  datatype State = State(cert: Option<Certificate>, staleAt: u64, identities: map<bytes, PrivateKey>)

  /** What the surroundings contribute to one call: the clock, the outcome of asking the servers, the iteration
      order of hash maps, and whether devices respond.  `now` is read before the call queues for its locks, so what
      it says of the time left holds at that reading. */
  datatype Env = Env(now: u64, fetched: Result<Certificate, ()>, order: set<bytes> -> seq<bytes>, devicesRespond: bool)

  /** A hash map is iterated in some order, each key once. */
  ghost predicate Enumerates(order: set<bytes> -> seq<bytes>) {
    forall keys: set<bytes> :: multiset(order(keys)) == multiset(keys)
  }

  lemma EnumeratesAll(order: set<bytes> -> seq<bytes>, keys: set<bytes>)
    requires Enumerates(order)
    ensures |order(keys)| == |keys| && forall b :: b in order(keys) <==> b in keys
  {
    assert |multiset(order(keys))| == |order(keys)| && |multiset(keys)| == |keys|;
    forall b ensures b in order(keys) <==> b in keys {
      assert b in order(keys) <==> b in multiset(order(keys));
      assert b in keys <==> b in multiset(keys);
    }
  }

  datatype AgentError = InvalidKeyBlob | SigningFailed | DeviceFailed | NoSuchKey

  // ---------- the certificate cache ----------

  predicate Reusable(s: State, now: u64) {
    s.cert.Some? && WrapAdd(now, 5) < s.staleAt
  }

  /** `get_certificate_async(false)`. */
  function Peek(s: State, now: u64): Option<Certificate> {
    if Reusable(s, now) then s.cert else None
  }

  /** `get_certificate_async(true)`: the state afterwards. */
  function AfterObtain(s: State, now: u64, fetched: Result<Certificate, ()>): State {
    if Reusable(s, now) || fetched.Err? then s
    else s.(cert := Some(fetched.value), staleAt := fetched.value.body.validBefore)
  }

  /** `get_certificate_async(true)`: the result. */
  function Obtain(s: State, now: u64, fetched: Result<Certificate, ()>): Result<Certificate, ()> {
    if Reusable(s, now) then Ok(s.cert.value) else fetched
  }

  ghost predicate Coherent(s: State) {
    if s.cert.Some? then s.staleAt == s.cert.value.body.validBefore else s.staleAt == 0
  }

  /** The call that does not fetch returns a certificate exactly when the fetching call would reuse that one,
      whatever the servers would say. */
  lemma PeekIsReuse(s: State, now: u64, c: Certificate)
    ensures Peek(s, now) == Some(c)
       <==> forall fetched :: Obtain(s, now, fetched) == Ok(c) && AfterObtain(s, now, fetched) == s
  {
    if Peek(s, now) != Some(c) {
      assert Obtain(s, now, Err(())) != Ok(c);
    }
  }

  /** A certificate that was fetched is what both kinds of call reuse, until five seconds before its end; a failed fetch
      changes nothing. */
  lemma FetchedIsKept(s: State, now: u64, c: Certificate, later: u64)
    requires Peek(s, now).None? && later + 5 < U64_BOUND
    ensures Obtain(s, now, Ok(c)) == Ok(c)
    ensures Peek(AfterObtain(s, now, Ok(c)), later) == if later + 5 < c.body.validBefore then Some(c) else None
    ensures AfterObtain(s, now, Ok(c)).identities == s.identities
    ensures Obtain(s, now, Err(())) == Err(()) && AfterObtain(s, now, Err(())) == s
  {
  }

  // ---------- listing and signing ----------

  function NamedKey(codec: Codec, blob: bytes): Option<KeyName> {
    match codec.readCert(blob)
    case Some(cert) => Some(cert.body.key)
    case None => codec.readKey(blob)
  }

  function AfterAdd(cfg: Config, s: State, key: PrivateKey): State {
    s.(identities := s.identities[cfg.codec.encodeKey(key.pubkey.name) := key])
  }

  function LoadedIdentity(codec: Codec, key: PrivateKey): Identity {
    Identity(codec.encodeKey(key.pubkey.name), codec.text(key.comment))
  }

  function PivIdentity(codec: Codec, d: PivDescriptor): Identity {
    Identity(codec.encodeKey(d.publicKey.name),
             codec.text("Yubikey Serial: " + Decimal(d.serial) + " Slot: " + codec.slotName(d.slot)))
  }

  function ListLoaded(codec: Codec, keys: map<bytes, PrivateKey>, order: seq<bytes>): seq<Identity> {
    if order == [] then []
    else
      var n := |order| - 1;
      ListLoaded(codec, keys, order[..n]) + (if order[n] in keys then [LoadedIdentity(codec, keys[order[n]])] else [])
  }

  function ListPiv(codec: Codec, piv: map<bytes, PivDescriptor>, order: seq<bytes>): seq<Identity> {
    if order == [] then []
    else
      var n := |order| - 1;
      ListPiv(codec, piv, order[..n]) + (if order[n] in piv then [PivIdentity(codec, piv[order[n]])] else [])
  }

  const NO_CERTIFICATE := "No server returned valid certificate. Only your key is available"

  function OwnIdentities(cfg: Config, obtained: Result<Certificate, ()>): seq<Identity> {
    var blob := cfg.codec.encodeKey(cfg.pubkey.name);
    match obtained
    case Err(_) => [Identity(blob, cfg.codec.text(NO_CERTIFICATE))]
    case Ok(cert) =>
      var key, certificate := Identity(blob, []), Identity(cfg.codec.encodeCert(cert), cfg.codec.certComment(cert));
      if cfg.certificatePriority then [certificate, key] else [key, certificate]
  }

  /** `identities`: loaded keys, then device keys, then the handler's own key and certificate.  The loaded keys
      are copied first; other tasks may run before the certificate is obtained in state `s`. */
  function ListingAcross(cfg: Config, loaded: map<bytes, PrivateKey>, s: State, env: Env): seq<Identity> {
    ListLoaded(cfg.codec, loaded, env.order(loaded.Keys))
    + ListPiv(cfg.codec, cfg.piv, env.order(cfg.piv.Keys))
    + OwnIdentities(cfg, Obtain(s, env.now, env.fetched))
  }

  /** `identities` with no other task in between. */
  function Listing(cfg: Config, s: State, env: Env): seq<Identity> {
    ListingAcross(cfg, s.identities, s, env)
  }

  function SignatoryKey(cfg: Config): Option<KeyName> {
    match cfg.signatory
    case Direct(key, _) => Some(key.name)
    case Yubikey(_, slot, _) => if slot.Some? then Some(slot.value.name) else None
  }

  /** `sign_request`. */
  function SignFor(cfg: Config, s: State, env: Env, blob: bytes, data: bytes): Result<Response, AgentError> {
    var named := NamedKey(cfg.codec, blob);
    if named.None? then Err(InvalidKeyBlob)
    else if blob in s.identities then
      if s.identities[blob].signs then Ok(SignResponse(cfg.codec.sign(s.identities[blob].pubkey.name, data)))
      else Err(SigningFailed)
    else if blob in cfg.piv then
      var held := cfg.slots(cfg.piv[blob].serial, cfg.piv[blob].slot);
      if env.devicesRespond && held.Some? then Ok(SignResponse(cfg.codec.sign(held.value.name, data)))
      else Err(DeviceFailed)
    else if SignatoryKey(cfg).None? then Err(DeviceFailed)
    else if SignatoryKey(cfg) != named then Err(NoSuchKey)
    else if !cfg.signatory.signs then Err(if cfg.signatory.Direct? then SigningFailed else DeviceFailed)
    else Ok(SignResponse(cfg.codec.sign(named.value, data)))
  }

  /** `handle_request`. */
  function HandleRequest(cfg: Config, s: State, env: Env, request: Request): (State, Option<Response>) {
    match request
    case ListIdentities => (AfterObtain(s, env.now, env.fetched), Some(Identities(Listing(cfg, s, env))))
    case Sign(blob, data, _) =>
      (s, match SignFor(cfg, s, env, blob, data) case Ok(r) => Some(r) case Err(_) => None)
    case AddIdentity(key) => (AfterAdd(cfg, s, key), Some(Success))
    case Unknown => (s, Some(Failure))
  }

  // ---------- the invariant of every reachable state ----------

  ghost predicate PivOk(codec: Codec, slots: (nat, nat) -> Option<PublicKey>, piv: map<bytes, PivDescriptor>) {
    forall b :: b in piv ==>
      b == codec.encodeKey(piv[b].publicKey.name) && slots(piv[b].serial, piv[b].slot) == Some(piv[b].publicKey)
  }

  ghost predicate ConfigOk(cfg: Config) {
    && Lawful(cfg.codec)
    && PivOk(cfg.codec, cfg.slots, cfg.piv)
    && SignatoryKey(cfg) == Some(cfg.pubkey.name)
  }

  ghost predicate Valid(cfg: Config, s: State) {
    && ConfigOk(cfg)
    && Coherent(s)
    && (s.cert.Some? ==> s.cert.value.body.key == cfg.pubkey.name && Verifies(s.cert.value))
    && (forall b :: b in s.identities ==> b == cfg.codec.encodeKey(s.identities[b].pubkey.name))
  }

  /** The servers issue certificates for the key that was validated, which is the signatory's; a fetched certificate
      was parsed, and so its signature checked. */
  ghost predicate EnvOk(cfg: Config, env: Env) {
    && Enumerates(env.order)
    && (env.fetched.Ok? ==> env.fetched.value.body.key == cfg.pubkey.name && Verifies(env.fetched.value))
  }

  /** A reused certificate has more than five seconds left from the call's clock reading, at exactly those readings
      that five can be added to. */
  lemma ReusedIsNotStaleIff(cfg: Config, now: u64)
    requires ConfigOk(cfg)
    ensures now + 5 < U64_BOUND
       <==> forall s :: Valid(cfg, s) && Peek(s, now).Some? ==> Peek(s, now).value.body.validBefore > now + 5
  {
    if now + 5 >= U64_BOUND {
      var body := CertBody(cfg.pubkey.name, User, "", 0, Plain(""), [], 0, U64_BOUND - 1, map[], map[]);
      var s := State(Some(Certificate(body, Made("", body))), U64_BOUND - 1, map[]);
      assert Valid(cfg, s) && Peek(s, now) == s.cert;
    }
  }

  lemma ValidStep(cfg: Config, s: State, env: Env, request: Request)
    requires Valid(cfg, s) && EnvOk(cfg, env)
    ensures Valid(cfg, HandleRequest(cfg, s, env, request).0)
  {
  }

  /** Which blobs the handler signs for, and with which key: always the key the blob names. */
  lemma SignsExactlyFor(cfg: Config, s: State, env: Env, blob: bytes, data: bytes)
    requires Valid(cfg, s)
    ensures var named := NamedKey(cfg.codec, blob);
            var r := SignFor(cfg, s, env, blob, data);
            && (r.Ok? ==> named.Some? && r.value == SignResponse(cfg.codec.sign(named.value, data)))
            && (r.Ok? ==> blob in s.identities || blob in cfg.piv || named == Some(cfg.pubkey.name))
            && (named.None? ==> r == Err(InvalidKeyBlob))
            && (named.Some? && named.value != cfg.pubkey.name && blob !in s.identities && blob !in cfg.piv
                ==> r == Err(NoSuchKey))
  {
    assert blob in s.identities ==> blob == cfg.codec.encodeKey(s.identities[blob].pubkey.name);
    assert blob in cfg.piv ==> blob == cfg.codec.encodeKey(cfg.piv[blob].publicKey.name);
  }

  /** The key that would answer for `blob` is able to sign. */
  predicate DeviceWorks(cfg: Config, s: State, env: Env, blob: bytes) {
    if blob in s.identities then s.identities[blob].signs
    else if blob in cfg.piv then env.devicesRespond
    else cfg.signatory.signs
  }

  /** What the handler can be asked to sign for. */
  ghost predicate Answerable(cfg: Config, s: State, blob: bytes) {
    && NamedKey(cfg.codec, blob).Some?
    && (blob in s.identities || blob in cfg.piv || NamedKey(cfg.codec, blob) == Some(cfg.pubkey.name))
  }

  lemma AnswerableIsAnswered(cfg: Config, s: State, env: Env, blob: bytes, data: bytes)
    requires Valid(cfg, s)
    ensures SignFor(cfg, s, env, blob, data).Ok? <==> Answerable(cfg, s, blob) && DeviceWorks(cfg, s, env, blob)
  {
    SignsExactlyFor(cfg, s, env, blob, data);
    assert blob in cfg.piv ==> cfg.slots(cfg.piv[blob].serial, cfg.piv[blob].slot).Some?;
  }

  lemma {:induction false} LoadedInOrder(codec: Codec, keys: map<bytes, PrivateKey>, order: seq<bytes>)
    requires forall b :: b in order ==> b in keys
    ensures |ListLoaded(codec, keys, order)| == |order|
    ensures forall i :: 0 <= i < |order| ==>
              ListLoaded(codec, keys, order)[i] == LoadedIdentity(codec, keys[order[i]])
  {
    if order != [] {
      var n := |order| - 1;
      assert forall b :: b in order[..n] ==> b in order;
      assert order[n] in order;
      LoadedInOrder(codec, keys, order[..n]);
      var before := ListLoaded(codec, keys, order[..n]);
      assert ListLoaded(codec, keys, order) == before + [LoadedIdentity(codec, keys[order[n]])];
      assert forall i :: 0 <= i < n ==> before[i] == LoadedIdentity(codec, keys[order[..n][i]]);
    }
  }

  lemma {:induction false} PivLength(codec: Codec, piv: map<bytes, PivDescriptor>, order: seq<bytes>)
    requires forall b :: b in order ==> b in piv
    ensures |ListPiv(codec, piv, order)| == |order|
  {
    if order != [] {
      var n := |order| - 1;
      assert forall b :: b in order[..n] ==> b in order;
      assert order[n] in order;
      PivLength(codec, piv, order[..n]);
    }
  }

  lemma {:induction false} PivAt(codec: Codec, piv: map<bytes, PivDescriptor>, order: seq<bytes>, i: nat)
    requires (forall b :: b in order ==> b in piv) && i < |order|
    ensures i < |ListPiv(codec, piv, order)| && ListPiv(codec, piv, order)[i] == PivIdentity(codec, piv[order[i]])
  {
    var n := |order| - 1;
    assert forall b :: b in order[..n] ==> b in order;
    assert order[n] in order;
    PivLength(codec, piv, order[..n]);
    if i < n {
      PivAt(codec, piv, order[..n], i);
    }
  }

  /** What a listing is, entry by entry: each loaded key once and each device key once, in the order of their maps, and
      at the end the handler's own key and certificate in the configured order, or the key alone if there is no
      certificate. */
  lemma ListingExactly(cfg: Config, loaded: map<bytes, PrivateKey>, s: State, env: Env)
    returns (keys: seq<Identity>, held: seq<Identity>, own: seq<Identity>)
    requires Enumerates(env.order)
    ensures ListingAcross(cfg, loaded, s, env) == keys + held + own
    ensures var order := env.order(loaded.Keys);
            && |keys| == |order| == |loaded|
            && forall i :: 0 <= i < |keys| ==>
                 && order[i] in loaded
                 && keys[i] == Identity(cfg.codec.encodeKey(loaded[order[i]].pubkey.name),
                                        cfg.codec.text(loaded[order[i]].comment))
    ensures var order := env.order(cfg.piv.Keys);
            && |held| == |order| == |cfg.piv|
            && forall i :: 0 <= i < |held| ==>
                 && order[i] in cfg.piv
                 && var PivDescriptor(serial, slot, publicKey) := cfg.piv[order[i]];
                    var comment := "Yubikey Serial: " + Decimal(serial) + " Slot: " + cfg.codec.slotName(slot);
                    held[i] == Identity(cfg.codec.encodeKey(publicKey.name), cfg.codec.text(comment))
    ensures OwnPart(cfg, Obtain(s, env.now, env.fetched), own)
  {
    LoadedPart(cfg.codec, loaded, env.order);
    PivPart(cfg.codec, cfg.piv, env.order);
    keys := ListLoaded(cfg.codec, loaded, env.order(loaded.Keys));
    held := ListPiv(cfg.codec, cfg.piv, env.order(cfg.piv.Keys));
    own := OwnIdentities(cfg, Obtain(s, env.now, env.fetched));
  }

  lemma LoadedPart(codec: Codec, keys: map<bytes, PrivateKey>, order: set<bytes> -> seq<bytes>)
    requires Enumerates(order)
    ensures var listed := order(keys.Keys);
            && |ListLoaded(codec, keys, listed)| == |listed| == |keys|
            && forall i :: 0 <= i < |listed| ==>
                 && listed[i] in keys
                 && ListLoaded(codec, keys, listed)[i]
                    == Identity(codec.encodeKey(keys[listed[i]].pubkey.name), codec.text(keys[listed[i]].comment))
  {
    EnumeratesAll(order, keys.Keys);
    LoadedInOrder(codec, keys, order(keys.Keys));
  }

  lemma PivPart(codec: Codec, piv: map<bytes, PivDescriptor>, order: set<bytes> -> seq<bytes>)
    requires Enumerates(order)
    ensures var listed := order(piv.Keys);
            && |ListPiv(codec, piv, listed)| == |listed| == |piv|
            && forall i :: 0 <= i < |listed| ==>
                 && listed[i] in piv
                 && var PivDescriptor(serial, slot, publicKey) := piv[listed[i]];
                    var comment := "Yubikey Serial: " + Decimal(serial) + " Slot: " + codec.slotName(slot);
                    ListPiv(codec, piv, listed)[i] == Identity(codec.encodeKey(publicKey.name), codec.text(comment))
  {
    EnumeratesAll(order, piv.Keys);
    PivLength(codec, piv, order(piv.Keys));
    forall i | 0 <= i < |order(piv.Keys)|
      ensures ListPiv(codec, piv, order(piv.Keys))[i] == PivIdentity(codec, piv[order(piv.Keys)[i]])
    {
      PivAt(codec, piv, order(piv.Keys), i);
    }
  }

  /** The end of a listing. */
  ghost predicate OwnPart(cfg: Config, obtained: Result<Certificate, ()>, own: seq<Identity>) {
    var key := cfg.codec.encodeKey(cfg.pubkey.name);
    if obtained.Err? then
      own == [Identity(key, cfg.codec.text("No server returned valid certificate. Only your key is available"))]
    else
      var first, second := if cfg.certificatePriority then 1 else 0, if cfg.certificatePriority then 0 else 1;
      && |own| == 2
      && own[first] == Identity(key, [])
      && own[second] == Identity(cfg.codec.encodeCert(obtained.value), cfg.codec.certComment(obtained.value))
  }

  /** A key that was added is stored under its own blob, in place of an earlier one, and signs for that blob. */
  lemma AddedSigns(cfg: Config, s: State, env: Env, key: PrivateKey, later: Env, data: bytes)
    requires Lawful(cfg.codec)
    ensures var (s', response) := HandleRequest(cfg, s, env, AddIdentity(key));
            var blob := cfg.codec.encodeKey(key.pubkey.name);
            && response == Some(Success)
            && s'.identities.Keys == s.identities.Keys + {blob} && s'.identities[blob] == key
            && (forall b :: b in s.identities && b != blob ==> s'.identities[b] == s.identities[b])
            && s'.cert == s.cert && s'.staleAt == s.staleAt
            && SignFor(cfg, s', later, blob, data)
               == if key.signs then Ok(SignResponse(cfg.codec.sign(key.pubkey.name, data))) else Err(SigningFailed)
  {
  }

  lemma {:induction false} LoadedAreLoaded(codec: Codec, keys: map<bytes, PrivateKey>, order: seq<bytes>, i: nat)
    requires i < |ListLoaded(codec, keys, order)|
    ensures exists b :: b in keys && ListLoaded(codec, keys, order)[i].keyBlob == codec.encodeKey(keys[b].pubkey.name)
  {
    var n := |order| - 1;
    if i < |ListLoaded(codec, keys, order[..n])| {
      LoadedAreLoaded(codec, keys, order[..n], i);
    } else {
      assert order[n] in keys;
    }
  }

  lemma {:induction false} PivAreHeld(codec: Codec, piv: map<bytes, PivDescriptor>, order: seq<bytes>, i: nat)
    requires i < |ListPiv(codec, piv, order)|
    ensures exists b :: b in piv && ListPiv(codec, piv, order)[i].keyBlob == codec.encodeKey(piv[b].publicKey.name)
  {
    var n := |order| - 1;
    if i < |ListPiv(codec, piv, order[..n])| {
      PivAreHeld(codec, piv, order[..n], i);
    } else {
      assert order[n] in piv;
    }
  }

  /** Every blob the handler lists is one it can be asked to sign for, though keys were added while it listed. */
  lemma ListedIsAnswerable(cfg: Config, earlier: State, s: State, env: Env, i: nat)
    requires Valid(cfg, earlier) && Valid(cfg, s) && earlier.identities.Keys <= s.identities.Keys && EnvOk(cfg, env)
    requires i < |ListingAcross(cfg, earlier.identities, s, env)|
    ensures Answerable(cfg, s, ListingAcross(cfg, earlier.identities, s, env)[i].keyBlob)
  {
    var keys := earlier.identities;
    var loaded := ListLoaded(cfg.codec, keys, env.order(keys.Keys));
    var piv := ListPiv(cfg.codec, cfg.piv, env.order(cfg.piv.Keys));
    var own := OwnIdentities(cfg, Obtain(s, env.now, env.fetched));
    var listing := ListingAcross(cfg, keys, s, env);
    if i < |loaded| {
      assert listing[i] == loaded[i];
      LoadedIsAnswerable(cfg, earlier, s, env.order(keys.Keys), i);
    } else if i < |loaded| + |piv| {
      assert listing[i] == piv[i - |loaded|];
      PivIsAnswerable(cfg, s, env.order(cfg.piv.Keys), i - |loaded|);
    } else {
      assert listing[i] == own[i - |loaded| - |piv|];
      OwnIsAnswerable(cfg, s, env, i - |loaded| - |piv|);
    }
  }

  lemma LoadedIsAnswerable(cfg: Config, earlier: State, s: State, order: seq<bytes>, i: nat)
    requires Valid(cfg, earlier) && earlier.identities.Keys <= s.identities.Keys
    requires i < |ListLoaded(cfg.codec, earlier.identities, order)|
    ensures Answerable(cfg, s, ListLoaded(cfg.codec, earlier.identities, order)[i].keyBlob)
  {
    LoadedAreLoaded(cfg.codec, earlier.identities, order, i);
  }

  lemma PivIsAnswerable(cfg: Config, s: State, order: seq<bytes>, i: nat)
    requires ConfigOk(cfg) && i < |ListPiv(cfg.codec, cfg.piv, order)|
    ensures Answerable(cfg, s, ListPiv(cfg.codec, cfg.piv, order)[i].keyBlob)
  {
    PivAreHeld(cfg.codec, cfg.piv, order, i);
  }

  lemma OwnIsAnswerable(cfg: Config, s: State, env: Env, i: nat)
    requires Valid(cfg, s) && EnvOk(cfg, env) && i < |OwnIdentities(cfg, Obtain(s, env.now, env.fetched))|
    ensures Answerable(cfg, s, OwnIdentities(cfg, Obtain(s, env.now, env.fetched))[i].keyBlob)
  {
  }

  /** The agent does not check whom a fetched certificate is for.  Exactly when the one it lists is for its own key can
      it sign for all that it lists. */
  lemma AllListedAnswerableIff(cfg: Config, earlier: State, s: State, env: Env)
    requires Valid(cfg, earlier) && Valid(cfg, s) && earlier.identities.Keys <= s.identities.Keys
    requires Enumerates(env.order) && (env.fetched.Ok? ==> Verifies(env.fetched.value))
    ensures var listing := ListingAcross(cfg, earlier.identities, s, env);
            var obtained := Obtain(s, env.now, env.fetched);
            (forall i :: 0 <= i < |listing| ==> Answerable(cfg, s, listing[i].keyBlob))
            <==> (obtained.Ok? ==> obtained.value.body.key == cfg.pubkey.name)
  {
    var listing := ListingAcross(cfg, earlier.identities, s, env);
    var obtained := Obtain(s, env.now, env.fetched);
    if obtained.Ok? && obtained.value.body.key != cfg.pubkey.name {
      var own := OwnIdentities(cfg, obtained);
      var k := if cfg.certificatePriority then 0 else 1;
      OthersCertificateIsRefused(cfg, s, obtained.value);
      assert listing[|listing| - 2 + k] == own[k];
    } else {
      var good := if Reusable(s, env.now) then env.(fetched := Err(())) else env;
      assert ListingAcross(cfg, earlier.identities, s, good) == listing;
      forall i | 0 <= i < |listing| ensures Answerable(cfg, s, listing[i].keyBlob) {
        ListedIsAnswerable(cfg, earlier, s, good, i);
      }
    }
  }

  lemma OthersCertificateIsRefused(cfg: Config, s: State, cert: Certificate)
    requires Valid(cfg, s) && Verifies(cert) && cert.body.key != cfg.pubkey.name
    ensures !Answerable(cfg, s, cfg.codec.encodeCert(cert))
  {
    var blob := cfg.codec.encodeCert(cert);
    assert blob in s.identities ==> blob == cfg.codec.encodeKey(s.identities[blob].pubkey.name);
    assert blob in cfg.piv ==> blob == cfg.codec.encodeKey(cfg.piv[blob].publicKey.name);
  }

  lemma {:induction false} LoadedIsListed(codec: Codec, keys: map<bytes, PrivateKey>, order: seq<bytes>, b: bytes)
    requires b in order && b in keys
    ensures LoadedIdentity(codec, keys[b]) in ListLoaded(codec, keys, order)
  {
    var n := |order| - 1;
    if order[n] != b {
      LoadedIsListed(codec, keys, order[..n], b);
    }
  }

  lemma {:induction false} PivIsListed(codec: Codec, piv: map<bytes, PivDescriptor>, order: seq<bytes>, b: bytes)
    requires b in order && b in piv
    ensures PivIdentity(codec, piv[b]) in ListPiv(codec, piv, order)
  {
    var n := |order| - 1;
    if order[n] != b {
      PivIsListed(codec, piv, order[..n], b);
    }
  }

  /** The listing is complete: every loaded key, every device key and the handler's own key are in it. */
  lemma AllKeysAreListed(cfg: Config, s: State, env: Env, blob: bytes)
    requires Valid(cfg, s) && Enumerates(env.order)
    requires blob in s.identities || blob in cfg.piv || blob == cfg.codec.encodeKey(cfg.pubkey.name)
    ensures exists id :: id in Listing(cfg, s, env) && id.keyBlob == blob
  {
    EnumeratesAll(env.order, s.identities.Keys);
    EnumeratesAll(env.order, cfg.piv.Keys);
    if blob in s.identities {
      LoadedIsListed(cfg.codec, s.identities, env.order(s.identities.Keys), blob);
      assert LoadedIdentity(cfg.codec, s.identities[blob]) in Listing(cfg, s, env);
    } else if blob in cfg.piv {
      PivIsListed(cfg.codec, cfg.piv, env.order(cfg.piv.Keys), blob);
      assert PivIdentity(cfg.codec, cfg.piv[blob]) in Listing(cfg, s, env);
    } else {
      var own := OwnIdentities(cfg, Obtain(s, env.now, env.fetched));
      var id := if own[0].keyBlob == blob then own[0] else own[1];
      assert id in own && id in Listing(cfg, s, env);
    }
  }

  /** Answerability never lapses: a blob listed once stays answerable through every later request. */
  lemma AnswerableStays(cfg: Config, s: State, env: Env, request: Request, blob: bytes)
    requires Answerable(cfg, s, blob)
    ensures Answerable(cfg, HandleRequest(cfg, s, env, request).0, blob)
  {
  }

  // ---------- runs ----------

  datatype Call = Call(env: Env, request: Request)

  /** The states of the handler before each call, and after the last. */
  ghost predicate IsRun(cfg: Config, states: seq<State>, calls: seq<Call>) {
    && |states| == |calls| + 1
    && Valid(cfg, states[0])
    && (forall n :: 0 <= n < |calls| ==> EnvOk(cfg, calls[n].env))
    && (forall n :: 0 <= n < |calls| ==>
          states[n + 1] == HandleRequest(cfg, states[n], calls[n].env, calls[n].request).0)
  }

  lemma {:induction false} ReachableIsValid(cfg: Config, states: seq<State>, calls: seq<Call>, n: nat)
    requires IsRun(cfg, states, calls) && n < |states|
    ensures Valid(cfg, states[n])
  {
    if n > 0 {
      ReachableIsValid(cfg, states, calls, n - 1);
      ValidStep(cfg, states[n - 1], calls[n - 1].env, calls[n - 1].request);
    }
  }

  lemma {:induction false} StaysAnswerable(cfg: Config, states: seq<State>, calls: seq<Call>, n: nat, m: nat,
                                           blob: bytes)
    requires IsRun(cfg, states, calls) && n <= m < |states| && Answerable(cfg, states[n], blob)
    ensures Answerable(cfg, states[m], blob)
    decreases m
  {
    if n < m {
      StaysAnswerable(cfg, states, calls, n, m - 1, blob);
      AnswerableStays(cfg, states[m - 1], calls[m - 1].env, calls[m - 1].request, blob);
    }
  }

  lemma {:induction false} LoadedKeysStay(cfg: Config, states: seq<State>, calls: seq<Call>, n: nat, m: nat)
    requires IsRun(cfg, states, calls) && n <= m < |states|
    ensures states[n].identities.Keys <= states[m].identities.Keys
    decreases m
  {
    if n < m {
      LoadedKeysStay(cfg, states, calls, n, m - 1);
    }
  }

  /** Over every run, with the calls of any number of tasks interleaved: a blob that call `n` lists, having copied
      the loaded keys at an earlier point `l`, is answered by any later sign request, under the key it names, while
      the device that holds that key responds. */
  lemma ListedIsSigned(cfg: Config, states: seq<State>, calls: seq<Call>, l: nat, n: nat, i: nat, m: nat,
                       env: Env, data: bytes)
    requires IsRun(cfg, states, calls) && l <= n < |calls| && n <= m < |states|
    requires i < |ListingAcross(cfg, states[l].identities, states[n], calls[n].env)|
    requires var blob := ListingAcross(cfg, states[l].identities, states[n], calls[n].env)[i].keyBlob;
             DeviceWorks(cfg, states[m], env, blob)
    ensures var blob := ListingAcross(cfg, states[l].identities, states[n], calls[n].env)[i].keyBlob;
            && NamedKey(cfg.codec, blob).Some?
            && SignFor(cfg, states[m], env, blob, data)
               == Ok(SignResponse(cfg.codec.sign(NamedKey(cfg.codec, blob).value, data)))
  {
    var blob := ListingAcross(cfg, states[l].identities, states[n], calls[n].env)[i].keyBlob;
    ReachableIsValid(cfg, states, calls, l);
    ReachableIsValid(cfg, states, calls, n);
    ReachableIsValid(cfg, states, calls, m);
    LoadedKeysStay(cfg, states, calls, l, n);
    ListedIsAnswerable(cfg, states[l], states[n], calls[n].env, i);
    StaysAnswerable(cfg, states, calls, n, m, blob);
    AnswerableIsAnswered(cfg, states[m], env, blob, data);
    SignsExactlyFor(cfg, states[m], env, blob, data);
  }

  /** Over every run: a certificate fetched by call `n` is the cached one, and the one reused, until a later call meets
      a clock within five seconds of its end. */
  lemma {:induction false} FetchedIsReused(cfg: Config, states: seq<State>, calls: seq<Call>, n: nat, m: nat,
                                           c: Certificate)
    requires IsRun(cfg, states, calls) && n < m < |states|
    requires calls[n].request.ListIdentities? && calls[n].env.fetched == Ok(c)
    requires Peek(states[n], calls[n].env.now).None?
    requires forall k :: n < k < m ==> calls[k].env.now + 5 < c.body.validBefore
    ensures states[m].cert == Some(c) && states[m].staleAt == c.body.validBefore
    ensures forall now: u64 :: now + 5 < c.body.validBefore ==> Peek(states[m], now) == Some(c)
    decreases m
  {
    if n + 1 < m {
      FetchedIsReused(cfg, states, calls, n, m - 1, c);
      assert calls[m - 1].env.now + 5 < c.body.validBefore;
    }
  }

  /** Over every run: a key added by call `n` stays loaded, is listed and signs, until a key of the same name is
      added. */
  lemma AddedIsListedAndSigns(cfg: Config, states: seq<State>, calls: seq<Call>, n: nat, m: nat, env: Env, data: bytes)
    requires IsRun(cfg, states, calls) && n < m < |states| && calls[n].request.AddIdentity? && Enumerates(env.order)
    requires forall k :: n < k < m && calls[k].request.AddIdentity? ==>
               calls[k].request.privateKey.pubkey.name != calls[n].request.privateKey.pubkey.name
    ensures var key := calls[n].request.privateKey;
            var blob := cfg.codec.encodeKey(key.pubkey.name);
            && LoadedIdentity(cfg.codec, key) in Listing(cfg, states[m], env)
            && SignFor(cfg, states[m], env, blob, data)
               == if key.signs then Ok(SignResponse(cfg.codec.sign(key.pubkey.name, data))) else Err(SigningFailed)
  {
    var key := calls[n].request.privateKey;
    var blob := cfg.codec.encodeKey(key.pubkey.name);
    AddedStays(cfg, states, calls, n, m);
    EnumeratesAll(env.order, states[m].identities.Keys);
    LoadedIsListed(cfg.codec, states[m].identities, env.order(states[m].identities.Keys), blob);
    assert Valid(cfg, states[0]);
  }

  lemma {:induction false} AddedStays(cfg: Config, states: seq<State>, calls: seq<Call>, n: nat, m: nat)
    requires IsRun(cfg, states, calls) && n < m < |states| && calls[n].request.AddIdentity?
    requires forall k :: n < k < m && calls[k].request.AddIdentity? ==>
               calls[k].request.privateKey.pubkey.name != calls[n].request.privateKey.pubkey.name
    ensures var key := calls[n].request.privateKey;
            var blob := cfg.codec.encodeKey(key.pubkey.name);
            blob in states[m].identities && states[m].identities[blob] == key
    decreases m
  {
    if n + 1 < m {
      AddedStays(cfg, states, calls, n, m - 1);
      assert Valid(cfg, states[0]);
      if calls[m - 1].request.AddIdentity? {
        DistinctBlobs(cfg.codec, calls[m - 1].request.privateKey.pubkey.name, calls[n].request.privateKey.pubkey.name);
      }
    }
  }

  lemma DistinctBlobs(codec: Codec, a: KeyName, b: KeyName)
    requires Lawful(codec) && a != b
    ensures codec.encodeKey(a) != codec.encodeKey(b)
  {
    assert codec.readKey(codec.encodeKey(a)) == Some(a) && codec.readKey(codec.encodeKey(b)) == Some(b);
  }

  /** A whole connection served from a valid handler: every answer to a sign request is a signature by the very
      key that the request's blob names, and every answer to a listing is the handler's list at that point. */
  lemma ConnectionSignsNamedKeys(cfg: Config, parse: KeyParser, envs: nat -> Env, s: State, messages: seq<bytes>,
                                 i: nat)
    requires Valid(cfg, s) && forall n: nat :: EnvOk(cfg, envs(n))
    requires i < |AgentConnection.Answers(parse, Serving(cfg, envs), Served(s, 0), messages).responses|
    ensures i < |messages|
    ensures var answer := AgentConnection.Answers(parse, Serving(cfg, envs), Served(s, 0), messages).responses[i];
            && DecodeRequest(parse, messages[i]).Some?
            && match DecodeRequest(parse, messages[i]).value
               case Sign(blob, data, _) =>
                 && NamedKey(cfg.codec, blob).Some?
                 && answer == SignResponse(cfg.codec.sign(NamedKey(cfg.codec, blob).value, data))
               case AddIdentity(_) => answer == Success
               case Unknown => answer == Failure
               case ListIdentities =>
                 var before := AgentConnection.StateBefore(parse, Serving(cfg, envs), Served(s, 0), messages, i);
                 Valid(cfg, before.state) && answer == Identities(Listing(cfg, before.state, envs(before.count)))
  {
    var handle := Serving(cfg, envs);
    AgentConnection.AnswersInOrder(parse, handle, Served(s, 0), messages);
    ValidBefore(cfg, parse, envs, Served(s, 0), messages, i);
    var Served(s', n) := AgentConnection.StateBefore(parse, handle, Served(s, 0), messages, i);
    match DecodeRequest(parse, messages[i]).value {
      case Sign(blob, data, _) => SignsExactlyFor(cfg, s', envs(n), blob, data);
      case _ =>
    }
  }

  /** The handler as a connection sees it: the n-th request meets the n-th surroundings. */
  datatype Served = Served(state: State, count: nat)

  function ServeOne(cfg: Config, envs: nat -> Env, h: Served, request: Request): (Served, Option<Response>) {
    var (s', response) := HandleRequest(cfg, h.state, envs(h.count), request);
    (Served(s', h.count + 1), response)
  }

  function Serving(cfg: Config, envs: nat -> Env): AgentConnection.Handler<Served> {
    (h: Served, request: Request) => ServeOne(cfg, envs, h, request)
  }

  lemma {:induction false} ValidBefore(cfg: Config, parse: KeyParser, envs: nat -> Env, h: Served,
                                       messages: seq<bytes>, i: nat)
    requires Valid(cfg, h.state) && (forall n: nat :: EnvOk(cfg, envs(n))) && i <= |messages|
    ensures Valid(cfg, AgentConnection.StateBefore(parse, Serving(cfg, envs), h, messages, i).state)
    decreases i
  {
    if i > 0 && DecodeRequest(parse, messages[0]).Some? {
      var request := DecodeRequest(parse, messages[0]).value;
      ValidStep(cfg, h.state, envs(h.count), request);
      ValidBefore(cfg, parse, envs, Serving(cfg, envs)(h, request).0, messages[1..], i - 1);
    }
  }

  // ---------- the handler object ----------

  class Handler {
    const cfg: Config
    var cert: Option<Certificate>
    var staleAt: u64
    var identities: map<bytes, PrivateKey>

    function View(): State
      reads this
    {
      State(cert, staleAt, identities)
    }

    constructor (cfg: Config, identities: map<bytes, PrivateKey>)
      requires ConfigOk(cfg) && forall b :: b in identities ==> b == cfg.codec.encodeKey(identities[b].pubkey.name)
      ensures this.cfg == cfg && Valid(cfg, View()) && View() == State(None, 0, identities)
    {
      this.cfg := cfg;
      this.identities := identities;
      cert, staleAt := None, 0;
    }

    /** `get_certificate_async`. */
    method GetCertificate(fetchNewIfNeeded: bool, env: Env) returns (r: Result<Option<Certificate>, ()>)
      modifies this`cert, this`staleAt
      ensures fetchNewIfNeeded ==>
                && View() == AfterObtain(old(View()), env.now, env.fetched)
                && (r == match Obtain(old(View()), env.now, env.fetched)
                         case Ok(c) => Ok(Some(c))
                         case Err(e) => Err(e))
      ensures !fetchNewIfNeeded ==> View() == old(View()) && r == Ok(Peek(View(), env.now))
      ensures Coherent(old(View())) ==> Coherent(View())
      ensures fetchNewIfNeeded && Peek(old(View()), env.now).None? && env.fetched.Ok? ==>
                && r == Ok(Some(env.fetched.value))
                && cert == Some(env.fetched.value) && staleAt == env.fetched.value.body.validBefore
    {
      if cert.Some? && WrapAdd(env.now, 5) < staleAt {
        return Ok(cert);
      }
      if !fetchNewIfNeeded {
        return Ok(None);
      }
      if env.fetched.Err? {
        return Err(env.fetched.error);
      }
      cert := Some(env.fetched.value);
      staleAt := env.fetched.value.body.validBefore;
      return Ok(cert);
    }

    /** `add_identity`. */
    method AddIdentity(key: PrivateKey)
      modifies this`identities
      ensures View() == AfterAdd(cfg, old(View()), key)
      ensures identities == old(identities)[cfg.codec.encodeKey(key.pubkey.name) := key]
      ensures Valid(cfg, old(View())) ==> Valid(cfg, View())
    {
      identities := identities[cfg.codec.encodeKey(key.pubkey.name) := key];
    }

    /** `identities`. */
    method ListIdentities(env: Env) returns (ids: seq<Identity>)
      modifies this`cert, this`staleAt
      ensures View() == AfterObtain(old(View()), env.now, env.fetched)
      ensures ids == Listing(cfg, old(View()), env)
    {
      ids := [];
      var order := env.order(identities.Keys);
      for i := 0 to |order|
        invariant View() == old(View())
        invariant ids == ListLoaded(cfg.codec, identities, order[..i])
      {
        assert order[..i + 1][..i] == order[..i];
        if order[i] in identities {
          ids := ids + [LoadedIdentity(cfg.codec, identities[order[i]])];
        }
      }
      assert order[..|order|] == order;
      ghost var loaded := ids;
      order := env.order(cfg.piv.Keys);
      for i := 0 to |order|
        invariant View() == old(View())
        invariant ids == loaded + ListPiv(cfg.codec, cfg.piv, order[..i])
      {
        assert order[..i + 1][..i] == order[..i];
        if order[i] in cfg.piv {
          ids := ids + [PivIdentity(cfg.codec, cfg.piv[order[i]])];
        }
      }
      assert order[..|order|] == order;
      var obtained := GetCertificate(true, env);
      ids := ids + OwnIdentities(cfg, match obtained case Ok(Some(c)) => Ok(c) case _ => Err(()));
    }
  }

  // ---------- the keys on connected devices ----------

  const FIRST_SLOT := 0x82
  const PAST_SLOT := 0x96

  /** `get_all_piv_keys`: the map that later signing requests rely on; every key in a slot of an opened device
      is in it, under the blob that names it. */
  method GetAllPivKeys(codec: Codec, serials: seq<nat>, opens: nat -> bool, slots: (nat, nat) -> Option<PublicKey>)
    returns (r: Result<map<bytes, PivDescriptor>, nat>)
    ensures r.Ok? <==> forall i :: 0 <= i < |serials| ==> opens(serials[i])
    ensures r.Ok? ==> PivOk(codec, slots, r.value)
    ensures r.Ok? ==> forall b :: b in r.value ==> r.value[b].serial in serials && 0x82 <= r.value[b].slot < 0x96
    ensures r.Ok? ==> forall i, slot :: 0 <= i < |serials| && 0x82 <= slot < 0x96
                                        && slots(serials[i], slot).Some?
                        ==> codec.encodeKey(slots(serials[i], slot).value.name) in r.value
    ensures r.Err? ==> r.error in serials && !opens(r.error)
  {
    var keys: map<bytes, PivDescriptor> := map[];
    for i := 0 to |serials|
      invariant PivOk(codec, slots, keys)
      invariant forall j :: 0 <= j < i ==> opens(serials[j])
      invariant forall b :: b in keys ==> keys[b].serial in serials && FIRST_SLOT <= keys[b].slot < PAST_SLOT
      invariant forall j, slot :: 0 <= j < i && FIRST_SLOT <= slot < PAST_SLOT && slots(serials[j], slot).Some?
                  ==> codec.encodeKey(slots(serials[j], slot).value.name) in keys
    {
      if !opens(serials[i]) {
        return Err(serials[i]);
      }
      for slot := FIRST_SLOT to PAST_SLOT
        invariant PivOk(codec, slots, keys)
        invariant forall b :: b in keys ==> keys[b].serial in serials && FIRST_SLOT <= keys[b].slot < PAST_SLOT
        invariant forall j, t :: 0 <= j < i && FIRST_SLOT <= t < PAST_SLOT && slots(serials[j], t).Some?
                    ==> codec.encodeKey(slots(serials[j], t).value.name) in keys
        invariant forall t :: FIRST_SLOT <= t < slot && slots(serials[i], t).Some?
                    ==> codec.encodeKey(slots(serials[i], t).value.name) in keys
      {
        var held := slots(serials[i], slot);
        if held.Some? {
          keys := keys[codec.encodeKey(held.value.name) := PivDescriptor(serials[i], slot, held.value)];
        }
      }
    }
    return Ok(keys);
  }
}
