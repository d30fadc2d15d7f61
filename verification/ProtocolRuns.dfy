/** Whole runs of the server among arbitrary clients, as logs of events.  A client may present any
    certificate it can assemble: tags only the server can make must have been issued before, and a valid
    signature must have been made by the owner of its key.  Clocks are arbitrary at every event. */
module ProtocolRuns {
  import opened Wrappers
  import opened Words
  import opened Texts
  import opened ChallengeTexts
  import opened SshModel
  import opened ChallengeProtocol
  import opened Issuing
  import Signing
  import Authorization

  datatype World = World(srv: Server, lib: Library, signing: Signing.SigningMechanism)

  /** A key that an attestation chain vouches for. */
  datatype AttestedKey = AttestedKey(fingerprint: string, attestation: Authorization.Attestation)

  datatype Event =
    | ChallengeCall(peers: seq<PeerCert>, pubkey: string, now: u64)
    | OwnerSigns(signer: KeyName, body: CertBody)
    | CertificateCall(mtls: Option<seq<PeerCert>>, req: CertificateRequest, clocks: Clocks,
                      tables: Authorization.Tables, signersRespond: bool)
    | RegisterCall(client: seq<PeerCert>, ch: Challenge, clock: Option<u64>, attested: Option<AttestedKey>)

  // ---------- what an event leaves behind ----------

  function IssuedText(w: World, e: Event): Option<string> {
    if e.ChallengeCall? && IssueChallenge(w.srv, w.lib, e.peers, e.pubkey, e.now).Some?
    then Some(ChallengeText(e.now, e.pubkey, Join(CertificateInformation(e.peers[0]).value.identities, ",")))
    else None
  }

  /** What the server finds when it handles a certificate call. */
  function BackendAt(w: World, e: Event): Backend
    requires e.CertificateCall?
  {
    Backend(w.srv, w.lib, w.signing, e.tables, e.signersRespond)
  }

  function IssuedCertificate(w: World, e: Event): Option<Certificate> {
    if e.CertificateCall? then
      var response := HandleCertificate(BackendAt(w, e), e.mtls, e.req, e.clocks);
      if response.Issued? then Some(response.cert) else None
    else None
  }

  /** The signature that `e` makes known, if any. */
  function SignatureOf(w: World, e: Event): Option<Signature> {
    match e
    case ChallengeCall(peers, pubkey, now) =>
      var response := IssueChallenge(w.srv, w.lib, peers, pubkey, now);
      if response.Some? && response.value.challenge.Encoded?
      then Some(response.value.challenge.cert.signature) else None
    case OwnerSigns(signer, body) => Some(Made(signer, body))
    case CertificateCall(_, _, _, _, _) =>
      if IssuedCertificate(w, e).Some? then Some(IssuedCertificate(w, e).value.signature) else None
    case RegisterCall(_, _, _, _) => None
  }

  // ---------- runs ----------

  /** A tag can be used only after it was issued. */
  ghost predicate KnownBody(w: World, log: seq<Event>, body: CertBody) {
    body.keyId.Hex? && body.keyId.tag.Mac? ==>
      exists j :: 0 <= j < |log| && IssuedText(w, log[j]) == Some(body.keyId.tag.text)
  }

  ghost predicate Presentable(w: World, log: seq<Event>, text: CertText) {
    text.Encoded? ==>
      && KnownBody(w, log, text.cert.body)
      && (text.cert.signature.Made? ==>
            exists k :: 0 <= k < |log| && SignatureOf(w, log[k]) == Some(text.cert.signature))
  }

  ghost predicate Possible(w: World, log: seq<Event>, e: Event) {
    match e
    case ChallengeCall(_, _, _) => true
    case OwnerSigns(signer, body) => signer != w.srv.challengeKey && KnownBody(w, log, body)
    case CertificateCall(_, req, _, _, _) => req.challenge.Some? ==> Presentable(w, log, req.challenge.value.challenge)
    case RegisterCall(_, ch, _, _) => Presentable(w, log, ch.challenge)
  }

  ghost predicate IsRun(w: World, log: seq<Event>) {
    forall i :: 0 <= i < |log| ==> Possible(w, log[..i], log[i])
  }

  // ---------- accepted requests ----------

  /** A presented challenge together with what the server knows when it judges it. */
  datatype Presented = Presented(peers: seq<PeerCert>, ch: Challenge, clock: Option<u64>)

  function Judged(e: Event): Option<Presented> {
    match e
    case CertificateCall(mtls, req, clocks, _, _) =>
      if mtls.Some? && req.challenge.Some?
      then Some(Presented(mtls.value, req.challenge.value, clocks.validated)) else None
    case RegisterCall(client, ch, clock, _) => Some(Presented(client, ch, clock))
    case _ => None
  }

  function Verdict(w: World, p: Presented): Result<Validated, ServerError> {
    ValidateRequest(w.srv, w.lib, p.peers, p.ch, p.clock)
  }

  predicate Accepted(w: World, e: Event) {
    Judged(e).Some? && Verdict(w, Judged(e).value).Ok?
  }

  function AcceptedKey(w: World, e: Event): PublicKey
    requires Accepted(w, e)
  {
    Verdict(w, Judged(e).value).value.key
  }

  /** The text whose tag the accepted certificate must carry. */
  function AcceptedText(w: World, e: Event): string
    requires Accepted(w, e)
  {
    var Presented(_, ch, _) := Judged(e).value;
    ChallengeText(ParseU64(ch.challengeTime).value, ch.pubkey, Join(Verdict(w, Judged(e).value).value.identities, ","))
  }

  function AcceptedBody(w: World, e: Event): (body: CertBody)
    requires Accepted(w, e)
    ensures body.keyId == Hex(Mac(AcceptedText(w, e)))
  {
    Judged(e).value.ch.challenge.cert.body
  }

  /** The challenge call that issued an accepted tag: same text, stamped at most five seconds before the
      server's clock and, once that clock has passed five, never after it. */
  ghost predicate IssuedInTime(w: World, issue: Event, accept: Event)
    requires Accepted(w, accept)
  {
    && IssuedText(w, issue) == Some(AcceptedText(w, accept))
    && var now := Judged(accept).value.clock.value;
       && WrapSub(now, issue.now) <= WINDOW
       && (now >= WINDOW ==> issue.now <= now <= issue.now + WINDOW)
  }

  lemma AcceptedWasIssued(w: World, log: seq<Event>, i: nat) returns (j: nat)
    requires IsRun(w, log) && i < |log| && Accepted(w, log[i])
    ensures j < i && IssuedInTime(w, log[j], log[i])
  {
    var body := AcceptedBody(w, log[i]);
    assert Possible(w, log[..i], log[i]);
    assert KnownBody(w, log[..i], body);
    j :| 0 <= j < |log[..i]| && IssuedText(w, log[..i][j]) == Some(body.keyId.tag.text);
    SameTextSameTime(w, log[j], log[i]);
  }

  lemma SameTextSameTime(w: World, issue: Event, accept: Event)
    requires Accepted(w, accept) && IssuedText(w, issue) == Some(AcceptedText(w, accept))
    ensures IssuedInTime(w, issue, accept)
  {
    var Presented(_, ch, clock) := Judged(accept).value;
    var identities := CertificateInformation(issue.peers[0]).value.identities;
    TextDeterminesTime(issue.now, issue.pubkey, Join(identities, ","),
                       ParseU64(ch.challengeTime).value, ch.pubkey,
                       Join(Verdict(w, Judged(accept).value).value.identities, ","));
  }

  /** With dash-free identities the tag was issued to the same identities for the same public key. */
  lemma AcceptedForSameParts(w: World, issue: Event, accept: Event)
    requires Accepted(w, accept) && IssuedText(w, issue) == Some(AcceptedText(w, accept))
    requires '-' !in Join(CertificateInformation(issue.peers[0]).value.identities, ",")
    requires '-' !in Join(Verdict(w, Judged(accept).value).value.identities, ",")
    ensures issue.pubkey == Judged(accept).value.ch.pubkey
    ensures Join(CertificateInformation(issue.peers[0]).value.identities, ",")
         == Join(Verdict(w, Judged(accept).value).value.identities, ",")
    ensures w.lib.parseKey(issue.pubkey) == Some(AcceptedKey(w, accept))
  {
    var Presented(_, ch, _) := Judged(accept).value;
    TextDeterminesParts(issue.now, issue.pubkey, Join(CertificateInformation(issue.peers[0]).value.identities, ","),
                        ParseU64(ch.challengeTime).value, ch.pubkey,
                        Join(Verdict(w, Judged(accept).value).value.identities, ","));
  }

  /** The accepted certificate verifies, so its signature was made earlier: by the owner of its signing key,
      or by the server when it issued the challenge. */
  lemma SignatureWasMade(w: World, log: seq<Event>, i: nat) returns (k: nat)
    requires IsRun(w, log) && i < |log| && Accepted(w, log[i])
    ensures k < i
    ensures var body := AcceptedBody(w, log[i]);
            SignatureOf(w, log[k]) == Some(Made(body.signatureKey, body))
    ensures var body := AcceptedBody(w, log[i]);
            || log[k] == OwnerSigns(body.signatureKey, body)
            || (body.signatureKey == w.srv.challengeKey && IssuedText(w, log[k]) == Some(AcceptedText(w, log[i]))
                && body == ChallengeBody(w.srv, body.key, AcceptedText(w, log[i])))
  {
    var body := AcceptedBody(w, log[i]);
    var cert := Judged(log[i]).value.ch.challenge.cert;
    assert cert == Sign(body, body.signatureKey);
    assert Possible(w, log[..i], log[i]);
    k :| 0 <= k < |log[..i]| && SignatureOf(w, log[..i][k]) == Some(cert.signature);
    TaggedSignatureSource(w, log[k], body);
  }

  /** Signatures over a body that holds a tag come from owners and from the server's challenges; issued
      certificates carry a plain key id. */
  lemma TaggedSignatureSource(w: World, e: Event, body: CertBody)
    requires body.keyId.Hex? && body.keyId.tag.Mac?
    requires SignatureOf(w, e) == Some(Made(body.signatureKey, body))
    ensures || e == OwnerSigns(body.signatureKey, body)
            || (body.signatureKey == w.srv.challengeKey && IssuedText(w, e) == Some(body.keyId.tag.text)
                && body == ChallengeBody(w.srv, body.key, body.keyId.tag.text))
  {
    if e.CertificateCall? {
      IssuedIsSigned(w, e);
    }
  }

  lemma IssuedIsSigned(w: World, e: Event)
    requires IssuedCertificate(w, e).Some?
    ensures Verifies(IssuedCertificate(w, e).value)
    ensures IssuedCertificate(w, e).value.body.keyId.Plain?
  {
  }

  /** Which key the checks of the two modes force the certificate to be signed by. */
  lemma AcceptedSigner(w: World, e: Event)
    requires Accepted(w, e)
    ensures w.srv.requireProof ==> AcceptedBody(w, e).key == AcceptedBody(w, e).signatureKey == AcceptedKey(w, e).name
    ensures !w.srv.requireProof ==> AcceptedBody(w, e).signatureKey == w.srv.challengeKey
  {
  }

  lemma BodyWasKnown(w: World, log: seq<Event>, k: nat) returns (j: nat)
    requires IsRun(w, log) && k < |log| && log[k].OwnerSigns?
    requires log[k].body.keyId.Hex? && log[k].body.keyId.tag.Mac?
    ensures j < k && IssuedText(w, log[j]) == Some(log[k].body.keyId.tag.text)
    ensures log[k].signer != w.srv.challengeKey
  {
    assert Possible(w, log[..k], log[k]);
    j :| 0 <= j < |log[..k]| && IssuedText(w, log[..k][j]) == Some(log[k].body.keyId.tag.text);
  }

  /** Proof required: the owner of the accepted key signed a certificate holding the tag, after the server
      issued it and before the server accepted it.  (A request for the server's own challenge key needs no
      further signature: its owner, the server, signed the challenge itself.) */
  lemma ProofOfPossession(w: World, log: seq<Event>, i: nat) returns (j: nat, k: nat)
    requires IsRun(w, log) && i < |log| && Accepted(w, log[i])
    requires w.srv.requireProof
    ensures j <= k < i && IssuedInTime(w, log[j], log[i])
    ensures AcceptedBody(w, log[i]).key == AcceptedKey(w, log[i]).name
    ensures SignatureOf(w, log[k]) == Some(Made(AcceptedKey(w, log[i]).name, AcceptedBody(w, log[i])))
    ensures AcceptedKey(w, log[i]).name != w.srv.challengeKey ==>
              j < k && log[k] == OwnerSigns(AcceptedKey(w, log[i]).name, AcceptedBody(w, log[i]))
  {
    k := SignatureWasMade(w, log, i);
    AcceptedSigner(w, log[i]);
    j := k;
    if log[k].OwnerSigns? {
      j := BodyWasKnown(w, log, k);
    }
    SameTextSameTime(w, log[j], log[i]);
  }

  /** Proof not required: the accepted certificate is, field for field, one the server's challenge key signed
      when it issued this tag. */
  lemma ServerSignedWithoutProof(w: World, log: seq<Event>, i: nat) returns (j: nat)
    requires IsRun(w, log) && i < |log| && Accepted(w, log[i])
    requires !w.srv.requireProof
    ensures j < i && IssuedInTime(w, log[j], log[i])
    ensures SignatureOf(w, log[j]) == Some(Made(w.srv.challengeKey, AcceptedBody(w, log[i])))
  {
    j := SignatureWasMade(w, log, i);
    AcceptedSigner(w, log[i]);
    if log[j].OwnerSigns? {
      var _ := BodyWasKnown(w, log, j);
      assert false;
    }
    SameTextSameTime(w, log[j], log[i]);
  }

  /** The exception is exact: with proof required, the owner of the accepted key is known to have signed this
      certificate if and only if that key is not the server's challenge key. */
  lemma OwnerSignedIff(w: World, log: seq<Event>, i: nat)
    requires IsRun(w, log) && i < |log| && Accepted(w, log[i])
    requires w.srv.requireProof
    ensures AcceptedKey(w, log[i]).name != w.srv.challengeKey
       <==> exists k :: 0 <= k < i && log[k] == OwnerSigns(AcceptedKey(w, log[i]).name, AcceptedBody(w, log[i]))
  {
    if AcceptedKey(w, log[i]).name != w.srv.challengeKey {
      var j, k := ProofOfPossession(w, log, i);
    }
    forall k | 0 <= k < i && log[k].OwnerSigns? ensures log[k].signer != w.srv.challengeKey {
      assert Possible(w, log[..k], log[k]);
    }
  }

  // ---------- runs that happen ----------

  predicate Resigned(w: World, cert: Certificate) {
    w.srv.requireProof && cert.body.key != w.srv.challengeKey
  }

  /** What is sent back for an issued challenge certificate: re-addressed to its own key and signed with it, or, where
      that changes nothing or is not asked for, untouched. */
  function Returned(w: World, cert: Certificate): Certificate {
    if Resigned(w, cert) then Sign(cert.body.(signatureKey := cert.body.key), cert.body.key) else cert
  }

  function IssuedChallenge(w: World, issue: Event): Certificate
    requires IssuedText(w, issue).Some?
  {
    IssueChallenge(w.srv, w.lib, issue.peers, issue.pubkey, issue.now).value.challenge.cert
  }

  /** A challenge, its owner's signature where one is needed, and a registration that presents the result. */
  function AnswerLog(w: World, issue: Event, peers: seq<PeerCert>, pubkey: string, clock: u64): seq<Event>
    requires IssuedText(w, issue).Some?
  {
    var cert := IssuedChallenge(w, issue);
    var ch := Challenge(pubkey, Decimal(issue.now), PrintCert(w.lib, Returned(w, cert)));
    [issue]
    + (if Resigned(w, cert) then [OwnerSigns(cert.body.key, Returned(w, cert).body)] else [])
    + [RegisterCall(peers, ch, Some(clock), None)]
  }

  /** What the answering side must get right. */
  ghost predicate AnswerFits(w: World, issue: Event, peers: seq<PeerCert>, pubkey: string, clock: u64) {
    && IssuedText(w, issue).Some?
    && peers != [] && CertificateInformation(peers[0]).Some?
    && IssuedText(w, issue).value
       == ChallengeText(issue.now, pubkey, Join(CertificateInformation(peers[0]).value.identities, ","))
    && w.lib.parseKey(pubkey).Some?
    && (w.srv.requireProof ==> w.lib.parseKey(pubkey).value.name == IssuedChallenge(w, issue).body.key)
    && WrapSub(clock, issue.now) <= WINDOW
    && w.lib.certLength(Returned(w, IssuedChallenge(w, issue))) <= MAX_CERTIFICATE_LENGTH
  }

  lemma AnswerIsRun(w: World, issue: Event, peers: seq<PeerCert>, pubkey: string, clock: u64)
    requires AnswerFits(w, issue, peers, pubkey, clock)
    ensures IsRun(w, AnswerLog(w, issue, peers, pubkey, clock))
  {
    var log := AnswerLog(w, issue, peers, pubkey, clock);
    var cert := IssuedChallenge(w, issue);
    var last := |log| - 1;
    assert IssuedText(w, log[..last][0]) == Some(cert.body.keyId.tag.text);
    assert KnownBody(w, log[..last], Returned(w, cert).body);
    if Resigned(w, cert) {
      assert IssuedText(w, log[..1][0]) == Some(cert.body.keyId.tag.text);
      assert Possible(w, log[..1], log[1]);
      assert SignatureOf(w, log[..last][1]) == Some(Returned(w, cert).signature);
    } else {
      assert SignatureOf(w, log[..last][0]) == Some(cert.signature);
    }
    assert Possible(w, log[..last], log[last]);
  }

  /** Every fitting answer makes a run that ends in acceptance, in both proof modes and for every key. */
  lemma AnswerIsAccepted(w: World, issue: Event, peers: seq<PeerCert>, pubkey: string, clock: u64)
    requires AnswerFits(w, issue, peers, pubkey, clock)
    ensures var log := AnswerLog(w, issue, peers, pubkey, clock);
            && IsRun(w, log)
            && Accepted(w, log[|log| - 1])
            && w.lib.parseKey(pubkey) == Some(AcceptedKey(w, log[|log| - 1]))
            && Judged(log[|log| - 1]).value.ch.pubkey == pubkey
            && Verdict(w, Judged(log[|log| - 1]).value).value.identities
               == CertificateInformation(peers[0]).value.identities
  {
    AnswerIsRun(w, issue, peers, pubkey, clock);
    ReturnedValidates(w, issue, peers, pubkey, clock);
  }

  lemma ReturnedValidates(w: World, issue: Event, peers: seq<PeerCert>, pubkey: string, clock: u64)
    requires AnswerFits(w, issue, peers, pubkey, clock)
    ensures var ch := Challenge(pubkey, Decimal(issue.now), PrintCert(w.lib, Returned(w, IssuedChallenge(w, issue))));
            var verdict := ValidateRequest(w.srv, w.lib, peers, ch, Some(clock));
            && verdict.Ok? && Some(verdict.value.key) == w.lib.parseKey(pubkey)
            && verdict.value.identities == CertificateInformation(peers[0]).value.identities
  {
    ParseOfDecimal(issue.now);
  }

  /** The exception of `ProofOfPossession` happens: with proof required, the untouched challenge for the server's own
      challenge key is accepted after two events, neither of them an owner's signature. */
  lemma ChallengeKeyNeedsNoSignature(w: World, issue: Event, clock: u64) returns (answer: Event)
    requires w.srv.requireProof && IssuedText(w, issue).Some?
    requires w.lib.parseKey(issue.pubkey).value.name == w.srv.challengeKey
    requires WrapSub(clock, issue.now) <= WINDOW
    requires w.lib.certLength(IssuedChallenge(w, issue)) <= MAX_CERTIFICATE_LENGTH
    ensures IsRun(w, [issue, answer]) && Accepted(w, answer) && AcceptedKey(w, answer).name == w.srv.challengeKey
  {
    var log := AnswerLog(w, issue, issue.peers, issue.pubkey, clock);
    AnswerIsAccepted(w, issue, issue.peers, issue.pubkey, clock);
    answer := log[1];
    assert log == [issue, answer];
  }

  /** An honest agent's exchange is a run of the model, in both proof modes: the challenge presented at its end is the
      one that `complete_rustica_challenge` produces. */
  lemma HonestRunExists(w: World, peers: seq<PeerCert>, s: Signatory, issued: u64, clock: u64) returns (log: seq<Event>)
    requires KeysReadBack(w.lib) && PublicHalf(s).Ok? && (w.srv.requireProof ==> s.signs)
    requires peers != [] && CertificateInformation(peers[0]).Some?
    requires |w.lib.printKey(PublicHalf(s).value)| <= MAX_KEY_LENGTH
    requires WrapSub(clock, issued) <= WINDOW
    requires var response := IssueChallenge(w.srv, w.lib, peers, w.lib.printKey(PublicHalf(s).value), issued);
             response.Some? && Completed(w.lib, s, response.value).Ok?
             ==> Completed(w.lib, s, response.value).value.challenge.length <= MAX_CERTIFICATE_LENGTH
    ensures IsRun(w, log) && log != [] && Accepted(w, log[|log| - 1])
    ensures AcceptedKey(w, log[|log| - 1]).name == PublicHalf(s).value.name
    ensures var response := IssueChallenge(w.srv, w.lib, peers, w.lib.printKey(PublicHalf(s).value), issued);
            response.Some? && Ok(Judged(log[|log| - 1]).value.ch) == Completed(w.lib, s, response.value)
  {
    var pubkey := w.lib.printKey(PublicHalf(s).value);
    var issue := ChallengeCall(peers, pubkey, issued);
    log := AnswerLog(w, issue, peers, pubkey, clock);
    AnswerIsAccepted(w, issue, peers, pubkey, clock);
  }

  /** What dashes allow: a challenge issued for one key text to identities `before-after` is accepted from identities
      `after` for that key text extended by `-before`, wherever the longer text parses (to the same key, with proof). */
  lemma DashMovesParts(w: World, issue: Event, peers: seq<PeerCert>, before: string, after: string, clock: u64)
    requires IssuedText(w, issue).Some?
    requires Join(CertificateInformation(issue.peers[0]).value.identities, ",") == before + "-" + after
    requires peers != [] && CertificateInformation(peers[0]).Some?
    requires Join(CertificateInformation(peers[0]).value.identities, ",") == after
    requires var moved := w.lib.parseKey(issue.pubkey + "-" + before);
             moved.Some? && (w.srv.requireProof ==> moved.value.name == IssuedChallenge(w, issue).body.key)
    requires WrapSub(clock, issue.now) <= WINDOW
    requires w.lib.certLength(Returned(w, IssuedChallenge(w, issue))) <= MAX_CERTIFICATE_LENGTH
    ensures var log := AnswerLog(w, issue, peers, issue.pubkey + "-" + before, clock);
            && IsRun(w, log) && Accepted(w, log[|log| - 1])
            && Judged(log[|log| - 1]).value.ch.pubkey != issue.pubkey
            && Join(Verdict(w, Judged(log[|log| - 1]).value).value.identities, ",") == after != before + "-" + after
  {
    SameTextOtherParts(issue.now, issue.pubkey, before, after);
    AnswerIsAccepted(w, issue, peers, issue.pubkey + "-" + before, clock);
    assert |before + "-" + after| > |after|;
  }

  /** And the other way: a challenge issued for the key text `base-middle` to identities `after`, dash-free or not, is
      accepted from identities `middle-after` for the key text `base`. */
  lemma DashMovesPartsBack(w: World, issue: Event, peers: seq<PeerCert>, base: string, middle: string, clock: u64)
    requires IssuedText(w, issue).Some? && issue.pubkey == base + "-" + middle
    requires peers != [] && CertificateInformation(peers[0]).Some?
    requires Join(CertificateInformation(peers[0]).value.identities, ",")
          == middle + "-" + Join(CertificateInformation(issue.peers[0]).value.identities, ",")
    requires var moved := w.lib.parseKey(base);
             moved.Some? && (w.srv.requireProof ==> moved.value.name == IssuedChallenge(w, issue).body.key)
    requires WrapSub(clock, issue.now) <= WINDOW
    requires w.lib.certLength(Returned(w, IssuedChallenge(w, issue))) <= MAX_CERTIFICATE_LENGTH
    ensures var log := AnswerLog(w, issue, peers, base, clock);
            && IsRun(w, log) && Accepted(w, log[|log| - 1])
            && Judged(log[|log| - 1]).value.ch.pubkey == base != issue.pubkey
            && Verdict(w, Judged(log[|log| - 1]).value).value.identities
               == CertificateInformation(peers[0]).value.identities
               != CertificateInformation(issue.peers[0]).value.identities
  {
    var after := Join(CertificateInformation(issue.peers[0]).value.identities, ",");
    SameTextOtherParts(issue.now, base, middle, after);
    assert AnswerFits(w, issue, peers, base, clock);
    AnswerIsAccepted(w, issue, peers, base, clock);
    assert |middle + "-" + after| > |after|;
  }

  // ---------- replays ----------

  /** The server keeps no record of used tags: whatever happened since, presenting an accepted challenge again is
      accepted at exactly the clocks for which its issue time is still inside the window. */
  lemma ReplayAcceptedIff(w: World, log: seq<Event>, i: nat, replay: Event)
    requires IsRun(w, log) && i < |log| && Accepted(w, log[i])
    requires Judged(replay).Some? && Judged(replay).value.clock.Some?
    requires Judged(replay).value == Judged(log[i]).value.(clock := Judged(replay).value.clock)
    ensures IsRun(w, log + [replay])
    ensures ParseU64(Judged(replay).value.ch.challengeTime).Some?
    ensures Accepted(w, replay)
       <==> WrapSub(Judged(replay).value.clock.value, ParseU64(Judged(replay).value.ch.challengeTime).value) <= WINDOW
    ensures Accepted(w, replay) ==> AcceptedKey(w, replay) == AcceptedKey(w, log[i])
  {
    assert Possible(w, log[..i], log[i]);
    StillPresentable(w, log, i, Judged(replay).value.ch.challenge);
    RunExtends(w, log, replay);
  }

  lemma StillPresentable(w: World, log: seq<Event>, i: nat, text: CertText)
    requires i <= |log| && Presentable(w, log[..i], text)
    ensures Presentable(w, log, text)
  {
    assert forall j :: 0 <= j < i ==> log[..i][j] == log[j];
    assert text.Encoded? ==> KnownBody(w, log[..i], text.cert.body);
  }

  lemma RunExtends(w: World, log: seq<Event>, e: Event)
    requires IsRun(w, log) && Possible(w, log, e)
    ensures IsRun(w, log + [e])
  {
    var more := log + [e];
    forall i | 0 <= i < |more| ensures Possible(w, more[..i], more[i]) {
      assert more[..i] == if i < |log| then log[..i] else log;
    }
  }

  // ---------- issued certificates over a run ----------

  /** Every certificate issued in a run: its challenge was issued in time, its key's owner answered it when
      proof is required, and the permission row of the moment entitles to all that it says. */
  lemma IssuedOverRun(w: World, log: seq<Event>, i: nat) returns (j: nat, k: nat)
    requires IsRun(w, log) && i < |log| && IssuedCertificate(w, log[i]).Some?
    ensures Accepted(w, log[i])
    ensures var cert := IssuedCertificate(w, log[i]).value;
            && Verifies(cert)
            && Entitled(BackendAt(w, log[i]), Verdict(w, Judged(log[i]).value).value, log[i].req, log[i].clocks,
                        cert.body)
            && j < i && IssuedInTime(w, log[j], log[i])
            && (w.srv.requireProof && cert.body.key != w.srv.challengeKey ==>
                  j < k < i && log[k] == OwnerSigns(cert.body.key, AcceptedBody(w, log[i])))
  {
    IssuedIsEntitled(BackendAt(w, log[i]), log[i].mtls, log[i].req, log[i].clocks);
    if w.srv.requireProof {
      j, k := ProofOfPossession(w, log, i);
    } else {
      j := AcceptedWasIssued(w, log, i);
      k := i;
    }
  }

  // ---------- registered keys over a run ----------

  /** What a `register_key` or `register_u2f_key` call hands to the authorizer. */
  function RegistrationOf(w: World, e: Event): Option<Authorization.Registration> {
    if !e.RegisterCall? || !Accepted(w, e) then None
    else
      var v := Verdict(w, Judged(e).value).value;
      match e.attested
      case Some(key) =>
        if key.fingerprint != v.key.name then None
        else Some(Authorization.Registration(key.fingerprint, w.lib.printKey(v.key), v.identities,
                                             Some(key.attestation)))
      case None =>
        if w.srv.requireAttestation then None
        else Some(Authorization.Registration(v.key.name, w.lib.printKey(v.key), v.identities, None))
  }

  /** The registered keys after a run. */
  function Registered(w: World, log: seq<Event>): map<string, Authorization.Registration> {
    Authorization.Insertions(seq(|log|, i requires 0 <= i < |log| => RegistrationOf(w, log[i])))
  }

  /** A row, once there, never changes. */
  lemma RowsStay(w: World, log: seq<Event>, n: nat, fingerprint: string)
    requires n <= |log| && fingerprint in Registered(w, log[..n])
    ensures fingerprint in Registered(w, log) && Registered(w, log)[fingerprint] == Registered(w, log[..n])[fingerprint]
  {
    var rs := seq(|log|, i requires 0 <= i < |log| => RegistrationOf(w, log[i]));
    assert seq(|log[..n]|, i requires 0 <= i < |log[..n]| => RegistrationOf(w, log[..n][i])) == rs[..n];
    Authorization.InsertionsStay(rs, n, fingerprint);
  }

  lemma RegistrationWasAccepted(w: World, e: Event)
    requires RegistrationOf(w, e).Some?
    ensures Accepted(w, e) && AcceptedKey(w, e).name == RegistrationOf(w, e).value.fingerprint
    ensures w.srv.requireAttestation ==> RegistrationOf(w, e).value.attestation.Some?
  {
  }

  /** Every registered key was validated by a challenge for that very key, attested where that is required. */
  lemma RegisteredWasValidated(w: World, log: seq<Event>, fingerprint: string) returns (i: nat)
    requires fingerprint in Registered(w, log)
    ensures i < |log| && RegistrationOf(w, log[i]) == Some(Registered(w, log)[fingerprint])
    ensures Accepted(w, log[i]) && AcceptedKey(w, log[i]).name == fingerprint
    ensures w.srv.requireAttestation ==> Registered(w, log)[fingerprint].attestation.Some?
  {
    i := Authorization.InsertedOnce(seq(|log|, k requires 0 <= k < |log| => RegistrationOf(w, log[k])), fingerprint);
    RegistrationWasAccepted(w, log[i]);
  }

  /** Registration over a run: the tag that was answered had been issued in time, and with proof required the owner of
      the registered key had signed it in between. */
  lemma RegisteredOverRun(w: World, log: seq<Event>, fingerprint: string) returns (i: nat, j: nat, k: nat)
    requires IsRun(w, log) && fingerprint in Registered(w, log)
    ensures i < |log| && RegistrationOf(w, log[i]) == Some(Registered(w, log)[fingerprint])
    ensures Accepted(w, log[i]) && AcceptedKey(w, log[i]).name == fingerprint
    ensures w.srv.requireAttestation ==> Registered(w, log)[fingerprint].attestation.Some?
    ensures j < i && IssuedInTime(w, log[j], log[i])
    ensures w.srv.requireProof && fingerprint != w.srv.challengeKey ==>
              j < k < i && log[k] == OwnerSigns(fingerprint, AcceptedBody(w, log[i]))
  {
    i := RegisteredWasValidated(w, log, fingerprint);
    if w.srv.requireProof {
      j, k := ProofOfPossession(w, log, i);
    } else {
      j := AcceptedWasIssued(w, log, i);
      k := i;
    }
  }

  /** When a registration call registers its key. */
  ghost predicate Registers(w: World, e: Event) {
    && e.RegisterCall? && Accepted(w, e)
    && (if e.attested.Some? then e.attested.value.fingerprint == AcceptedKey(w, e).name else !w.srv.requireAttestation)
  }

  lemma RegistersExactly(w: World, e: Event)
    ensures RegistrationOf(w, e).Some? <==> Registers(w, e)
    ensures Registers(w, e) ==> RegistrationOf(w, e).value.fingerprint == AcceptedKey(w, e).name
  {
  }

  /** The registered keys are exactly those of the calls that register theirs. */
  lemma RegisteredIff(w: World, log: seq<Event>, fingerprint: string)
    ensures fingerprint in Registered(w, log)
       <==> exists i :: 0 <= i < |log| && Registers(w, log[i]) && AcceptedKey(w, log[i]).name == fingerprint
  {
    var rs := seq(|log|, i requires 0 <= i < |log| => RegistrationOf(w, log[i]));
    if fingerprint in Registered(w, log) {
      var i := RegisteredWasValidated(w, log, fingerprint);
      RegistersExactly(w, log[i]);
    }
    if i :| 0 <= i < |log| && Registers(w, log[i]) && AcceptedKey(w, log[i]).name == fingerprint {
      RegistersExactly(w, log[i]);
      Authorization.AskedIsInserted(rs, i);
    }
  }

  /** What a row holds: a text of the validated key, the common names of the caller, and the attestation that came with
      the call. */
  lemma RegisteredContents(w: World, log: seq<Event>, fingerprint: string) returns (i: nat)
    requires KeysReadBack(w.lib) && fingerprint in Registered(w, log)
    ensures i < |log| && Registers(w, log[i]) && AcceptedKey(w, log[i]).name == fingerprint
    ensures forall j :: 0 <= j < i && Registers(w, log[j]) ==> AcceptedKey(w, log[j]).name != fingerprint
    ensures var row := Registered(w, log)[fingerprint];
            && row.fingerprint == fingerprint
            && w.lib.parseKey(row.pubkey).Some? && w.lib.parseKey(row.pubkey).value.name == fingerprint
            && Readable(log[i].client) && Names(log[i].client, row.identities)
            && (log[i].attested.Some? ==> row.attestation == Some(log[i].attested.value.attestation))
            && (log[i].attested.None? ==> row.attestation.None?)
  {
    var rs := seq(|log|, k requires 0 <= k < |log| => RegistrationOf(w, log[k]));
    i := Authorization.InsertedOnce(rs, fingerprint);
    RegistersExactly(w, log[i]);
    AcceptsExactlyWhen(w.srv, w.lib, log[i].client, log[i].ch, log[i].clock);
    forall j | 0 <= j < i && Registers(w, log[j]) ensures AcceptedKey(w, log[j]).name != fingerprint {
      RegistersExactly(w, log[j]);
      Authorization.AskedIsInserted(rs[..i], j);
    }
  }
}
