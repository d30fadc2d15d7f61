/** The challenge/response exchange: the server's `challenge` and `validate_request`, and the
    agent's `complete_rustica_challenge`. */
module ChallengeProtocol {
  import opened Wrappers
  import opened Words
  import opened Texts
  import opened ChallengeTexts
  import opened SshModel

  // ---------- the server ----------

  datatype ServerError = TimeExpired | BadChallenge | BadCertOptions | NotAuthorized | BadRequest | Unknown

  datatype Server = Server(
    challengeKey: KeyName,
    requireProof: bool,
    requireAttestation: bool,
    clientAuthority: string,
    validityLength: u64,
    renewalPeriod: u64)

  /** A presented mTLS certificate: its common names (`None` for one that is no string) and its expiry. */
  datatype PeerCert = Unparsable | Peer(commonNames: seq<Option<string>>, notAfter: i64)

  datatype CertInfo = CertInfo(identities: seq<string>, expiry: i64)

  datatype Refresh = Refresh(notBefore: u64, notAfter: u64)

  datatype ChallengeResponse = ChallengeResponse(time: string, challenge: CertText, noSignatureRequired: bool)

  datatype Challenge = Challenge(pubkey: string, challengeTime: string, challenge: CertText)

  datatype Validated = Validated(key: PublicKey, identities: seq<string>, refresh: Option<Refresh>)

  function Strings(names: seq<Option<string>>): Option<seq<string>> {
    if names == [] then Some([])
    else if names[0].None? || Strings(names[1..]).None? then None
    else Some([names[0].value] + Strings(names[1..]).value)
  }

  function CertificateInformation(peer: PeerCert): Option<CertInfo> {
    if peer.Unparsable? || Strings(peer.commonNames).None? then None
    else Some(CertInfo(Strings(peer.commonNames).value, peer.notAfter))
  }

  lemma {:induction false} StringsOneMore(names: seq<Option<string>>, last: Option<string>)
    ensures Strings(names + [last])
         == if Strings(names).None? || last.None? then None else Some(Strings(names).value + [last.value])
  {
    if names == [] {
      var one := names + [last];
      assert one[0] == last && one[1..] == names;
      assert last.Some? ==> [last.value] + Strings(names).value == Strings(names).value + [last.value];
    } else {
      assert (names + [last])[1..] == names[1..] + [last];
      StringsOneMore(names[1..], last);
      if Strings(names).Some? && last.Some? {
        assert Strings(names).value + [last.value] == [names[0].value] + (Strings(names[1..]).value + [last.value]);
      }
    }
  }

  lemma {:induction false} StringsNeedAll(names: seq<Option<string>>, i: nat)
    requires i < |names| && names[i].None?
    ensures Strings(names).None?
  {
    if i > 0 {
      StringsNeedAll(names[1..], i - 1);
    }
  }

  /** `extract_certificate_information`: the common names in order, refused if one of them is no string. */
  method ExtractCertificateInformation(peer: PeerCert) returns (r: Option<CertInfo>)
    ensures r == CertificateInformation(peer)
    ensures r.Some? <==> peer.Peer? && forall i :: 0 <= i < |peer.commonNames| ==> peer.commonNames[i].Some?
    ensures r.Some? ==> && r.value.expiry == peer.notAfter
                        && |r.value.identities| == |peer.commonNames|
                        && forall i :: 0 <= i < |peer.commonNames| ==>
                             peer.commonNames[i] == Some(r.value.identities[i])
  {
    if peer.Unparsable? {
      return None;
    }
    var identities := [];
    for i := 0 to |peer.commonNames|
      invariant Strings(peer.commonNames[..i]) == Some(identities)
      invariant |identities| == i
      invariant forall j :: 0 <= j < i ==> peer.commonNames[j] == Some(identities[j])
    {
      if peer.commonNames[i].None? {
        StringsNeedAll(peer.commonNames, i);
        return None;
      }
      StringsOneMore(peer.commonNames[..i], peer.commonNames[i]);
      assert peer.commonNames[..i + 1] == peer.commonNames[..i] + [peer.commonNames[i]];
      identities := identities + [peer.commonNames[i].value];
    }
    assert peer.commonNames[..|peer.commonNames|] == peer.commonNames;
    return Some(CertInfo(identities, peer.notAfter));
  }

  const CHALLENGE_SERIAL: u64 := 0xFEFE_FEFE_FEFE_FEFE
  const MAX_KEY_LENGTH: nat := 1024
  const MAX_CERTIFICATE_LENGTH: nat := 1024
  const WINDOW: nat := 5

  function ChallengeBody(srv: Server, key: KeyName, text: string): CertBody {
    CertBody(key, Host, srv.challengeKey, CHALLENGE_SERIAL, Hex(Mac(text)), [], 0, 0, map[], map[])
  }

  /** `challenge`: refused without a usable client certificate or key. */
  function IssueChallenge(srv: Server, lib: Library, peers: seq<PeerCert>, pubkey: string, now: u64)
    : Option<ChallengeResponse>
  {
    if peers == [] || CertificateInformation(peers[0]).None? then None
    else if |pubkey| > MAX_KEY_LENGTH || lib.parseKey(pubkey).None? then None
    else
      var identities := CertificateInformation(peers[0]).value.identities;
      var text := ChallengeText(now, pubkey, Join(identities, ","));
      var cert := Sign(ChallengeBody(srv, lib.parseKey(pubkey).value.name, text), srv.challengeKey);
      Some(ChallengeResponse(Decimal(now), PrintCert(lib, cert), !srv.requireProof))
  }

  function RefreshFor(srv: Server, expiry: i64, time: u64): Option<Refresh> {
    if time > AsU64(expiry) || WrapSub(AsU64(expiry), time) < srv.renewalPeriod
    then Some(Refresh(time, WrapAdd(time, srv.validityLength)))
    else None
  }

  /** `validate_request`, check by check. */
  function ValidateRequest(srv: Server, lib: Library, peers: seq<PeerCert>, ch: Challenge, clock: Option<u64>)
    : Result<Validated, ServerError>
  {
    if peers == [] then Err(BadRequest)
    else if CertificateInformation(peers[0]).None? then Err(NotAuthorized)
    else
      var CertInfo(identities, expiry) := CertificateInformation(peers[0]).value;
      if ParseU64(ch.challengeTime).None? || clock.None? then Err(Unknown)
      else
        var requestTime, time := ParseU64(ch.challengeTime).value, clock.value;
        if WrapSub(time, requestTime) > WINDOW then Err(TimeExpired)
        else if ch.challenge.length > MAX_CERTIFICATE_LENGTH then Err(Unknown)
        else if ParseCert(ch.challenge).None? then Err(BadChallenge)
        else
          var body := ParseCert(ch.challenge).value.body;
          var text := ChallengeText(requestTime, ch.pubkey, Join(identities, ","));
          if body.keyId != Hex(Mac(text)) then Err(BadChallenge)
          else if lib.parseKey(ch.pubkey).None? then Err(BadChallenge)
          else
            var key := lib.parseKey(ch.pubkey).value;
            var accepted := Validated(key, identities, RefreshFor(srv, expiry, time));
            if !srv.requireProof then
              if body.signatureKey != srv.challengeKey then Err(BadChallenge) else Ok(accepted)
            else if body.key != body.signatureKey then Err(BadChallenge)
            else if body.key != key.name then Err(BadChallenge)
            else Ok(accepted)
  }

  /** A client certificate that can be read: it parses and each of its common names is a string. */
  ghost predicate Readable(peers: seq<PeerCert>) {
    peers != [] && peers[0].Peer? && forall i :: 0 <= i < |peers[0].commonNames| ==> peers[0].commonNames[i].Some?
  }

  /** The common names of a readable certificate, in order. */
  ghost predicate Names(peers: seq<PeerCert>, identities: seq<string>)
    requires Readable(peers)
  {
    && |identities| == |peers[0].commonNames|
    && forall i :: 0 <= i < |identities| ==> peers[0].commonNames[i] == Some(identities[i])
  }

  lemma {:induction false} StringsExactly(names: seq<Option<string>>)
    ensures Strings(names).Some? <==> forall i :: 0 <= i < |names| ==> names[i].Some?
    ensures Strings(names).Some? ==> |Strings(names).value| == |names|
    ensures Strings(names).Some? ==> forall i :: 0 <= i < |names| ==> names[i] == Some(Strings(names).value[i])
  {
    if names != [] {
      StringsExactly(names[1..]);
      assert forall i :: 0 < i < |names| ==> names[i] == names[1..][i - 1];
    }
  }

  lemma ReadableIsRead(peers: seq<PeerCert>)
    ensures peers != [] && CertificateInformation(peers[0]).Some? <==> Readable(peers)
    ensures Readable(peers) ==> Names(peers, CertificateInformation(peers[0]).value.identities)
  {
    if peers != [] && peers[0].Peer? {
      StringsExactly(peers[0].commonNames);
    }
  }

  /** When the server issues a challenge, and what it is: a certificate for the key asked about that verifies under the
      challenge key, names nobody, is valid at no time and carries the tag of this time, key text and caller. */
  lemma ChallengeIsInert(srv: Server, lib: Library, peers: seq<PeerCert>, pubkey: string, now: u64)
    ensures var response := IssueChallenge(srv, lib, peers, pubkey, now);
            && (response.Some? <==> Readable(peers) && |pubkey| <= 1024 && lib.parseKey(pubkey).Some?)
            && (response.Some? ==>
                  && response.value.time == Decimal(now)
                  && response.value.noSignatureRequired == !srv.requireProof
                  && response.value.challenge.Encoded?
                  && var cert := response.value.challenge.cert;
                  && Verifies(cert) && cert.body.signatureKey == srv.challengeKey
                  && cert.body.key == lib.parseKey(pubkey).value.name
                  && cert.body.certType == Host && cert.body.serial == 0xFEFE_FEFE_FEFE_FEFE
                  && cert.body.principals == [] && cert.body.criticalOptions == map[] == cert.body.extensions
                  && (forall time: u64 :: !ValidAt(cert.body, time))
                  && exists ids :: Names(peers, ids)
                       && cert.body.keyId == Hex(Mac(Decimal(now) + "-" + pubkey + "-" + Join(ids, ","))))
  {
    ReadableIsRead(peers);
    if Readable(peers) {
      assert Names(peers, CertificateInformation(peers[0]).value.identities);
    }
  }

  /** The conditions on the presented certificate itself. */
  ghost predicate Proves(srv: Server, body: CertBody, key: KeyName) {
    if srv.requireProof then body.key == body.signatureKey == key else body.signatureKey == srv.challengeKey
  }

  /** Exactly what `validate_request` accepts, and for whom. */
  lemma AcceptsExactlyWhen(srv: Server, lib: Library, peers: seq<PeerCert>, ch: Challenge, clock: Option<u64>)
    ensures var verdict := ValidateRequest(srv, lib, peers, ch, clock);
            && (verdict.Ok? <==>
                  && Readable(peers) && clock.Some? && ParseU64(ch.challengeTime).Some?
                  && var issued := ParseU64(ch.challengeTime).value;
                  && WrapSub(clock.value, issued) <= 5
                  && ch.challenge.Encoded? && ch.challenge.length <= 1024 && Verifies(ch.challenge.cert)
                  && lib.parseKey(ch.pubkey).Some?
                  && Proves(srv, ch.challenge.cert.body, lib.parseKey(ch.pubkey).value.name)
                  && exists ids :: Names(peers, ids)
                       && ch.challenge.cert.body.keyId
                          == Hex(Mac(Decimal(issued) + "-" + ch.pubkey + "-" + Join(ids, ","))))
            && (verdict.Ok? ==>
                  && Some(verdict.value.key) == lib.parseKey(ch.pubkey)
                  && Names(peers, verdict.value.identities)
                  && verdict.value.refresh == RefreshFor(srv, peers[0].notAfter, clock.value))
  {
    ReadableIsRead(peers);
    if Readable(peers) {
      var identities := CertificateInformation(peers[0]).value.identities;
      forall ids | Names(peers, ids) ensures ids == identities {
        assert forall i :: 0 <= i < |ids| ==> Some(ids[i]) == Some(identities[i]);
      }
    }
  }

  /** Which error a refusal gives. */
  lemma RefusalsSayWhy(srv: Server, lib: Library, peers: seq<PeerCert>, ch: Challenge, clock: Option<u64>)
    ensures var verdict := ValidateRequest(srv, lib, peers, ch, clock);
            var timed := clock.Some? && ParseU64(ch.challengeTime).Some?;
            && (verdict == Err(BadRequest) <==> peers == [])
            && (verdict == Err(NotAuthorized) <==> peers != [] && !Readable(peers))
            && (verdict == Err(TimeExpired) <==>
                  Readable(peers) && timed && WrapSub(clock.value, ParseU64(ch.challengeTime).value) > 5)
            && (verdict == Err(Unknown) <==>
                  && Readable(peers)
                  && (timed ==> WrapSub(clock.value, ParseU64(ch.challengeTime).value) <= 5
                                && ch.challenge.length > 1024))
            && verdict != Err(BadCertOptions)
  {
    ReadableIsRead(peers);
  }

  // ---------- the agent ----------

  /** What holds the agent's private key: a device slot that may fail to answer, or a key in memory. */
  datatype Signatory =
    | Yubikey(reconnects: bool, slot: Option<PublicKey>, signs: bool)
    | Direct(key: PublicKey, signs: bool)

  datatype RefreshError = DeviceError | SigningError | ServerChallengeNotForClientKey

  function PublicHalf(s: Signatory): Result<PublicKey, RefreshError> {
    match s
    case Yubikey(reconnects, slot, _) =>
      if !reconnects then Err(DeviceError)
      else if slot.None? then Err(SigningError)
      else Ok(slot.value)
    case Direct(key, _) => Ok(key)
  }

  /** What `complete_rustica_challenge` sends back for a server's response. */
  function Completed(lib: Library, s: Signatory, response: ChallengeResponse): Result<Challenge, RefreshError> {
    match PublicHalf(s)
    case Err(e) => Err(e)
    case Ok(key) =>
      if response.noSignatureRequired then
        Ok(Challenge(lib.printKey(key), response.time, response.challenge))
      else if ParseCert(response.challenge).None? then Err(SigningError)
      else
        var body := ParseCert(response.challenge).value.body;
        if body.key != key.name then Err(ServerChallengeNotForClientKey)
        else if !s.signs then Err(SigningError)
        else Ok(Challenge(lib.printKey(key), response.time,
                          PrintCert(lib, Sign(body.(signatureKey := body.key), key.name))))
  }

  /** The agent's half, step by step: the challenge certificate is re-addressed before its key is checked,
      and signed last. */
  method CompleteRusticaChallenge(lib: Library, s: Signatory, response: ChallengeResponse)
    returns (r: Result<Challenge, RefreshError>)
    ensures r == Completed(lib, s, response)
    ensures r.Ok? ==> r.value.pubkey == lib.printKey(PublicHalf(s).value) && r.value.challengeTime == response.time
    ensures response.noSignatureRequired && PublicHalf(s).Ok? ==> r.Ok? && r.value.challenge == response.challenge
    ensures r == Err(DeviceError) <==> s.Yubikey? && !s.reconnects
    ensures r == Err(ServerChallengeNotForClientKey) <==>
              && PublicHalf(s).Ok? && !response.noSignatureRequired
              && response.challenge.Encoded? && Verifies(response.challenge.cert)
              && response.challenge.cert.body.key != PublicHalf(s).value.name
    ensures r.Ok? && !response.noSignatureRequired
            ==> && r.value.challenge.Encoded? && Verifies(r.value.challenge.cert)
                && r.value.challenge.cert.body.key == r.value.challenge.cert.body.signatureKey
                   == PublicHalf(s).value.name
  {
    var key;
    match PublicHalf(s) {
      case Err(e) => return Err(e);
      case Ok(k) => key := k;
    }
    var encodedKey := lib.printKey(key);
    if response.noSignatureRequired {
      return Ok(Challenge(encodedKey, response.time, response.challenge));
    }
    var parsed := ParseCert(response.challenge);
    if parsed.None? {
      return Err(SigningError);
    }
    var certificate := parsed.value;
    certificate := certificate.(body := certificate.body.(signatureKey := certificate.body.key));
    if certificate.body.key != key.name {
      return Err(ServerChallengeNotForClientKey);
    }
    if !s.signs {
      return Err(SigningError);
    }
    certificate := Sign(certificate.body, key.name);
    return Ok(Challenge(encodedKey, response.time, PrintCert(lib, certificate)));
  }

  // ---------- the time window ----------

  /** What the wrapping comparison accepts: five seconds back, or the last five values below 2^64 ahead. */
  lemma WindowExactly(now: u64, request: u64)
    ensures WrapSub(now, request) <= WINDOW
       <==> (request <= now && now - request <= 5) || (now < request && U64_BOUND - 5 <= request - now)
  {
  }

  /** The window never reaches past the clock exactly when the clock is at least five. */
  lemma WindowIsPastIffClockPastFive(now: u64)
    ensures now >= WINDOW <==> forall request: u64 :: WrapSub(now, request) <= WINDOW ==> request <= now
  {
    if now < WINDOW {
      var request: u64 := U64_BOUND - WINDOW + now;
      assert WrapSub(now, request) <= WINDOW && request > now;
    }
  }

  // ---------- completeness of an honest agent ----------

  /** An honest agent's answer to the server's own challenge is accepted exactly when at most five seconds
      passed and the returned certificate text fits the limit, in both proof modes. */
  lemma HonestAgentIsComplete(srv: Server, lib: Library, peers: seq<PeerCert>, s: Signatory, issued: u64, now: u64)
    requires KeysReadBack(lib)
    requires peers != [] && CertificateInformation(peers[0]).Some?
    requires PublicHalf(s).Ok? && (srv.requireProof ==> s.signs)
    requires |lib.printKey(PublicHalf(s).value)| <= MAX_KEY_LENGTH
    ensures var pubkey := lib.printKey(PublicHalf(s).value);
            var response := IssueChallenge(srv, lib, peers, pubkey, issued);
            && response.Some?
            && var completed := Completed(lib, s, response.value);
            && completed.Ok?
            && var verdict := ValidateRequest(srv, lib, peers, completed.value, Some(now));
            && (verdict.Ok? <==>
                  WrapSub(now, issued) <= WINDOW && completed.value.challenge.length <= MAX_CERTIFICATE_LENGTH)
            && (verdict.Ok? ==> verdict.value.key.name == PublicHalf(s).value.name
                                && verdict.value.identities == CertificateInformation(peers[0]).value.identities)
  {
    ParseOfDecimal(issued);
  }
}
