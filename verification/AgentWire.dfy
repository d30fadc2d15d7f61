/** The SSH agent wire format: `uint32` and `string` of section 5 of RFC 4251, and the agent messages of
    sections 4.4 and 4.5 of draft-miller-ssh-agent-04. */
module AgentWire {
  import opened Wrappers
  import opened Words
  import opened SshModel

  type byte = b: int | 0 <= b < 256
  type bytes = seq<byte>

  // ---------- integers and frames ----------

  /** `n` in four bytes, most significant first. */
  function U32Bytes(n: nat): (b: bytes)
    requires n < U32_BOUND
    ensures |b| == 4
  {
    [n / 0x100_0000, n / 0x1_0000 % 256, n / 0x100 % 256, n % 256]
  }

  function U32Value(b: bytes): (n: nat)
    requires |b| == 4
    ensures n < U32_BOUND
  {
    b[0] as int * 0x100_0000 + b[1] as int * 0x1_0000 + b[2] as int * 0x100 + b[3] as int
  }

  lemma U32ReadsBack(n: nat)
    requires n < U32_BOUND
    ensures U32Value(U32Bytes(n)) == n
  {
    assert n / 0x100 / 256 == n / 0x1_0000;
    assert n / 0x1_0000 / 256 == n / 0x100_0000;
    assert n == n / 0x100 * 256 + n % 256;
  }

  /** And four bytes are those of the number they read as: the most significant comes first. */
  lemma U32WritesBack(b: bytes)
    requires |b| == 4
    ensures U32Bytes(U32Value(b)) == b
    ensures b[3] == U32Value(b) % 0x100 && b[0] == U32Value(b) / 0x100_0000
  {
    var n := U32Value(b);
    var high := b[0] as int * 0x1_0000 + b[1] as int * 0x100 + b[2] as int;
    assert n == high * 0x100 + b[3] as int;
    assert n / 0x100 == high;
    assert high == (b[0] as int * 0x100 + b[1] as int) * 0x100 + b[2] as int;
    assert high / 0x100 == b[0] as int * 0x100 + b[1] as int;
    assert n / 0x1_0000 == high / 0x100;
    assert n / 0x100_0000 == (high / 0x100) / 0x100;
  }

  /** The cast `len as u32`. */
  function AsU32(n: nat): (r: nat)
    ensures r < U32_BOUND
    ensures r == n <==> n < U32_BOUND
  {
    n % U32_BOUND
  }

  /** A length prefix and the bytes it counts. */
  function Frame(body: bytes): bytes {
    U32Bytes(AsU32(|body|)) + body
  }

  datatype Framed = Framed(body: bytes, rest: bytes)

  function ReadFrame(input: bytes): Option<Framed> {
    if |input| < 4 then None
    else
      var n := U32Value(input[..4]);
      if |input| < 4 + n then None else Some(Framed(input[4..4 + n], input[4 + n..]))
  }

  lemma PrefixCounts(prefix: bytes, body: bytes, rest: bytes)
    requires |prefix| == 4 && U32Value(prefix) <= |body|
    ensures var n := U32Value(prefix);
            ReadFrame(prefix + body + rest) == Some(Framed(body[..n], body[n..] + rest))
  {
    var n, input := U32Value(prefix), prefix + body + rest;
    assert input[..4] == prefix;
    assert input[4..4 + n] == body[..n];
    assert input[4 + n..] == body[n..] + rest;
  }

  /** A written frame is read back, and nothing beyond it consumed, exactly when its length fits 32 bits. */
  lemma FrameReadsBackIff(body: bytes, rest: bytes)
    ensures ReadFrame(Frame(body) + rest) == Some(Framed(body, rest)) <==> |body| < U32_BOUND
  {
    var n := AsU32(|body|);
    U32ReadsBack(n);
    PrefixCounts(U32Bytes(n), body, rest);
    if n == |body| {
      assert body[..n] == body && body[n..] + rest == rest;
    } else {
      assert |body[..n]| < |body|;
    }
  }

  /** What reads as a frame is one, and nothing else does. */
  lemma ReadsExactlyFrames(input: bytes, body: bytes, rest: bytes)
    ensures ReadFrame(input) == Some(Framed(body, rest)) <==> input == Frame(body) + rest && |body| < U32_BOUND
  {
    if ReadFrame(input) == Some(Framed(body, rest)) {
      U32WritesBack(input[..4]);
      assert U32Bytes(AsU32(|body|)) == input[..4];
      assert input == input[..4] + body + rest;
    } else {
      FrameReadsBackIff(body, rest);
    }
  }

  // ---------- responses ----------

  datatype Identity = Identity(keyBlob: bytes, keyComment: bytes)

  datatype Response =
    | Success
    | Failure
    | Identities(identities: seq<Identity>)
    | SignResponse(signature: bytes)

  function EncodeIdentities(ids: seq<Identity>): bytes {
    if ids == [] then []
    else Frame(ids[0].keyBlob) + Frame(ids[0].keyComment) + EncodeIdentities(ids[1..])
  }

  function EncodeResponse(r: Response): bytes {
    match r
    case Success => [6]
    case Failure => [5]
    case Identities(ids) => [12] + U32Bytes(AsU32(|ids|)) + EncodeIdentities(ids)
    case SignResponse(signature) => [14] + Frame(signature)
  }

  /** The message numbers and layouts of draft-miller-ssh-agent-04. */
  lemma ResponsesFollowTheDraft(ids: seq<Identity>, signature: bytes)
    ensures EncodeResponse(Failure) == [5] && EncodeResponse(Success) == [6]
    ensures EncodeResponse(SignResponse(signature)) == [14] + Frame(signature)
    ensures |ids| < U32_BOUND ==> EncodeResponse(Identities(ids)) == [12] + U32Bytes(|ids|) + EncodeIdentities(ids)
    ensures |ids| > 0 ==>
              EncodeIdentities(ids) == Frame(ids[0].keyBlob) + Frame(ids[0].keyComment) + EncodeIdentities(ids[1..])
  {
  }

  /** How a client reads `n` identities. */
  function DecodeIdentities(n: nat, input: bytes): Option<seq<Identity>> {
    if n == 0 then (if input == [] then Some([]) else None)
    else match ReadFrame(input)
      case None => None
      case Some(Framed(blob, r1)) =>
        match ReadFrame(r1)
        case None => None
        case Some(Framed(comment, r2)) =>
          match DecodeIdentities(n - 1, r2)
          case None => None
          case Some(rest) => Some([Identity(blob, comment)] + rest)
  }

  /** How a client reads a response. */
  function DecodeResponse(body: bytes): Option<Response> {
    if body == [6] then Some(Success)
    else if body == [5] then Some(Failure)
    else if |body| >= 5 && body[0] == 12 then
      match DecodeIdentities(U32Value(body[1..5]), body[5..])
      case None => None
      case Some(ids) => Some(Identities(ids))
    else if |body| >= 1 && body[0] == 14 then
      match ReadFrame(body[1..])
      case None => None
      case Some(Framed(signature, rest)) => if rest == [] then Some(SignResponse(signature)) else None
    else None
  }

  predicate IdentitiesFit(ids: seq<Identity>) {
    && |ids| < U32_BOUND
    && forall i :: 0 <= i < |ids| ==> |ids[i].keyBlob| < U32_BOUND && |ids[i].keyComment| < U32_BOUND
  }

  predicate Fits(r: Response) {
    && |EncodeResponse(r)| < U32_BOUND
    && (r.Identities? ==> IdentitiesFit(r.identities))
    && (r.SignResponse? ==> |r.signature| < U32_BOUND)
  }

  lemma {:induction false} IdentitiesReadBack(ids: seq<Identity>)
    requires forall i :: 0 <= i < |ids| ==> |ids[i].keyBlob| < U32_BOUND && |ids[i].keyComment| < U32_BOUND
    ensures DecodeIdentities(|ids|, EncodeIdentities(ids)) == Some(ids)
  {
    if ids != [] {
      var tail := EncodeIdentities(ids[1..]);
      IdentitiesReadBack(ids[1..]);
      IdentityReadsBack(ids[0], tail, ids[1..]);
      assert ids == [ids[0]] + ids[1..];
    }
  }

  lemma IdentityReadsBack(id: Identity, tail: bytes, ids: seq<Identity>)
    requires |id.keyBlob| < U32_BOUND && |id.keyComment| < U32_BOUND
    requires DecodeIdentities(|ids|, tail) == Some(ids)
    ensures DecodeIdentities(1 + |ids|, Frame(id.keyBlob) + Frame(id.keyComment) + tail) == Some([id] + ids)
  {
    Regroup(Frame(id.keyBlob), Frame(id.keyComment), tail);
    var r1 := Frame(id.keyComment) + tail;
    FrameReadsBackIff(id.keyBlob, r1);
    FrameReadsBackIff(id.keyComment, tail);
    DecodeIdentitiesStep(Frame(id.keyBlob) + r1, r1, tail, id, ids);
  }

  lemma DecodeIdentitiesStep(input: bytes, r1: bytes, r2: bytes, id: Identity, ids: seq<Identity>)
    requires ReadFrame(input) == Some(Framed(id.keyBlob, r1)) && ReadFrame(r1) == Some(Framed(id.keyComment, r2))
    requires DecodeIdentities(|ids|, r2) == Some(ids)
    ensures DecodeIdentities(1 + |ids|, input) == Some([id] + ids)
  {
  }

  lemma IdentitiesResponseReadsBack(ids: seq<Identity>)
    requires IdentitiesFit(ids)
    ensures DecodeResponse(EncodeResponse(Identities(ids))) == Some(Identities(ids))
  {
    var count := EncodedCount(ids);
    IdentitiesReadBack(ids);
    DecodeIdentitiesAnswer(count, EncodeIdentities(ids), ids);
  }

  lemma EncodedCount(ids: seq<Identity>) returns (count: bytes)
    requires |ids| < U32_BOUND
    ensures |count| == 4 && U32Value(count) == |ids|
    ensures EncodeResponse(Identities(ids)) == [12] + count + EncodeIdentities(ids)
  {
    count := U32Bytes(|ids|);
    U32ReadsBack(|ids|);
  }

  lemma DecodeIdentitiesAnswer(count: bytes, tail: bytes, ids: seq<Identity>)
    requires |count| == 4 && U32Value(count) == |ids| && DecodeIdentities(|ids|, tail) == Some(ids)
    ensures DecodeResponse([12] + count + tail) == Some(Identities(ids))
  {
    var body := [12] + count + tail;
    assert body[1..5] == count && body[5..] == tail;
  }

  lemma SignResponseReadsBack(signature: bytes)
    requires |signature| < U32_BOUND
    ensures DecodeResponse(EncodeResponse(SignResponse(signature))) == Some(SignResponse(signature))
  {
    var body := EncodeResponse(SignResponse(signature));
    FrameReadsBackIff(signature, []);
    assert body[1..] == Frame(signature) + [];
  }

  /** A client decodes every response to what was encoded: each blob and comment, in order. */
  lemma ResponseReadsBack(r: Response)
    requires Fits(r)
    ensures DecodeResponse(EncodeResponse(r)) == Some(r)
  {
    match r {
      case Success =>
      case Failure =>
      case Identities(ids) => IdentitiesResponseReadsBack(ids);
      case SignResponse(signature) => SignResponseReadsBack(signature);
    }
  }

  // ---------- streams of frames ----------

  function Frames(bodies: seq<bytes>): bytes {
    if bodies == [] then [] else Frame(bodies[0]) + Frames(bodies[1..])
  }

  /** The complete frames of a stream, in order. */
  function Split(input: bytes): seq<bytes>
    decreases |input|
  {
    match ReadFrame(input)
    case None => []
    case Some(Framed(body, rest)) => [body] + Split(rest)
  }

  /** Frames written back to back split into exactly those frames. */
  lemma {:induction false} FramesSplit(bodies: seq<bytes>, rest: bytes)
    requires forall i :: 0 <= i < |bodies| ==> |bodies[i]| < U32_BOUND
    ensures Split(Frames(bodies) + rest) == bodies + Split(rest)
  {
    if bodies == [] {
      assert Frames(bodies) + rest == rest;
    } else {
      FramesSplit(bodies[1..], rest);
      SplitOne(bodies[0], Frames(bodies[1..]) + rest);
      Regroup(Frame(bodies[0]), Frames(bodies[1..]), rest);
      Regroup([bodies[0]], bodies[1..], Split(rest));
      assert bodies == [bodies[0]] + bodies[1..];
    }
  }

  lemma Regroup<T>(a: seq<T>, b: seq<T>, c: seq<T>)
    ensures a + b + c == a + (b + c)
  {
  }

  lemma SplitOne(body: bytes, rest: bytes)
    requires |body| < U32_BOUND
    ensures Split(Frame(body) + rest) == [body] + Split(rest)
  {
    FrameReadsBackIff(body, rest);
  }

  function Bodies(rs: seq<Response>): seq<bytes> {
    seq(|rs|, i requires 0 <= i < |rs| => EncodeResponse(rs[i]))
  }

  /** Any responses, written back to back, are what a client splits and decodes. */
  lemma ResponsesReadBack(rs: seq<Response>)
    requires forall i :: 0 <= i < |rs| ==> Fits(rs[i])
    ensures var received := Split(Frames(Bodies(rs)));
            |received| == |rs| && forall i :: 0 <= i < |rs| ==> DecodeResponse(received[i]) == Some(rs[i])
  {
    FramesSplit(Bodies(rs), []);
    assert Frames(Bodies(rs)) + [] == Frames(Bodies(rs));
    assert Bodies(rs) + Split([]) == Bodies(rs);
    forall i | 0 <= i < |rs| ensures DecodeResponse(Bodies(rs)[i]) == Some(rs[i]) {
      ResponseReadsBack(rs[i]);
    }
  }

  // ---------- requests ----------

  datatype Request =
    | ListIdentities
    | Sign(pubkeyBlob: bytes, data: bytes, flags: nat)
    | AddIdentity(privateKey: PrivateKey)
    | Unknown

  datatype MessageKind =
    | KindIdentities | KindSign | KindAddIdentity | KindRemoveIdentity | KindRemoveAllIdentities | KindAddIdConstrained
    | KindAddSmartcardKey | KindRemoveSmartcardKey | KindLock | KindUnlock | KindAddSmartcardKeyConstrained
    | KindExtension | KindUnknown

  function FromU8(value: byte): MessageKind {
    match value
    case 11 => KindIdentities
    case 13 => KindSign
    case 17 => KindAddIdentity
    case 18 => KindRemoveIdentity
    case 19 => KindRemoveAllIdentities
    case 25 => KindAddIdConstrained
    case 20 => KindAddSmartcardKey
    case 21 => KindRemoveSmartcardKey
    case 22 => KindLock
    case 23 => KindUnlock
    case 26 => KindAddSmartcardKeyConstrained
    case 27 => KindExtension
    case _ => KindUnknown
  }

  /** `PrivateKey::from_bytes`, uninterpreted. */
  type KeyParser = bytes -> Option<PrivateKey>

  function DecodeSign(body: bytes): Option<Request> {
    match ReadFrame(body)
    case None => None
    case Some(Framed(blob, r1)) =>
      match ReadFrame(r1)
      case None => None
      case Some(Framed(data, r2)) => if |r2| < 4 then None else Some(Sign(blob, data, U32Value(r2[..4])))
  }

  /** What one frame asks for; `None` where reading it fails. */
  function DecodeRequest(parse: KeyParser, body: bytes): Option<Request> {
    if body == [] then None
    else match FromU8(body[0])
      case KindIdentities => Some(ListIdentities)
      case KindSign => DecodeSign(body[1..])
      case KindAddIdentity =>
        (match parse(body[1..]) case Some(key) => Some(AddIdentity(key)) case None => Some(Unknown))
      case _ => Some(Unknown)
  }

  /** What the message numbers of draft-miller-ssh-agent-04 ask for: 11 for a listing, 17 to add a key, 13 for a
      signature; the empty message is an error and anything else unknown. */
  lemma NumbersFollowTheDraft(parse: KeyParser, number: byte, rest: bytes)
    ensures DecodeRequest(parse, []).None?
    ensures DecodeRequest(parse, [number] + rest)
         == if number == 11 then Some(ListIdentities)
            else if number == 13 then DecodeSign(rest)
            else if number == 17 && parse(rest).Some? then Some(AddIdentity(parse(rest).value))
            else Some(Unknown)
  {
    assert ([number] + rest)[1..] == rest;
  }

  /** Exactly the encodings of a sign request decode to it. */
  lemma SignDecodesExactly(body: bytes, blob: bytes, data: bytes, flags: nat)
    ensures DecodeSign(body) == Some(Sign(blob, data, flags))
       <==> && |blob| < U32_BOUND && |data| < U32_BOUND && flags < U32_BOUND
            && exists extra :: body == Frame(blob) + (Frame(data) + (U32Bytes(flags) + extra))
  {
    if DecodeSign(body) == Some(Sign(blob, data, flags)) {
      var r1 := ReadFrame(body).value.rest;
      var r2 := ReadFrame(r1).value.rest;
      ReadsExactlyFrames(body, blob, r1);
      ReadsExactlyFrames(r1, data, r2);
      U32WritesBack(r2[..4]);
      assert r2 == U32Bytes(flags) + r2[4..];
    } else if |blob| < U32_BOUND && |data| < U32_BOUND && flags < U32_BOUND {
      forall extra ensures body != Frame(blob) + (Frame(data) + (U32Bytes(flags) + extra)) {
        var r1 := Frame(data) + (U32Bytes(flags) + extra);
        FrameReadsBackIff(blob, r1);
        FrameReadsBackIff(data, U32Bytes(flags) + extra);
        U32ReadsBack(flags);
        DecodeSignFields(Frame(blob) + r1, r1, U32Bytes(flags), extra, blob, data);
      }
    }
  }

  /** An encoded sign request decodes to its fields; bytes after them are ignored. */
  lemma SignRequestReadsBack(parse: KeyParser, blob: bytes, data: bytes, flags: nat, extra: bytes)
    requires |blob| < U32_BOUND && |data| < U32_BOUND && flags < U32_BOUND
    ensures DecodeRequest(parse, [13] + Frame(blob) + Frame(data) + U32Bytes(flags) + extra)
         == Some(Sign(blob, data, flags))
  {
    var head, r2 := [13] + Frame(blob), U32Bytes(flags) + extra;
    var r1 := Frame(data) + r2;
    Regroup(head + Frame(data), U32Bytes(flags), extra);
    Regroup(head, Frame(data), r2);
    Regroup([13], Frame(blob), r1);
    FrameReadsBackIff(blob, r1);
    FrameReadsBackIff(data, r2);
    U32ReadsBack(flags);
    DecodeSignFields(Frame(blob) + r1, r1, U32Bytes(flags), extra, blob, data);
    assert ([13] + (Frame(blob) + r1))[1..] == Frame(blob) + r1;
  }

  lemma DecodeSignFields(body: bytes, r1: bytes, flags: bytes, extra: bytes, blob: bytes, data: bytes)
    requires |flags| == 4
    requires ReadFrame(body) == Some(Framed(blob, r1)) && ReadFrame(r1) == Some(Framed(data, flags + extra))
    ensures DecodeSign(body) == Some(Sign(blob, data, U32Value(flags)))
  {
    assert (flags + extra)[..4] == flags;
  }

  // ---------- the readers and writers ----------

  /** A byte source: a connection, or the slice of a message already read. */
  class Reader {
    var rest: bytes

    constructor (rest: bytes)
      ensures this.rest == rest
    {
      this.rest := rest;
    }

    method ReadU8() returns (r: Option<byte>)
      modifies this
      ensures old(rest) == [] ==> r == None && rest == []
      ensures old(rest) != [] ==> r == Some(old(rest)[0]) && rest == old(rest)[1..]
    {
      if rest == [] {
        return None;
      }
      r := Some(rest[0]);
      rest := rest[1..];
    }

    method ReadU32() returns (r: Option<nat>)
      modifies this
      ensures |old(rest)| < 4 ==> r == None && rest == []
      ensures |old(rest)| >= 4 ==> r == Some(U32Value(old(rest)[..4])) && rest == old(rest)[4..]
    {
      if |rest| < 4 {
        rest := [];
        return None;
      }
      r := Some(U32Value(rest[..4]));
      rest := rest[4..];
    }

    method ReadExact(n: nat) returns (r: Option<bytes>)
      modifies this
      ensures |old(rest)| < n ==> r == None && rest == []
      ensures |old(rest)| >= n ==> r == Some(old(rest)[..n]) && rest == old(rest)[n..]
    {
      if |rest| < n {
        rest := [];
        return None;
      }
      r := Some(rest[..n]);
      rest := rest[n..];
    }

    /** `read_message` consumes exactly one frame, or fails with nothing left. */
    method ReadMessage() returns (r: Option<bytes>)
      modifies this
      ensures match ReadFrame(old(rest))
              case None => r == None && rest == []
              case Some(Framed(body, after)) => r == Some(body) && rest == after
    {
      var n := ReadU32();
      if n.None? {
        return None;
      }
      r := ReadExact(n.value);
      assert |old(rest)| >= 4 + n.value ==>
        old(rest)[4..][..n.value] == old(rest)[4..4 + n.value] && old(rest)[4..][n.value..] == old(rest)[4 + n.value..];
    }

    /** `Request::read`. */
    method ReadRequest(parse: KeyParser) returns (r: Option<Request>)
      modifies this
      ensures match ReadFrame(old(rest))
              case None => r == None && rest == []
              case Some(Framed(body, after)) => r == DecodeRequest(parse, body) && rest == after
    {
      var message := ReadMessage();
      if message.None? {
        return None;
      }
      var buf := new Reader(message.value);
      var kind := buf.ReadU8();
      if kind.None? {
        return None;
      }
      match FromU8(kind.value) {
        case KindIdentities =>
          return Some(ListIdentities);
        case KindSign =>
          var blob := buf.ReadMessage();
          if blob.None? {
            return None;
          }
          var data := buf.ReadMessage();
          if data.None? {
            return None;
          }
          var flags := buf.ReadU32();
          if flags.None? {
            return None;
          }
          return Some(Sign(blob.value, data.value, flags.value));
        case KindAddIdentity =>
          match parse(buf.rest) {
            case Some(key) => return Some(AddIdentity(key));
            case None => return Some(Unknown);
          }
        case _ =>
          return Some(Unknown);
      }
    }
  }

  class Writer {
    var written: bytes

    constructor ()
      ensures written == []
    {
      written := [];
    }

    /** `write_message`. */
    method WriteMessage(body: bytes)
      modifies this
      ensures written == old(written) + Frame(body)
    {
      written := written + U32Bytes(AsU32(|body|));
      written := written + body;
    }

    method WriteIdentities(ids: seq<Identity>)
      modifies this
      ensures written == old(written) + EncodeIdentities(ids)
    {
      for i := 0 to |ids|
        invariant written + EncodeIdentities(ids[i..]) == old(written) + EncodeIdentities(ids)
      {
        ghost var before := written;
        WriteMessage(ids[i].keyBlob);
        WriteMessage(ids[i].keyComment);
        assert ids[i..][1..] == ids[i + 1..];
        ghost var blob, comment := Frame(ids[i].keyBlob), Frame(ids[i].keyComment);
        ghost var tail := EncodeIdentities(ids[i + 1..]);
        Regroup(before, blob, comment);
        Regroup(before, blob + comment, tail);
      }
      assert ids[|ids|..] == [];
    }

    /** `Response::write`: the message is built in a buffer, then framed onto the stream. */
    method WriteResponse(r: Response)
      modifies this
      ensures written == old(written) + Frame(EncodeResponse(r))
    {
      var buf := new Writer();
      match r {
        case Success =>
          buf.written := [6];
        case Failure =>
          buf.written := [5];
        case Identities(ids) =>
          buf.written := [12] + U32Bytes(AsU32(|ids|));
          buf.WriteIdentities(ids);
        case SignResponse(signature) =>
          buf.written := [14];
          buf.WriteMessage(signature);
      }
      WriteMessage(buf.written);
    }
  }
}
