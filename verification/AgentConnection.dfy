/** One client connection of the agent: read a request, handle it, write the response, until the first error. */
module AgentConnection {
  import opened Wrappers
  import opened Words
  import opened AgentWire

  /** A request handler: from a state and a request to the next state and a response, or an error. */
  type Handler<!H> = (H, Request) -> (H, Option<Response>)

  datatype Session<H> = Session(responses: seq<Response>, state: H)

  /** What the connection loop does with a whole input. */
  function Serve<H>(parse: KeyParser, handle: Handler<H>, h: H, input: bytes): Session<H>
    decreases |input|
  {
    match ReadFrame(input)
    case None => Session([], h)
    case Some(Framed(body, rest)) =>
      match DecodeRequest(parse, body)
      case None => Session([], h)
      case Some(request) =>
        var (h', response) := handle(h, request);
        match response
        case None => Session([], h')
        case Some(r) =>
          var later := Serve(parse, handle, h', rest);
          Session([r] + later.responses, later.state)
  }

  /** `handle_client`. */
  method HandleClient<H>(parse: KeyParser, handle: Handler<H>, h: H, incoming: Reader, outgoing: Writer)
    returns (end: H)
    modifies incoming, outgoing
    ensures var session := Serve(parse, handle, h, old(incoming.rest));
            end == session.state && outgoing.written == old(outgoing.written) + Frames(Bodies(session.responses))
  {
    end := h;
    ghost var whole := Serve(parse, handle, h, incoming.rest);
    ghost var done: seq<Response> := [];
    assert Bodies(done) == [];
    while true
      invariant outgoing.written == old(outgoing.written) + Frames(Bodies(done))
      invariant var later := Serve(parse, handle, end, incoming.rest);
                whole == Session(done + later.responses, later.state)
      decreases |incoming.rest|
    {
      ghost var input := incoming.rest;
      ghost var later := Serve(parse, handle, end, input);
      var request := incoming.ReadRequest(parse);
      if request.None? {
        assert later.responses == [] && done + [] == done;
        return;
      }
      var (next, response) := handle(end, request.value);
      end := next;
      if response.None? {
        assert later.responses == [] && done + [] == done;
        return;
      }
      outgoing.WriteResponse(response.value);
      OneMoreBody(done, response.value);
      Regroup(old(outgoing.written), Frames(Bodies(done)), Frame(EncodeResponse(response.value)));
      Regroup(done, [response.value], Serve(parse, handle, end, incoming.rest).responses);
      done := done + [response.value];
    }
  }

  lemma OneMoreBody(rs: seq<Response>, r: Response)
    ensures Frames(Bodies(rs + [r])) == Frames(Bodies(rs)) + Frame(EncodeResponse(r))
  {
    assert Bodies(rs + [r]) == Bodies(rs) + [EncodeResponse(r)];
    OneMoreFrame(Bodies(rs), EncodeResponse(r));
  }

  lemma {:induction false} OneMoreFrame(bodies: seq<bytes>, body: bytes)
    ensures Frames(bodies + [body]) == Frames(bodies) + Frame(body)
  {
    if bodies == [] {
      assert bodies + [body] == [body] && [body][1..] == [];
    } else {
      assert (bodies + [body])[1..] == bodies[1..] + [body];
      OneMoreFrame(bodies[1..], body);
      Regroup(Frame(bodies[0]), Frames(bodies[1..]), Frame(body));
    }
  }

  // ---------- what the loop means ----------

  /** The answers to a list of messages, in order, up to the first that cannot be read or handled. */
  function Answers<H>(parse: KeyParser, handle: Handler<H>, h: H, messages: seq<bytes>): Session<H> {
    if messages == [] || DecodeRequest(parse, messages[0]).None? then Session([], h)
    else
      var (h', response) := handle(h, DecodeRequest(parse, messages[0]).value);
      if response.None? then Session([], h')
      else
        var later := Answers(parse, handle, h', messages[1..]);
        Session([response.value] + later.responses, later.state)
  }

  /** On every input, the connection answers exactly the complete frames of that input, in order. */
  lemma {:induction false} ServesItsFrames<H>(parse: KeyParser, handle: Handler<H>, h: H, input: bytes)
    ensures Serve(parse, handle, h, input) == Answers(parse, handle, h, Split(input))
    decreases |input|
  {
    match ReadFrame(input) {
      case None =>
      case Some(Framed(body, rest)) =>
        assert Split(input)[0] == body && Split(input)[1..] == Split(rest);
        if DecodeRequest(parse, body).Some? {
          ServesItsFrames(parse, handle, handle(h, DecodeRequest(parse, body).value).0, rest);
        }
    }
  }

  /** The handler state in which message `i` is handled. */
  function StateBefore<H>(parse: KeyParser, handle: Handler<H>, h: H, messages: seq<bytes>, i: nat): H
    requires i <= |messages|
  {
    if i == 0 || DecodeRequest(parse, messages[0]).None? then h
    else StateBefore(parse, handle, handle(h, DecodeRequest(parse, messages[0]).value).0, messages[1..], i - 1)
  }

  /** The handler's answer to message `i`, in the state that the messages before it left. */
  function AnswerTo<H>(parse: KeyParser, handle: Handler<H>, h: H, messages: seq<bytes>, i: nat): Option<Response>
    requires i < |messages| && DecodeRequest(parse, messages[i]).Some?
  {
    handle(StateBefore(parse, handle, h, messages, i), DecodeRequest(parse, messages[i]).value).1
  }

  /** The i-th response is the handler's answer to the i-th message, and the responses stop only at a message
      that cannot be read or that the handler fails on. */
  lemma {:induction false} AnswersInOrder<H>(parse: KeyParser, handle: Handler<H>, h: H, messages: seq<bytes>)
    ensures var rs := Answers(parse, handle, h, messages).responses;
            && |rs| <= |messages|
            && (forall i :: 0 <= i < |rs| ==>
                  && DecodeRequest(parse, messages[i]).Some?
                  && AnswerTo(parse, handle, h, messages, i) == Some(rs[i]))
            && (|rs| < |messages| ==>
                  || DecodeRequest(parse, messages[|rs|]).None?
                  || AnswerTo(parse, handle, h, messages, |rs|).None?)
  {
    if messages != [] && DecodeRequest(parse, messages[0]).Some? {
      var (h', response) := handle(h, DecodeRequest(parse, messages[0]).value);
      if response.Some? {
        AnswersInOrder(parse, handle, h', messages[1..]);
        var rs := Answers(parse, handle, h, messages).responses;
        var later := Answers(parse, handle, h', messages[1..]).responses;
        forall i | 0 <= i < |rs|
          ensures DecodeRequest(parse, messages[i]).Some?
          ensures AnswerTo(parse, handle, h, messages, i) == Some(rs[i])
        {
          if i > 0 {
            assert rs[i] == later[i - 1] && messages[i] == messages[1..][i - 1];
          }
        }
      }
    }
  }

  /** Bytes that arrive later never change what was answered before. */
  lemma {:induction false} EarlierAnswersStand<H>(parse: KeyParser, handle: Handler<H>, h: H, input: bytes, more: bytes)
    ensures Serve(parse, handle, h, input).responses <= Serve(parse, handle, h, input + more).responses
    decreases |input|
  {
    match ReadFrame(input) {
      case None =>
      case Some(Framed(body, rest)) =>
        ReadFrameExtends(input, more);
        if DecodeRequest(parse, body).Some? {
          EarlierAnswersStand(parse, handle, handle(h, DecodeRequest(parse, body).value).0, rest, more);
        }
    }
  }

  lemma ReadFrameExtends(input: bytes, more: bytes)
    requires ReadFrame(input).Some?
    ensures ReadFrame(input + more) == Some(Framed(ReadFrame(input).value.body, ReadFrame(input).value.rest + more))
  {
    var n := U32Value(input[..4]);
    assert (input + more)[..4] == input[..4];
    assert (input + more)[4..4 + n] == input[4..4 + n];
    assert (input + more)[4 + n..] == input[4 + n..] + more;
  }

  /** End to end: a client that sends messages and reads the connection's output gets each answer, in order. */
  lemma ClientGetsAnswers<H>(parse: KeyParser, handle: Handler<H>, h: H, messages: seq<bytes>)
    requires forall i :: 0 <= i < |messages| ==> |messages[i]| < U32_BOUND
    requires var rs := Answers(parse, handle, h, messages).responses; forall i :: 0 <= i < |rs| ==> Fits(rs[i])
    ensures var rs := Answers(parse, handle, h, messages).responses;
            var received := Split(Frames(Bodies(Serve(parse, handle, h, Frames(messages)).responses)));
            |received| == |rs| && forall i :: 0 <= i < |rs| ==> DecodeResponse(received[i]) == Some(rs[i])
  {
    FramesSplit(messages, []);
    assert Frames(messages) + [] == Frames(messages);
    assert messages + Split([]) == messages;
    ServesItsFrames(parse, handle, h, Frames(messages));
    ResponsesReadBack(Answers(parse, handle, h, messages).responses);
  }
}
