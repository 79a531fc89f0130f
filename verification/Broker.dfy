/**
 The privilege broker's framed protocol and serve loop, crates/vmcell-broker/src/lib.rs: a u32
 big-endian length, then the payload; one reply frame per request until Shutdown or end of stream.
 */
module Broker {
  import opened Basics

  datatype IoError = InvalidData | UnexpectedEof

  datatype Io<+T> = Ok(value: T) | Err(kind: IoError)

  const MAX_BROKER_FRAME_BYTES: nat := 0x10_0000

  // ---------------------------------------------------------------------------------------------
  // Frames
  // ---------------------------------------------------------------------------------------------

  function BigEndian(n: nat): (b: seq<Byte>)
    requires n < 0x1_0000_0000
    ensures |b| == 4
  {
    [n / 0x100_0000, n / 0x1_0000 % 256, n / 0x100 % 256, n % 256]
  }

  function FromBigEndian(b: seq<Byte>): (n: nat)
    requires |b| == 4
  {
    b[0] as int * 0x100_0000 + b[1] as int * 0x1_0000 + b[2] as int * 0x100 + b[3] as int
  }

  /** The number octets stand for with the most significant first. */
  function Positional(b: seq<Byte>): nat {
    if b == [] then 0 else 256 * Positional(b[..|b| - 1]) + b[|b| - 1] as int
  }

  /** Reading a length back yields the length written; on the wire the most significant octet comes first. */
  lemma BigEndianRoundTrip(n: nat)
    requires n < 0x1_0000_0000
    ensures FromBigEndian(BigEndian(n)) == n && Positional(BigEndian(n)) == n
  {
    var a, b, c := n / 0x100, n / 0x1_0000, n / 0x100_0000;
    assert b == a / 256 && c == b / 256;
    FourOctets(BigEndian(n));
  }

  lemma FourOctets(b: seq<Byte>)
    requires |b| == 4
    ensures FromBigEndian(b) == Positional(b)
  {
    assert b[..3][..2] == b[..2] && b[..2][..1] == b[..1] && b[..1][..0] == [];
    assert Positional([]) == 0;
    assert Positional(b[..1]) == b[0] as int;
    assert Positional(b[..2]) == 256 * b[0] as int + b[1] as int;
  }

  /** The octets of one frame, or None for a payload over the cap. */
  function Framed(payload: seq<Byte>): Option<seq<Byte>> {
    if |payload| <= MAX_BROKER_FRAME_BYTES then Some(BigEndian(|payload|) + payload) else None
  }

  /** What a reader makes of the octets of a stream that then ends. */
  datatype Received =
    | Frame(payload: seq<Byte>, rest: seq<Byte>)
    | OverCap(rest: seq<Byte>)
    | Ended

  function Receive(stream: seq<Byte>): (r: Received)
    ensures r.Frame? ==> |r.rest| < |stream|
  {
    if |stream| < 4 then Ended
    else
      var len := FromBigEndian(stream[..4]);
      if len > MAX_BROKER_FRAME_BYTES then OverCap(stream[4..])
      else if |stream| < 4 + len then Ended
      else Frame(stream[4..4 + len], stream[4 + len..])
  }

  // ---------------------------------------------------------------------------------------------
  // The service and its meaning on a whole stream
  // ---------------------------------------------------------------------------------------------

  /** The codec and the request handler; a reply that cannot be serialized encodes to None. */
  datatype Service<!Request, !Reply, !State> = Service(
    decode: seq<Byte> -> Option<Request>,
    encode: Reply -> Option<seq<Byte>>,
    isShutdown: Request -> bool,
    dispatch: (State, Request) -> (State, Reply))

  /** A served stream: how it ended, the final state, the requests handled, the octets written. */
  datatype Served<Request, State> = Served(result: Io<()>, state: State, handled: seq<Request>, written: seq<Byte>)

  function ReplyFrame<Request, Reply, State>(svc: Service<Request, Reply, State>, reply: Reply): Option<seq<Byte>> {
    match svc.encode(reply)
    case None => None
    case Some(payload) => Framed(payload)
  }

  /** One turn of the loop: it stops here, or one request was answered and the rest remains. */
  datatype Turn<Request, State> =
    | Stop(served: Served<Request, State>)
    | Next(state: State, request: Request, frame: seq<Byte>, rest: seq<Byte>)

  function TurnOn<Request, Reply, State>(svc: Service<Request, Reply, State>, state: State, stream: seq<Byte>)
    : (t: Turn<Request, State>)
    ensures t.Next? ==> |t.rest| < |stream|
  {
    match Receive(stream)
    case Ended => Stop(Served(Ok(()), state, [], []))
    case OverCap(_) => Stop(Served(Err(InvalidData), state, [], []))
    case Frame(payload, rest) =>
      match svc.decode(payload)
      case None => Stop(Served(Err(InvalidData), state, [], []))
      case Some(request) =>
        var (next, reply) := svc.dispatch(state, request);
        match ReplyFrame(svc, reply)
        case None => Stop(Served(Err(InvalidData), next, [request], []))
        case Some(frame) =>
          if svc.isShutdown(request) then Stop(Served(Ok(()), next, [request], frame))
          else Next(next, request, frame, rest)
  }

  function ServeStream<Request, Reply, State>(svc: Service<Request, Reply, State>, state: State, stream: seq<Byte>)
    : Served<Request, State>
    decreases |stream|
  {
    match TurnOn(svc, state, stream)
    case Stop(served) => served
    case Next(next, request, frame, rest) => Continued([request], frame, ServeStream(svc, next, rest))
  }

  function Continued<Request, State>(done: seq<Request>, sent: seq<Byte>, more: Served<Request, State>): Served<Request, State> {
    Served(more.result, more.state, done + more.handled, sent + more.written)
  }

  // ---------------------------------------------------------------------------------------------
  // The program
  // ---------------------------------------------------------------------------------------------

  class Socket {
    var inbound: seq<Byte>
    var outbound: seq<Byte>

    method ReadExact(n: nat) returns (r: Io<seq<Byte>>)
      modifies this`inbound
      ensures n <= |old(inbound)| ==> r == Ok(old(inbound)[..n]) && inbound == old(inbound)[n..]
      ensures n > |old(inbound)| ==> r == Err(UnexpectedEof) && inbound == []
    {
      if n > |inbound| {
        inbound := [];
        return Err(UnexpectedEof);
      }
      r := Ok(inbound[..n]);
      inbound := inbound[n..];
    }

    method WriteAll(bytes: seq<Byte>)
      modifies this`outbound
      ensures outbound == old(outbound) + bytes
    {
      outbound := outbound + bytes;
    }

    /** Rejects an over-cap payload before anything is written. */
    method WriteFrame(payload: seq<Byte>) returns (r: Io<()>)
      modifies this`outbound
      ensures match Framed(payload)
              case None => r == Err(InvalidData) && outbound == old(outbound)
              case Some(frame) => r == Ok(()) && outbound == old(outbound) + frame
      ensures r == Ok(()) <==> |payload| <= 1024 * 1024
    {
      if |payload| > MAX_BROKER_FRAME_BYTES {
        return Err(InvalidData);
      }
      WriteAll(BigEndian(|payload|));
      WriteAll(payload);
      r := Ok(());
    }

    /** Rejects an over-cap length having consumed only the four length octets. */
    method ReadFrame() returns (r: Io<seq<Byte>>)
      modifies this`inbound
      ensures match Receive(old(inbound))
              case Ended => r == Err(UnexpectedEof) && inbound == []
              case OverCap(rest) => r == Err(InvalidData) && inbound == rest
              case Frame(payload, rest) => r == Ok(payload) && inbound == rest
    {
      var prefix := ReadExact(4);
      if prefix.Err? {
        return Err(prefix.kind);
      }
      var len := FromBigEndian(prefix.value);
      if len > MAX_BROKER_FRAME_BYTES {
        return Err(InvalidData);
      }
      ghost var stream := old(inbound);
      if 4 + len <= |stream| {
        assert stream[4..][..len] == stream[4..4 + len] && stream[4..][len..] == stream[4 + len..];
      }
      r := ReadExact(len);
    }
  }

  class Server<Request, Reply, State> {
    const svc: Service<Request, Reply, State>
    var state: State
    var handled: seq<Request>

    constructor (svc: Service<Request, Reply, State>, state: State)
      ensures this.svc == svc && this.state == state && handled == []
    {
      this.svc := svc;
      this.state := state;
      handled := [];
    }

    method Dispatch(request: Request) returns (reply: Reply)
      modifies this
      ensures (state, reply) == svc.dispatch(old(state), request)
      ensures handled == old(handled) + [request]
    {
      var (next, answer) := svc.dispatch(state, request);
      state := next;
      handled := handled + [request];
      reply := answer;
    }

    /** One turn; `r` is how the loop ends here, or None when it goes on. */
    method ServeOne(sock: Socket) returns (r: Option<Io<()>>)
      modifies this, sock
      ensures match TurnOn(svc, old(state), old(sock.inbound))
              case Stop(served) =>
                && r == Some(served.result) && state == served.state
                && handled == old(handled) + served.handled && sock.outbound == old(sock.outbound) + served.written
              case Next(next, request, frame, rest) =>
                && r == None && state == next && sock.inbound == rest
                && handled == old(handled) + [request] && sock.outbound == old(sock.outbound) + frame
    {
      var frame := sock.ReadFrame();
      if frame.Err? {
        if frame.kind == UnexpectedEof {
          return Some(Ok(()));
        }
        return Some(Err(frame.kind));
      }
      var request := svc.decode(frame.value);
      if request.None? {
        return Some(Err(InvalidData));
      }
      var shutdown := svc.isShutdown(request.value);
      var reply := Dispatch(request.value);
      var sent := SendMsg(sock, reply);
      if sent.Err? {
        return Some(Err(sent.kind));
      }
      if shutdown {
        return Some(Ok(()));
      }
      r := None;
    }

    method Serve(sock: Socket) returns (r: Io<()>)
      modifies this, sock
      ensures var served := ServeStream(svc, old(state), old(sock.inbound));
              && r == served.result && state == served.state
              && handled == old(handled) + served.handled
              && sock.outbound == old(sock.outbound) + served.written
    {
      hide TurnOn;
      ghost var whole := ServeStream(svc, state, sock.inbound);
      ghost var done: seq<Request>, sent: seq<Byte> := [], [];
      ContinueNothing(whole);
      while true
        invariant handled == old(handled) + done && sock.outbound == old(sock.outbound) + sent
        invariant whole == Continued(done, sent, ServeStream(svc, state, sock.inbound))
        decreases |sock.inbound|
      {
        ghost var turn := TurnOn(svc, state, sock.inbound);
        var outcome := ServeOne(sock);
        if outcome.Some? {
          return outcome.value;
        }
        ContinueOne(done, sent, [turn.request], turn.frame, ServeStream(svc, state, sock.inbound));
        done, sent := done + [turn.request], sent + turn.frame;
      }
    }

    method SendMsg(sock: Socket, reply: Reply) returns (r: Io<()>)
      modifies sock`outbound
      ensures match ReplyFrame(svc, reply)
              case None => r == Err(InvalidData) && sock.outbound == old(sock.outbound)
              case Some(frame) => r == Ok(()) && sock.outbound == old(sock.outbound) + frame
    {
      var bytes := svc.encode(reply);
      if bytes == None {
        return Err(InvalidData);
      }
      r := sock.WriteFrame(bytes.value);
    }
  }

  lemma ContinueNothing<Request, State>(more: Served<Request, State>)
    ensures Continued([], [], more) == more
  {
    assert [] + more.handled == more.handled && [] + more.written == more.written;
  }

  lemma ContinueOne<Request, State>(done: seq<Request>, sent: seq<Byte>, also: seq<Request>, frame: seq<Byte>,
                                    more: Served<Request, State>)
    ensures Continued(done, sent, Continued(also, frame, more)) == Continued(done + also, sent + frame, more)
  {
    assert done + (also + more.handled) == done + also + more.handled;
    assert sent + (frame + more.written) == sent + frame + more.written;
  }

  // ---------------------------------------------------------------------------------------------
  // Framing laws
  // ---------------------------------------------------------------------------------------------

  /** A frame in front of anything is read back whole, and the rest is left untouched. */
  lemma ReceiveFramed(payload: seq<Byte>, rest: seq<Byte>)
    requires Framed(payload).Some?
    ensures Receive(Framed(payload).value + rest) == Frame(payload, rest)
  {
    BigEndianRoundTrip(|payload|);
    hide BigEndian, FromBigEndian;
    var stream := Framed(payload).value + rest;
    assert stream[..4] == BigEndian(|payload|);
    assert stream[4..4 + |payload|] == payload;
    assert stream[4 + |payload|..] == rest;
  }

  /** A frame cut short anywhere reads as the end of the stream, never as a shorter message. */
  lemma ReceiveTruncated(payload: seq<Byte>, cut: nat)
    requires Framed(payload).Some? && cut < |Framed(payload).value|
    ensures Receive(Framed(payload).value[..cut]) == Ended
  {
    BigEndianRoundTrip(|payload|);
    hide BigEndian, FromBigEndian;
    var stream := Framed(payload).value[..cut];
    if cut >= 4 {
      assert stream[..4] == BigEndian(|payload|);
    }
  }

  /** A length over the cap is refused whatever follows, with only its four octets consumed. */
  lemma ReceiveOverCap(len: nat, rest: seq<Byte>)
    requires MAX_BROKER_FRAME_BYTES < len < 0x1_0000_0000
    ensures Receive(BigEndian(len) + rest) == OverCap(rest)
  {
    BigEndianRoundTrip(len);
    hide BigEndian, FromBigEndian;
    var stream := BigEndian(len) + rest;
    assert stream[..4] == BigEndian(len) && stream[4..] == rest;
  }

  // ---------------------------------------------------------------------------------------------
  // Serving a stream of requests
  // ---------------------------------------------------------------------------------------------

  /** The peer's requests as it writes them: one frame each. */
  function RequestStream<Request>(encodeRequest: Request -> seq<Byte>, requests: seq<Request>): seq<Byte>
    requires RequestsFit(encodeRequest, requests)
  {
    if requests == [] then []
    else Framed(encodeRequest(requests[0])).value + RequestStream(encodeRequest, requests[1..])
  }

  /** The requests up to and including the first that asks for shutdown. */
  function UpToShutdown<Request>(isShutdown: Request -> bool, requests: seq<Request>): seq<Request> {
    if requests == [] then []
    else if isShutdown(requests[0]) then [requests[0]]
    else [requests[0]] + UpToShutdown(isShutdown, requests[1..])
  }

  /** Dispatching requests one after another: the final state and the replies. */
  function Answers<Request, Reply, State>(dispatch: (State, Request) -> (State, Reply), state: State, requests: seq<Request>)
    : (State, seq<Reply>)
  {
    if requests == [] then (state, [])
    else
      var (next, reply) := dispatch(state, requests[0]);
      var (last, replies) := Answers(dispatch, next, requests[1..]);
      (last, [reply] + replies)
  }

  /** What a client makes of the octets it receives: each frame decoded in turn. */
  function ReadReplies<Reply>(decodeReply: seq<Byte> -> Option<Reply>, stream: seq<Byte>): Option<seq<Reply>>
    decreases |stream|
  {
    if stream == [] then Some([])
    else match Receive(stream)
      case Ended => None
      case OverCap(_) => None
      case Frame(payload, rest) =>
        match (decodeReply(payload), ReadReplies(decodeReply, rest))
        case (Some(reply), Some(replies)) => Some([reply] + replies)
        case _ => None
  }

  /** The codec undoes itself, for requests and for replies. */
  ghost predicate Codec<Request(!new), Reply(!new), State(!new)>(
    svc: Service<Request, Reply, State>, encodeRequest: Request -> seq<Byte>, decodeReply: seq<Byte> -> Option<Reply>)
  {
    && (forall q :: svc.decode(encodeRequest(q)) == Some(q))
    && (forall a :: svc.encode(a).Some? ==> decodeReply(svc.encode(a).value) == Some(a))
  }

  ghost predicate RequestsFit<Request>(encodeRequest: Request -> seq<Byte>, requests: seq<Request>) {
    forall i :: 0 <= i < |requests| ==> Framed(encodeRequest(requests[i])).Some?
  }

  ghost predicate RepliesFit<Request, Reply, State>(svc: Service<Request, Reply, State>, replies: seq<Reply>) {
    forall i :: 0 <= i < |replies| ==> ReplyFrame(svc, replies[i]).Some?
  }

  lemma TurnOnRequest<Request(!new), Reply(!new), State(!new)>(
    svc: Service<Request, Reply, State>, encodeRequest: Request -> seq<Byte>, decodeReply: seq<Byte> -> Option<Reply>,
    state: State, request: Request, rest: seq<Byte>)
    requires Codec(svc, encodeRequest, decodeReply)
    requires Framed(encodeRequest(request)).Some? && ReplyFrame(svc, svc.dispatch(state, request).1).Some?
    ensures var (next, reply) := svc.dispatch(state, request);
            var frame := ReplyFrame(svc, reply).value;
            TurnOn(svc, state, Framed(encodeRequest(request)).value + rest)
              == if svc.isShutdown(request) then Stop(Served(Ok(()), next, [request], frame))
                 else Next(next, request, frame, rest)
  {
    var (next, reply) := svc.dispatch(state, request);
    ReceiveFramed(encodeRequest(request), rest);
    assert svc.decode(encodeRequest(request)) == Some(request);
    hide Framed, Receive, ReplyFrame;
  }

  lemma ReplyDecodes<Request(!new), Reply(!new), State(!new)>(
    svc: Service<Request, Reply, State>, encodeRequest: Request -> seq<Byte>, decodeReply: seq<Byte> -> Option<Reply>,
    reply: Reply, rest: seq<Byte>, replies: seq<Reply>)
    requires Codec(svc, encodeRequest, decodeReply) && ReadReplies(decodeReply, rest) == Some(replies)
    requires ReplyFrame(svc, reply).Some?
    ensures ReadReplies(decodeReply, ReplyFrame(svc, reply).value + rest) == Some([reply] + replies)
  {
    var payload := svc.encode(reply).value;
    assert ReplyFrame(svc, reply) == Framed(payload);
    ReceiveFramed(payload, rest);
    assert Framed(payload).value + rest != [];
    hide Framed, Receive;
  }

  /** One reply frame after another. */
  function ReplyStream<Request, Reply, State>(svc: Service<Request, Reply, State>, replies: seq<Reply>): seq<Byte>
    requires RepliesFit(svc, replies)
  {
    if replies == [] then [] else ReplyFrame(svc, replies[0]).value + ReplyStream(svc, replies[1..])
  }

  /** The client reads back exactly the replies that were sent. */
  lemma {:induction false} ClientReadsReplies<Request(!new), Reply(!new), State(!new)>(
    svc: Service<Request, Reply, State>, encodeRequest: Request -> seq<Byte>, decodeReply: seq<Byte> -> Option<Reply>,
    replies: seq<Reply>)
    requires Codec(svc, encodeRequest, decodeReply) && RepliesFit(svc, replies)
    ensures ReadReplies(decodeReply, ReplyStream(svc, replies)) == Some(replies)
  {
    if replies == [] {
    } else {
      ClientReadsReplies(svc, encodeRequest, decodeReply, replies[1..]);
      ReplyDecodes(svc, encodeRequest, decodeReply, replies[0], ReplyStream(svc, replies[1..]), replies[1..]);
      assert replies == [replies[0]] + replies[1..];
    }
  }

  ghost predicate AsksShutdown<Request>(isShutdown: Request -> bool, requests: seq<Request>) {
    exists i :: 0 <= i < |requests| && isShutdown(requests[i])
  }

  /**
   Framed requests followed by anything: exactly the requests up to the first Shutdown are dispatched,
   in order, each answered by one reply frame; with no Shutdown among them the loop goes on with what
   follows.
   */
  lemma {:induction false} ServesRequests<Request(!new), Reply(!new), State(!new)>(
    svc: Service<Request, Reply, State>, encodeRequest: Request -> seq<Byte>, decodeReply: seq<Byte> -> Option<Reply>,
    state: State, requests: seq<Request>, tail: seq<Byte>)
    requires Codec(svc, encodeRequest, decodeReply) && RequestsFit(encodeRequest, requests)
    requires RepliesFit(svc, Answers(svc.dispatch, state, UpToShutdown(svc.isShutdown, requests)).1)
    ensures var head := UpToShutdown(svc.isShutdown, requests);
            var (last, replies) := Answers(svc.dispatch, state, head);
            ServeStream(svc, state, RequestStream(encodeRequest, requests) + tail)
              == Continued(head, ReplyStream(svc, replies),
                           if AsksShutdown(svc.isShutdown, requests) then Served(Ok(()), last, [], [])
                           else ServeStream(svc, last, tail))
  {
    if requests == [] {
      assert RequestStream(encodeRequest, requests) + tail == tail;
      ContinueNothing(ServeStream(svc, state, tail));
    } else {
      var request, rest := requests[0], requests[1..];
      var (next, reply) := svc.dispatch(state, request);
      var stream := RequestStream(encodeRequest, rest) + tail;
      assert RequestStream(encodeRequest, requests) + tail == Framed(encodeRequest(request)).value + stream;
      var head := if svc.isShutdown(request) then [] else UpToShutdown(svc.isShutdown, rest);
      assert UpToShutdown(svc.isShutdown, requests) == [request] + head;
      AnswerFirst(svc, state, request, head);
      var (last, replies) := Answers(svc.dispatch, next, head);
      TurnOnRequest(svc, encodeRequest, decodeReply, state, request, stream);
      var frame := ReplyFrame(svc, reply).value;
      hide TurnOn, ReplyFrame, Framed;
      var more := if AsksShutdown(svc.isShutdown, requests) then Served(Ok(()), last, [], []) else ServeStream(svc, last, tail);
      if svc.isShutdown(request) {
        assert [request] + [] == [request] && frame + [] == frame;
      } else {
        ServesRequests(svc, encodeRequest, decodeReply, next, rest, tail);
        ShutdownLater(svc.isShutdown, requests);
        ContinueOne([request], frame, head, ReplyStream(svc, replies), more);
      }
    }
  }

  lemma ShutdownLater<Request>(isShutdown: Request -> bool, requests: seq<Request>)
    requires requests != [] && !isShutdown(requests[0])
    ensures AsksShutdown(isShutdown, requests) <==> AsksShutdown(isShutdown, requests[1..])
  {
    if AsksShutdown(isShutdown, requests) {
      var i :| 0 <= i < |requests| && isShutdown(requests[i]);
      assert requests[1..][i - 1] == requests[i];
    }
  }

  lemma AnswerFirst<Request(!new), Reply(!new), State(!new)>(
    svc: Service<Request, Reply, State>, state: State, request: Request, more: seq<Request>)
    requires RepliesFit(svc, Answers(svc.dispatch, state, [request] + more).1)
    ensures var (next, reply) := svc.dispatch(state, request);
            var (last, replies) := Answers(svc.dispatch, next, more);
            && Answers(svc.dispatch, state, [request] + more) == (last, [reply] + replies)
            && ReplyFrame(svc, reply).Some? && RepliesFit(svc, replies)
            && ReplyStream(svc, [reply] + replies) == ReplyFrame(svc, reply).value + ReplyStream(svc, replies)
  {
    hide ReplyFrame;
    assert ([request] + more)[1..] == more;
    var (next, reply) := svc.dispatch(state, request);
    var (last, replies) := Answers(svc.dispatch, next, more);
    var all := Answers(svc.dispatch, state, [request] + more).1;
    assert all == [reply] + replies && all[0] == reply && all[1..] == replies;
    assert forall i :: 0 <= i < |replies| ==> replies[i] == all[i + 1];
  }

  /** When what follows the requests is a cut-off frame, or nothing, service ends cleanly. */
  lemma EndsCleanly<Request(!new), Reply(!new), State(!new)>(
    svc: Service<Request, Reply, State>, encodeRequest: Request -> seq<Byte>, decodeReply: seq<Byte> -> Option<Reply>,
    state: State, requests: seq<Request>, tail: seq<Byte>)
    requires Codec(svc, encodeRequest, decodeReply) && RequestsFit(encodeRequest, requests)
    requires RepliesFit(svc, Answers(svc.dispatch, state, UpToShutdown(svc.isShutdown, requests)).1)
    requires Receive(tail) == Ended
    ensures var head := UpToShutdown(svc.isShutdown, requests);
            var (last, replies) := Answers(svc.dispatch, state, head);
            ServeStream(svc, state, RequestStream(encodeRequest, requests) + tail)
              == Served(Ok(()), last, head, ReplyStream(svc, replies))
  {
    ServesRequests(svc, encodeRequest, decodeReply, state, requests, tail);
    hide Receive, RequestStream, ReplyStream, Answers, UpToShutdown;
    var head := UpToShutdown(svc.isShutdown, requests);
    var (last, replies) := Answers(svc.dispatch, state, head);
    assert head + [] == head && ReplyStream(svc, replies) + [] == ReplyStream(svc, replies);
  }

  /** Answered requests none of which asks for shutdown, and then a turn that stops: its end is the end. */
  lemma StopsAfter<Request(!new), Reply(!new), State(!new)>(
    svc: Service<Request, Reply, State>, encodeRequest: Request -> seq<Byte>, decodeReply: seq<Byte> -> Option<Reply>,
    state: State, requests: seq<Request>, tail: seq<Byte>)
    requires Codec(svc, encodeRequest, decodeReply) && RequestsFit(encodeRequest, requests)
    requires RepliesFit(svc, Answers(svc.dispatch, state, requests).1)
    requires !AsksShutdown(svc.isShutdown, requests)
    requires TurnOn(svc, Answers(svc.dispatch, state, requests).0, tail).Stop?
    ensures var (last, replies) := Answers(svc.dispatch, state, requests);
            ServeStream(svc, state, RequestStream(encodeRequest, requests) + tail)
              == Continued(requests, ReplyStream(svc, replies), TurnOn(svc, last, tail).served)
  {
    NoShutdownAll(svc.isShutdown, requests);
    ServesRequests(svc, encodeRequest, decodeReply, state, requests, tail);
    hide TurnOn, RequestStream, ReplyStream, Answers, UpToShutdown;
  }

  /** An over-cap length after the requests stops the loop with an error and dispatches nothing more. */
  lemma OverCapStops<Request(!new), Reply(!new), State(!new)>(
    svc: Service<Request, Reply, State>, encodeRequest: Request -> seq<Byte>, decodeReply: seq<Byte> -> Option<Reply>,
    state: State, requests: seq<Request>, len: nat, rest: seq<Byte>)
    requires Codec(svc, encodeRequest, decodeReply) && RequestsFit(encodeRequest, requests)
    requires RepliesFit(svc, Answers(svc.dispatch, state, requests).1)
    requires !AsksShutdown(svc.isShutdown, requests)
    requires MAX_BROKER_FRAME_BYTES < len < 0x1_0000_0000
    ensures var (last, replies) := Answers(svc.dispatch, state, requests);
            ServeStream(svc, state, RequestStream(encodeRequest, requests) + (BigEndian(len) + rest))
              == Served(Err(InvalidData), last, requests, ReplyStream(svc, replies))
  {
    ReceiveOverCap(len, rest);
    hide Receive, RequestStream, ReplyStream, Answers, BigEndian;
    StopsAfter(svc, encodeRequest, decodeReply, state, requests, BigEndian(len) + rest);
    var (last, replies) := Answers(svc.dispatch, state, requests);
    assert requests + [] == requests && ReplyStream(svc, replies) + [] == ReplyStream(svc, replies);
  }

  /** So does a frame whose payload is no request. */
  lemma UndecodableStops<Request(!new), Reply(!new), State(!new)>(
    svc: Service<Request, Reply, State>, encodeRequest: Request -> seq<Byte>, decodeReply: seq<Byte> -> Option<Reply>,
    state: State, requests: seq<Request>, payload: seq<Byte>, rest: seq<Byte>)
    requires Codec(svc, encodeRequest, decodeReply) && RequestsFit(encodeRequest, requests)
    requires RepliesFit(svc, Answers(svc.dispatch, state, requests).1)
    requires !AsksShutdown(svc.isShutdown, requests)
    requires Framed(payload).Some? && svc.decode(payload) == None
    ensures var (last, replies) := Answers(svc.dispatch, state, requests);
            ServeStream(svc, state, RequestStream(encodeRequest, requests) + (Framed(payload).value + rest))
              == Served(Err(InvalidData), last, requests, ReplyStream(svc, replies))
  {
    ReceiveFramed(payload, rest);
    hide Receive, RequestStream, ReplyStream, Answers, Framed;
    StopsAfter(svc, encodeRequest, decodeReply, state, requests, Framed(payload).value + rest);
    var (last, replies) := Answers(svc.dispatch, state, requests);
    assert requests + [] == requests && ReplyStream(svc, replies) + [] == ReplyStream(svc, replies);
  }

  /**
   A request whose reply cannot be framed is dispatched and never answered: service ends with an error,
   nothing of the reply is written and nothing after it is read.
   */
  lemma UnanswerableStops<Request(!new), Reply(!new), State(!new)>(
    svc: Service<Request, Reply, State>, encodeRequest: Request -> seq<Byte>, decodeReply: seq<Byte> -> Option<Reply>,
    state: State, requests: seq<Request>, request: Request, rest: seq<Byte>)
    requires Codec(svc, encodeRequest, decodeReply) && RequestsFit(encodeRequest, requests)
    requires RepliesFit(svc, Answers(svc.dispatch, state, requests).1)
    requires !AsksShutdown(svc.isShutdown, requests) && Framed(encodeRequest(request)).Some?
    requires ReplyFrame(svc, svc.dispatch(Answers(svc.dispatch, state, requests).0, request).1) == None
    ensures var (last, replies) := Answers(svc.dispatch, state, requests);
            ServeStream(svc, state, RequestStream(encodeRequest, requests) + (Framed(encodeRequest(request)).value + rest))
              == Served(Err(InvalidData), svc.dispatch(last, request).0, requests + [request], ReplyStream(svc, replies))
  {
    ReceiveFramed(encodeRequest(request), rest);
    assert svc.decode(encodeRequest(request)) == Some(request);
    hide Receive, RequestStream, ReplyStream, ReplyFrame, Answers, Framed;
    StopsAfter(svc, encodeRequest, decodeReply, state, requests, Framed(encodeRequest(request)).value + rest);
    var (last, replies) := Answers(svc.dispatch, state, requests);
    assert ReplyStream(svc, replies) + [] == ReplyStream(svc, replies);
  }

  lemma {:induction false} NoShutdownAll<Request>(isShutdown: Request -> bool, requests: seq<Request>)
    requires !AsksShutdown(isShutdown, requests)
    ensures UpToShutdown(isShutdown, requests) == requests
  {
    if requests == [] {
    } else {
      ShutdownLater(isShutdown, requests);
      NoShutdownAll(isShutdown, requests[1..]);
    }
  }
}
