/**
 * The per-connection session of the listener: the `'data'` handler that
 * accumulates chunks into one string buffer and hands each completed frame to
 * the parser and the handler, and the `'error'` handler.
 *
 * Collaborators are parameters: the parser is the function `parse`, the clock
 * is the `Stamps` each acknowledgment reads, and the handler is represented by
 * what it does when called with an accepted request (return, or throw). A step
 * returns the new buffer, the payload handed to the parser if any, and the
 * handler calls made, in order. Bytes reach the socket only when the handler
 * calls `end` on a response (see `Mllp.End`).
 */
module Session {
  import opened Wrappers
  import opened Hl7
  import opened Ack
  import opened Mllp
  import opened Requests

  /** What the external parser does with a payload. */
  datatype ParseOutcome = Parsed(header: Header) | ParseFailed(error: Thrown)

  /** One invocation of the handler. */
  datatype Call =
    | Accepted(req: Request, res: Response)                   // handler(null, req, res)
    | Rejected(err: Thrown, failure: FailedRequest, res: Response)  // handler(err, {raw, err, errType}, res)
    | Closed                                                  // handler(err) with no error value

  /** The raw text a call reports, if it carries a request. */
  function Raw(c: Call): Option<string>
  {
    match c
    case Accepted(req, _) => Some(req.raw)
    case Rejected(_, failure, _) => Some(failure.raw)
    case Closed => None
  }

  /** The environment of one chunk: whether the handler throws on the accepted request, and the clock readings. */
  datatype Env = Env(handlerThrows: Option<Thrown>, ackStamps: Stamps, errStamps: Stamps)

  /** The outcome of one event on the session. */
  datatype Step = Step(buffer: string, parsed: Option<string>, calls: seq<Call>)

  /** The failure call: the buffer as raw text, the classified error and a response carrying the reject. */
  function Reject(raw: string, e: Thrown, tag: ErrType, s: Stamps): (c: Call)
    ensures c.Rejected? && c.err == e && c.failure.raw == raw && c.failure.errType == tag
    ensures c.res.ack == CreateErrAck(s)
  {
    Rejected(e, FailedRequest(raw, Describe(e), tag), Response(CreateErrAck(s)))
  }

  /**
   * The `'data'` handler. The chunk is appended; when the buffer then ends in
   * FS CR its payload is parsed, the accept is built and the handler called,
   * and only after the handler returns is the buffer emptied. A parse failure
   * or a handler exception takes the catch path: the handler is called with
   * the error and a reject, and the buffer is kept.
   */
  function OnData(buffer: string, chunk: string, parse: string -> ParseOutcome, env: Env): (r: Step)
    ensures var m := buffer + chunk;
      && (!EndsWithTerminator(m) ==> r == Step(m, None, []))
      && (EndsWithTerminator(m) ==> r.parsed == Some(Payload(m)) && |r.calls| >= 1)
      && (r.buffer == [] || r.buffer == m)
      && (forall i :: 0 <= i < |r.calls| ==> Raw(r.calls[i]) == Some(m))
      && (r.buffer != m <==> EndsWithTerminator(m) && parse(Payload(m)).Parsed? && env.handlerThrows.None?)
  {
    var m := buffer + chunk;
    if !EndsWithTerminator(m) then Step(m, None, [])
    else
      assert m != [] by { EndsWithTerminatorIff(m); }
      var payload := Payload(m);
      match parse(payload)
      case ParseFailed(e) =>
        Step(m, Some(payload), [Reject(m, e, Parse, env.errStamps)])
      case Parsed(h) =>
        var accepted := Accepted(MakeRequest(h, m), Response(CreateAck(h, env.ackStamps)));
        match env.handlerThrows
        case None => Step([], Some(payload), [accepted])
        case Some(e) => Step(m, Some(payload), [accepted, Reject(m, e, Parse, env.errStamps)])
  }

  /**
   * The `'error'` handler. With a truthy error value the buffer is reported
   * as the raw text of a socket failure, then emptied, and the handler gets a
   * reject. With a falsy one (`None`) the handler is called with nothing else
   * and the buffer stays.
   */
  function OnError(buffer: string, err: Option<Thrown>, s: Stamps): (r: Step)
    ensures r.parsed == None && |r.calls| == 1
    ensures err.Some? ==> r.buffer == [] && r.calls[0] == Reject(buffer, err.value, Socket, s)
    ensures err.None? ==> r.buffer == buffer && r.calls[0] == Closed
  {
    match err
    case Some(e) => Step([], None, [Reject(buffer, e, Socket, s)])
    case None => Step(buffer, None, [Closed])
  }

  /** Something that happens on a connection. */
  datatype Event = Data(chunk: string, env: Env) | SocketError(err: Option<Thrown>, stamps: Stamps)

  function Apply(buffer: string, e: Event, parse: string -> ParseOutcome): (r: Step)
    ensures r.buffer == [] || r.buffer == buffer + Delivered(e)
    ensures |r.calls| <= 2 && (r.parsed.Some? ==> e.Data?)
  {
    match e
    case Data(chunk, env) => OnData(buffer, chunk, parse, env)
    case SocketError(err, s) => OnError(buffer, err, s)
  }

  /** The text an event delivers. */
  function Delivered(e: Event): string
  {
    if e.Data? then e.chunk else []
  }

  /** The text the events deliver, in order. */
  function Chunks(events: seq<Event>): string
  {
    if events == [] then [] else Delivered(events[0]) + Chunks(events[1..])
  }

  function OptionToSeq<T>(o: Option<T>): seq<T>
  {
    match o
    case None => []
    case Some(v) => [v]
  }

  /** The observable history of a connection: final buffer, parser inputs and handler calls. */
  datatype Trace = Trace(buffer: string, parsed: seq<string>, calls: seq<Call>)

  /**
   * A connection processing `events` in arrival order from `buffer`. The
   * buffer is only ever appended to or emptied, so what it holds at the end is
   * a tail of everything it held plus everything delivered; every event causes
   * at most one parse and two handler calls.
   */
  function Run(buffer: string, events: seq<Event>, parse: string -> ParseOutcome): (t: Trace)
    ensures IsSuffix(t.buffer, buffer + Chunks(events))
    ensures |t.parsed| <= |events| && |t.calls| <= 2 * |events|
    decreases |events|
  {
    if events == [] then Trace(buffer, [], [])
    else
      var s := Apply(buffer, events[0], parse);
      var t := Run(s.buffer, events[1..], parse);
      SuffixThroughStep(buffer, Delivered(events[0]), Chunks(events[1..]), s.buffer, t.buffer);
      Trace(t.buffer, OptionToSeq(s.parsed) + t.parsed, s.calls + t.calls)
  }

  predicate IsSuffix(a: string, b: string)
  {
    |a| <= |b| && b[|b| - |a|..] == a
  }

  /** One step keeps or empties the buffer; either way the tail property carries over. */
  lemma SuffixThroughStep(buffer: string, d: string, rest: string, mid: string, last: string)
    requires mid == [] || mid == buffer + d
    requires IsSuffix(last, mid + rest)
    ensures IsSuffix(last, buffer + (d + rest))
  {
    if mid == [] {
      assert mid + rest == rest;
      SuffixOfConcat(buffer + d, rest);
      assert (buffer + d) + rest == buffer + (d + rest);
      SuffixTransitive(last, rest, buffer + (d + rest));
    } else {
      assert mid + rest == buffer + (d + rest);
    }
  }

  lemma SuffixOfConcat(a: string, b: string)
    ensures IsSuffix(b, a + b)
  {
    assert (a + b)[|a|..] == b;
  }

  lemma SuffixTransitive(a: string, b: string, c: string)
    requires IsSuffix(a, b) && IsSuffix(b, c)
    ensures IsSuffix(a, c)
  {
    assert c[|c| - |a|..] == c[|c| - |b|..][|b| - |a|..];
  }
}
