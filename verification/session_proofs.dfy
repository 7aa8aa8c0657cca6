/**
 * Properties of the session: what one chunk does on each path, and what a
 * connection does with frames split across chunks, frames delivered one per
 * chunk, frames folded into one chunk, and a frame the parser rejects.
 */
module SessionProofs {
  import opened Wrappers
  import opened Hl7
  import opened Ack
  import opened Mllp
  import opened Requests
  import opened Session

  /** Every event is a chunk of data. */
  ghost predicate DataOnly(events: seq<Event>)
  {
    forall i :: 0 <= i < |events| ==> events[i].Data?
  }

  /** The handler returns on every accepted request. */
  ghost predicate HandlersReturn(events: seq<Event>)
  {
    forall i :: 0 <= i < |events| && events[i].Data? ==> events[i].env.handlerThrows.None?
  }

  /** When the accumulated buffer ends in FS CR, the parser gets it minus its first character and last two. */
  lemma CompleteFrameIsParsed(buffer: string, chunk: string, parse: string -> ParseOutcome, env: Env)
    requires var m := buffer + chunk; |m| >= 3 && m[|m| - 2] == FS && m[|m| - 1] == CR
    ensures var m := buffer + chunk; OnData(buffer, chunk, parse, env).parsed == Some(m[1..|m| - 2])
  {
    EndsWithTerminatorIff(buffer + chunk);
    PayloadStrips(buffer + chunk);
  }

  /**
   * The accept is addressed to whoever the request names as sender: its
   * receiving application and facility, exposed the way `Req` exposes a
   * field, are the request's sender and facility.
   */
  lemma AckAnswersSender(h: Header, raw: string, s: Stamps)
    ensures ScalarOrList(CreateAck(h, s).receivingApp) == MakeRequest(h, raw).sender
    ensures ScalarOrList(CreateAck(h, s).receivingFacility) == MakeRequest(h, raw).facility
  {
  }

  /**
   * A parsed frame whose handler returns: one call with no error, the whole
   * enveloped buffer as raw text and the accept for the parsed message; the
   * buffer is emptied afterwards.
   */
  lemma AcceptPath(buffer: string, chunk: string, parse: string -> ParseOutcome, env: Env)
    requires EndsWithTerminator(buffer + chunk)
    requires parse(Payload(buffer + chunk)).Parsed? && env.handlerThrows.None?
    ensures var r := OnData(buffer, chunk, parse, env); var h := parse(Payload(buffer + chunk)).header;
      && r.buffer == []
      && r.calls == [Accepted(MakeRequest(h, buffer + chunk), Response(CreateAck(h, env.ackStamps)))]
      && r.calls[0].req.raw == buffer + chunk
      && Msa(r.calls[0].res.ack.segments) == Some((Text("AA"), Field(h, 8)))
  {
  }

  /**
   * A frame the parser rejects: one call with the error, a failure request
   * tagged Parse over the whole buffer and a reject; the buffer is NOT emptied.
   */
  lemma ParseFailurePath(buffer: string, chunk: string, parse: string -> ParseOutcome, env: Env)
    requires EndsWithTerminator(buffer + chunk)
    requires parse(Payload(buffer + chunk)).ParseFailed?
    ensures var r := OnData(buffer, chunk, parse, env); var e := parse(Payload(buffer + chunk)).error;
      && r.buffer == buffer + chunk
      && r.calls == [Reject(buffer + chunk, e, Parse, env.errStamps)]
      && r.calls[0].failure == FailedRequest(buffer + chunk, Describe(e), Parse)
      && Msa(r.calls[0].res.ack.segments) == Some((Text("AR"), Text(env.errStamps.msa)))
  {
  }

  /**
   * A handler that throws on an accepted request is called a second time on
   * the catch path, with its own exception tagged Parse, and the buffer is
   * kept because the reset after the handler never runs.
   */
  lemma HandlerThrowPath(buffer: string, chunk: string, parse: string -> ParseOutcome, env: Env)
    requires EndsWithTerminator(buffer + chunk)
    requires parse(Payload(buffer + chunk)).Parsed? && env.handlerThrows.Some?
    ensures var r := OnData(buffer, chunk, parse, env); var h := parse(Payload(buffer + chunk)).header;
      && r.buffer == buffer + chunk
      && r.calls == [Accepted(MakeRequest(h, buffer + chunk), Response(CreateAck(h, env.ackStamps))),
                     Reject(buffer + chunk, env.handlerThrows.value, Parse, env.errStamps)]
  {
  }

  /**
   * Two frames arriving in one chunk are not split: the parser gets one
   * payload running from the first frame's data to the second's, across the
   * delimiters in between, and every call reports both frames as raw text.
   */
  lemma FoldedFramesParsedOnce(p1: string, p2: string, parse: string -> ParseOutcome, env: Env)
    ensures var r := OnData([], Frame(p1) + Frame(p2), parse, env);
      && r.parsed == Some(p1 + [FS, CR, VT] + p2)
      && 1 <= |r.calls| <= 2
      && (forall i :: 0 <= i < |r.calls| ==> Raw(r.calls[i]) == Some(Frame(p1) + Frame(p2)))
  {
    var q := p1 + [FS, CR, VT] + p2;
    FoldedFrames(p1, p2);
    assert [] + (Frame(p1) + Frame(p2)) == Frame(p1) + Frame(p2);
    FrameRoundTrip(q);
  }

  /**
   * While no prefix of what has arrived ends in FS CR, the session only
   * accumulates: nothing is parsed, the handler is never called, and the
   * buffer holds exactly what arrived.
   */
  lemma {:induction false} SilentWhileIncomplete(buffer: string, events: seq<Event>, parse: string -> ParseOutcome)
    requires DataOnly(events)
    requires forall k :: 1 <= k <= |events| ==> !EndsWithTerminator(buffer + ChunksUpTo(events, k))
    ensures Run(buffer, events, parse) == Trace(buffer + Chunks(events), [], [])
    decreases |events|
  {
    if events == [] {
      assert buffer + Chunks(events) == buffer;
    } else {
      var rest := events[1..];
      var m := buffer + events[0].chunk;
      QuietAfterFirst(buffer, events);
      ChunkOnlyAppends(buffer, events, parse);
      SilentWhileIncomplete(m, rest, parse);
      assert m + Chunks(rest) == buffer + Chunks(events);
    }
  }

  /** Quiet chunk ends seen from the buffer after the first chunk. */
  lemma QuietAfterFirst(buffer: string, events: seq<Event>)
    requires events != [] && DataOnly(events)
    requires forall k :: 1 <= k <= |events| ==> !EndsWithTerminator(buffer + ChunksUpTo(events, k))
    ensures !EndsWithTerminator(buffer + events[0].chunk)
    ensures forall k :: 1 <= k <= |events[1..]| ==>
      !EndsWithTerminator((buffer + events[0].chunk) + ChunksUpTo(events[1..], k))
  {
    ChunksUpToCons(buffer, events, 0);
    assert !EndsWithTerminator(buffer + ChunksUpTo(events, 1));
    forall k | 1 <= k <= |events[1..]|
      ensures !EndsWithTerminator((buffer + events[0].chunk) + ChunksUpTo(events[1..], k))
    {
      ChunksUpToCons(buffer, events, k);
      assert !EndsWithTerminator(buffer + ChunksUpTo(events, k + 1));
    }
  }

  /** The text the first `k` events deliver. */
  function ChunksUpTo(events: seq<Event>, k: nat): string
    requires k <= |events|
  {
    Chunks(events[..k])
  }

  /** What the first event plus the next `k` deliver, from the buffer's point of view. */
  lemma ChunksUpToCons(buffer: string, events: seq<Event>, k: nat)
    requires k < |events| && events[0].Data?
    ensures buffer + ChunksUpTo(events, k + 1) == (buffer + events[0].chunk) + ChunksUpTo(events[1..], k)
  {
    var pre := events[..k + 1];
    assert pre[0] == events[0] && pre[1..] == events[1..][..k];
  }

  /**
   * Only chunk ends are tested: a chunk that carries a whole frame followed by
   * the start of the next one leaves the listener silent, FS CR inside and all.
   */
  lemma TerminatorInsideChunkIsMissed(p: string, parse: string -> ParseOutcome, env: Env)
    ensures Run([], [Data(Frame(p) + [VT], env)], parse) == Trace(Frame(p) + [VT], [], [])
  {
    var events := [Data(Frame(p) + [VT], env)];
    assert events[..1] == events;
    assert Chunks(events) == Frame(p) + [VT] + Chunks([]);
    EndsWithTerminatorIff([] + (Frame(p) + [VT]));
    SilentWhileIncomplete([], events, parse);
  }

  /** The text of consecutive event sequences is the concatenation of their texts. */
  lemma {:induction false} ChunksAppend(a: seq<Event>, b: seq<Event>)
    ensures Chunks(a + b) == Chunks(a) + Chunks(b)
    decreases |a|
  {
    if a != [] {
      assert (a + b)[0] == a[0] && (a + b)[1..] == a[1..] + b;
      ChunksAppend(a[1..], b);
    } else {
      assert a + b == b;
    }
  }

  /** The connection parsed `p` once, accepted it in one call with the frame as raw text, and emptied its buffer. */
  ghost predicate AcceptedOnce(t: Trace, p: string, h: Header)
  {
    && t.buffer == [] && t.parsed == [p] && |t.calls| == 1
    && t.calls[0].Accepted? && t.calls[0].req == MakeRequest(h, Frame(p))
    && Reverses(t.calls[0].res.ack, h)
    && Msa(t.calls[0].res.ack.segments) == Some((Text("AA"), Field(h, 8)))
  }

  /**
   * A frame whose data holds no FS, delivered in any number of chunks of any
   * sizes, gives exactly one handler call: no error, the whole frame as raw
   * text, an accept naming the message's control id; the buffer ends empty.
   */
  lemma {:induction false} FrameAcrossChunks(buffer: string, events: seq<Event>, parse: string -> ParseOutcome, p: string)
    requires DataOnly(events) && HandlersReturn(events)
    requires FS !in p
    requires buffer + Chunks(events) == Frame(p) && |buffer| < |Frame(p)|
    requires parse(p).Parsed?
    requires events != []
    ensures AcceptedOnce(Run(buffer, events, parse), p, parse(p).header)
    decreases |events|
  {
    var f := Frame(p);
    var rest := events[1..];
    var m := buffer + events[0].chunk;
    assert f == m + Chunks(rest);
    if |m| < |f| {
      assert !EndsWithTerminator(m) by {
        FrameHasNoEarlyEnd(p);
        assert m == f[..|m|];
      }
      ChunkOnlyAppends(buffer, events, parse);
      FrameAcrossChunks(m, rest, parse, p);
    } else {
      ChunkCompletesFrame(buffer, events, parse, p);
    }
  }

  /** A chunk after which the buffer does not end in FS CR only extends the buffer. */
  lemma ChunkOnlyAppends(buffer: string, events: seq<Event>, parse: string -> ParseOutcome)
    requires events != [] && events[0].Data?
    requires !EndsWithTerminator(buffer + events[0].chunk)
    ensures Run(buffer, events, parse) == Run(buffer + events[0].chunk, events[1..], parse)
  {
    var s := Apply(buffer, events[0], parse);
    assert s == Step(buffer + events[0].chunk, None, []);
  }

  /** The chunk that completes a parsed frame, followed only by empty chunks. */
  lemma ChunkCompletesFrame(buffer: string, events: seq<Event>, parse: string -> ParseOutcome, p: string)
    requires events != [] && DataOnly(events) && HandlersReturn(events)
    requires buffer + events[0].chunk == Frame(p) && Chunks(events[1..]) == []
    requires parse(p).Parsed?
    ensures AcceptedOnce(Run(buffer, events, parse), p, parse(p).header)
  {
    var f := Frame(p);
    var h := parse(p).header;
    var rest := events[1..];
    FrameRoundTrip(p);
    var s := Apply(buffer, events[0], parse);
    AcceptPath(buffer, events[0].chunk, parse, events[0].env);
    assert s == Step([], Some(p), [Accepted(MakeRequest(h, f), Response(CreateAck(h, events[0].env.ackStamps)))]);
    forall k | 1 <= k <= |rest|
      ensures !EndsWithTerminator([] + ChunksUpTo(rest, k))
    {
      assert rest == rest[..k] + rest[k..];
      ChunksAppend(rest[..k], rest[k..]);
      assert [] + ChunksUpTo(rest, k) == [];
      EndsWithTerminatorIff([]);
    }
    SilentWhileIncomplete([], rest, parse);
    assert Run(s.buffer, rest, parse) == Trace([], [], []);
  }

  /**
   * A connection processes consecutive stretches of events one after the
   * other: running them together is running the first and then the second
   * from the buffer the first left.
   */
  lemma {:induction false} RunAppend(buffer: string, e1: seq<Event>, e2: seq<Event>, parse: string -> ParseOutcome)
    ensures var t1 := Run(buffer, e1, parse); var t2 := Run(t1.buffer, e2, parse);
      Run(buffer, e1 + e2, parse) == Trace(t2.buffer, t1.parsed + t2.parsed, t1.calls + t2.calls)
    decreases |e1|
  {
    if e1 == [] {
      assert e1 + e2 == e2;
    } else {
      var s := Apply(buffer, e1[0], parse);
      assert (e1 + e2)[0] == e1[0] && (e1 + e2)[1..] == e1[1..] + e2;
      RunCons(buffer, e1 + e2, parse);
      RunCons(buffer, e1, parse);
      RunAppend(s.buffer, e1[1..], e2, parse);
      TraceConsAssoc(OptionToSeq(s.parsed), s.calls, Run(s.buffer, e1[1..], parse), Run(Run(s.buffer, e1[1..], parse).buffer, e2, parse));
    }
  }

  /** One unfolding of a run. */
  lemma RunCons(buffer: string, events: seq<Event>, parse: string -> ParseOutcome)
    requires events != []
    ensures var s := Apply(buffer, events[0], parse); var t := Run(s.buffer, events[1..], parse);
      Run(buffer, events, parse) == Trace(t.buffer, OptionToSeq(s.parsed) + t.parsed, s.calls + t.calls)
  {
  }

  lemma TraceConsAssoc(ps: seq<string>, cs: seq<Call>, t1: Trace, t2: Trace)
    ensures ps + (t1.parsed + t2.parsed) == (ps + t1.parsed) + t2.parsed
    ensures cs + (t1.calls + t2.calls) == (cs + t1.calls) + t2.calls
  {
  }

  /**
   * Two frames, each split into chunks of any sizes that end at the frame
   * boundary, give two accepted calls in order, each with its own frame as
   * raw text, and the buffer ends empty.
   */
  lemma TwoFramesAcrossChunks(e1: seq<Event>, e2: seq<Event>, p1: string, p2: string, parse: string -> ParseOutcome)
    requires e1 != [] && DataOnly(e1) && HandlersReturn(e1) && Chunks(e1) == Frame(p1)
    requires e2 != [] && DataOnly(e2) && HandlersReturn(e2) && Chunks(e2) == Frame(p2)
    requires FS !in p1 && FS !in p2 && parse(p1).Parsed? && parse(p2).Parsed?
    ensures var t := Run([], e1 + e2, parse);
      && t.buffer == [] && t.parsed == [p1, p2] && |t.calls| == 2
      && t.calls[0].Accepted? && t.calls[0].req == MakeRequest(parse(p1).header, Frame(p1))
      && t.calls[1].Accepted? && t.calls[1].req == MakeRequest(parse(p2).header, Frame(p2))
  {
    var t1 := Run([], e1, parse);
    assert AcceptedOnce(t1, p1, parse(p1).header) by {
      assert [] + Chunks(e1) == Frame(p1);
      FrameAcrossChunks([], e1, parse, p1);
    }
    var t2 := Run([], e2, parse);
    assert AcceptedOnce(t2, p2, parse(p2).header) by {
      assert [] + Chunks(e2) == Frame(p2);
      FrameAcrossChunks([], e2, parse, p2);
    }
    var t := Run([], e1 + e2, parse);
    assert t == Trace(t2.buffer, t1.parsed + t2.parsed, t1.calls + t2.calls) by {
      RunAppend([], e1, e2, parse);
    }
    AcceptedTwice(t1, t2, t, p1, p2, parse(p1).header, parse(p2).header);
  }

  lemma AcceptedTwice(t1: Trace, t2: Trace, t: Trace, p1: string, p2: string, h1: Header, h2: Header)
    requires AcceptedOnce(t1, p1, h1) && AcceptedOnce(t2, p2, h2)
    requires t == Trace(t2.buffer, t1.parsed + t2.parsed, t1.calls + t2.calls)
    ensures t.buffer == [] && t.parsed == [p1, p2] && |t.calls| == 2
    ensures t.calls[0].Accepted? && t.calls[0].req == MakeRequest(h1, Frame(p1))
    ensures t.calls[1].Accepted? && t.calls[1].req == MakeRequest(h2, Frame(p2))
  {
  }

  /**
   * Frames delivered one per chunk, each parsed and each handler returning,
   * give one accepted call per frame, in order, each with its own frame as
   * raw text, and the buffer ends empty.
   */
  lemma {:induction false} FramesOnePerChunk(events: seq<Event>, ps: seq<string>, parse: string -> ParseOutcome)
    requires DataOnly(events) && HandlersReturn(events) && |ps| == |events|
    requires forall i :: 0 <= i < |events| ==> events[i].chunk == Frame(ps[i]) && parse(ps[i]).Parsed?
    ensures AcceptedEach(Run([], events, parse), events, ps, parse)
    decreases |events|
  {
    if events != [] {
      WholeFrameChunk(events, ps[0], parse);
      forall i | 0 <= i < |events[1..]|
        ensures events[1..][i].Data? && events[1..][i].env.handlerThrows.None?
        ensures events[1..][i].chunk == Frame(ps[1..][i]) && parse(ps[1..][i]).Parsed?
      {
        assert events[1..][i] == events[i + 1] && ps[1..][i] == ps[i + 1];
      }
      FramesOnePerChunk(events[1..], ps[1..], parse);
      AcceptedEachCons(Run([], events, parse), Run([], events[1..], parse), events, ps, parse);
    }
  }

  /** Prepending one accepted frame to a run that accepted each of the rest. */
  lemma AcceptedEachCons(t: Trace, t': Trace, events: seq<Event>, ps: seq<string>, parse: string -> ParseOutcome)
    requires events != [] && DataOnly(events) && |ps| == |events|
    requires forall i :: 0 <= i < |events| ==> parse(ps[i]).Parsed?
    requires AcceptedEach(t', events[1..], ps[1..], parse)
    requires var h := parse(ps[0]).header;
      t == Trace(t'.buffer, [ps[0]] + t'.parsed,
                 [Accepted(MakeRequest(h, Frame(ps[0])), Response(CreateAck(h, events[0].env.ackStamps)))] + t'.calls)
    ensures AcceptedEach(t, events, ps, parse)
  {
    assert ps == [ps[0]] + ps[1..];
    forall i | 0 < i < |ps|
      ensures t.calls[i] == Accepted(MakeRequest(parse(ps[i]).header, Frame(ps[i])),
                                     Response(CreateAck(parse(ps[i]).header, events[i].env.ackStamps)))
    {
      assert t.calls[i] == t'.calls[i - 1];
      assert events[1..][i - 1] == events[i];
      assert ps[1..][i - 1] == ps[i];
    }
  }

  /** One accepted call per frame, in order, each with its own frame as raw text, and an empty buffer. */
  ghost predicate AcceptedEach(t: Trace, events: seq<Event>, ps: seq<string>, parse: string -> ParseOutcome)
    requires DataOnly(events) && |ps| == |events|
    requires forall i :: 0 <= i < |events| ==> parse(ps[i]).Parsed?
  {
    && t.buffer == [] && t.parsed == ps && |t.calls| == |ps|
    && forall i :: 0 <= i < |ps| ==>
         t.calls[i] == Accepted(MakeRequest(parse(ps[i]).header, Frame(ps[i])),
                                Response(CreateAck(parse(ps[i]).header, events[i].env.ackStamps)))
  }

  /** A chunk holding one whole parsed frame, arriving on an empty buffer, is accepted and leaves the buffer empty. */
  lemma WholeFrameChunk(events: seq<Event>, p: string, parse: string -> ParseOutcome)
    requires events != [] && events[0].Data? && events[0].env.handlerThrows.None?
    requires events[0].chunk == Frame(p) && parse(p).Parsed?
    ensures var h := parse(p).header; var t' := Run([], events[1..], parse);
      Run([], events, parse) == Trace(t'.buffer, [p] + t'.parsed,
        [Accepted(MakeRequest(h, Frame(p)), Response(CreateAck(h, events[0].env.ackStamps)))] + t'.calls)
  {
    FrameRoundTrip(p);
    assert [] + events[0].chunk == Frame(p);
    AcceptPath([], events[0].chunk, parse, events[0].env);
  }

  /**
   * The buffer is not emptied after a rejected frame, so the next frame is
   * never parsed on its own: the parser gets the rejected frame's data, the
   * delimiters and the new frame's data together, and if that fails too the
   * buffer keeps both frames.
   */
  lemma RejectedFramePoisonsNext(p1: string, p2: string, parse: string -> ParseOutcome, env1: Env, env2: Env)
    requires parse(p1).ParseFailed?
    ensures var s1 := OnData([], Frame(p1), parse, env1);
      var s2 := OnData(s1.buffer, Frame(p2), parse, env2);
      && s1.buffer == Frame(p1)
      && s1.calls == [Reject(Frame(p1), parse(p1).error, Parse, env1.errStamps)]
      && s2.parsed == Some(p1 + [FS, CR, VT] + p2) && s2.parsed != Some(p2)
      && (parse(p1 + [FS, CR, VT] + p2).ParseFailed? ==> s2.buffer == Frame(p1) + Frame(p2))
  {
    FrameRoundTrip(p1);
    assert [] + Frame(p1) == Frame(p1);
    ParseFailurePath([], Frame(p1), parse, env1);
    SecondFrameOnKeptBuffer(p1, p2, parse, env2);
  }

  /** A frame arriving while a whole frame is still buffered is parsed together with it. */
  lemma SecondFrameOnKeptBuffer(p1: string, p2: string, parse: string -> ParseOutcome, env: Env)
    ensures var q := p1 + [FS, CR, VT] + p2; var s := OnData(Frame(p1), Frame(p2), parse, env);
      && s.parsed == Some(q) && |q| > |p2|
      && (parse(q).ParseFailed? ==> s.buffer == Frame(p1) + Frame(p2))
  {
    var q := p1 + [FS, CR, VT] + p2;
    var m := Frame(p1) + Frame(p2);
    FoldedFrames(p1, p2);
    FrameRoundTrip(q);
    assert EndsWithTerminator(m) && Payload(m) == q;
  }

  /**
   * A socket error reports what the buffer held as a socket failure and
   * empties it, so after a rejected frame the next frame is parsed alone again.
   */
  lemma SocketErrorRecovers(p1: string, p2: string, parse: string -> ParseOutcome, env1: Env, err: Thrown, s: Stamps, env2: Env)
    requires parse(p1).ParseFailed? && parse(p2).Parsed? && env2.handlerThrows.None?
    ensures var s1 := OnData([], Frame(p1), parse, env1);
      var s2 := OnError(s1.buffer, Some(err), s);
      var s3 := OnData(s2.buffer, Frame(p2), parse, env2);
      && s2.calls == [Reject(Frame(p1), err, Socket, s)]
      && s3.parsed == Some(p2)
      && s3.calls[0].Accepted? && s3.calls[0].req.raw == Frame(p2)
      && s3.buffer == []
  {
    FrameRoundTrip(p1);
    FrameRoundTrip(p2);
    assert [] + Frame(p1) == Frame(p1);
    assert [] + Frame(p2) == Frame(p2);
    ParseFailurePath([], Frame(p1), parse, env1);
    AcceptPath([], Frame(p2), parse, env2);
  }
}
