/**
  A chunk of bytes as a run of the pipeline: feeding them one step at a time does to the client and the
  publisher what handling the parser's events for the whole chunk, in order, would do.

  The parser only appends to the events it has told, whatever it told before, and handling an event looks at
  neither the parser nor the events after it; the chunk's events can so be handled byte by byte.
 */
module ByteRuns {
  import opened Wrappers
  import opened BiosState
  import opened BiosProtocol
  import opened BiosRegistry
  import opened BiosClient
  import opened Publisher
  import opened Pipeline
  import opened PipelineSafety

  function Bytes(data: seq<byte>, now: real): seq<Step> {
    seq(|data|, i requires 0 <= i < |data| => Byte(data[i], now))
  }

  lemma {:induction false} RunConcat(env: Env, sys: System, a: seq<Step>, b: seq<Step>)
    requires Sane(env, sys)
    ensures PipelineSafety.Run(env, sys, a + b) == PipelineSafety.Run(env, PipelineSafety.Run(env, sys, a), b)
    decreases |a|
  {
    hide Sane, Advance;
    if a == [] {
      assert a + b == b;
    } else {
      assert (a + b)[0] == a[0] && (a + b)[1..] == a[1..] + b;
      StepKeepsSane(env, sys, a[0]);
      RunConcat(env, Advance(env, sys, a[0]), a[1..], b);
    }
  }

  // ----- the parser only appends to what it has told

  ghost predicate Appends(before: seq<Event>, p: Parser, q: Parser) {
    q == p.(events := before + p.events)
  }

  function Quiet(p: Parser): Parser {
    p.(events := [])
  }

  lemma {:induction false} AppendsStep(before: seq<Event>, p: Parser, q: Parser, b: byte, at: real)
    requires Appends(before, p, q)
    ensures Appends(before, Consume(p, b, at), Consume(q, b, at))
  {
    assert p.phase == Data && |p.payload| + 1 == p.count ==>
        before + (p.events + [Wrote(Stamped(Write(p.address, p.payload + [b]), at))])
        == (before + p.events) + [Wrote(Stamped(Write(p.address, p.payload + [b]), at))];
  }

  lemma {:induction false} ReleaseAppends(before: seq<Event>, p: Parser, q: Parser, at: real)
    requires Appends(before, p, q)
    ensures Appends(before, Release(p, at), Release(q, at))
    decreases p.syncRun
  {
    hide Consume;
    if p.syncRun > 0 {
      AppendsStep(before, p, q, SYNC_BYTE, at);
      var p', q' := Consume(p, SYNC_BYTE, at), Consume(q, SYNC_BYTE, at);
      ReleaseAppends(before, p'.(syncRun := p.syncRun - 1), q'.(syncRun := q.syncRun - 1), at);
    }
  }

  lemma {:induction false} FeedByteAppends(before: seq<Event>, p: Parser, q: Parser, b: byte, at: real)
    requires Appends(before, p, q)
    ensures Appends(before, FeedByte(p, b, at), FeedByte(q, b, at))
  {
    hide Consume, Release;
    ReleaseAppends(before, p, q, at);
    AppendsStep(before, Release(p, at), Release(q, at), b, at);
    assert before + (p.events + [Completed(p.frameCount + 1, p.frameWrites)])
        == (before + p.events) + [Completed(p.frameCount + 1, p.frameWrites)];
  }

  lemma {:induction false} FeedAppends(before: seq<Event>, p: Parser, q: Parser, data: seq<byte>, at: real)
    requires Appends(before, p, q)
    ensures Appends(before, Feed(p, data, at), Feed(q, data, at))
    decreases |data|
  {
    hide FeedByte, Appends;
    if data != [] {
      FeedByteAppends(before, p, q, data[0], at);
      FeedAppends(before, FeedByte(p, data[0], at), FeedByte(q, data[0], at), data[1..], at);
    }
  }

  // ----- handling events does not look at the parser

  lemma {:induction false} FrameDoneIgnoresParser(env: Env, sys: System, p: Parser, frame: seq<Stamped>, now: real)
    requires WellFormed(env.registry) && AllInBounds(frame)
    ensures FrameDone(env, sys.(parser := p), frame, now) == FrameDone(env, sys, frame, now).(parser := p)
  {
    hide WellFormed, AllInBounds, UpdateAircraft, DecodedSnapshot, BeginEpoch, EmitControlChanges, ControlsChanged,
      Active;
  }

  lemma {:induction false} HandleEventsIgnoresParser(env: Env, sys: System, p: Parser, events: seq<Event>, now: real)
    requires WellFormed(env.registry) && GoodEvents(events)
    ensures HandleEvents(env, sys.(parser := p), events, now) == HandleEvents(env, sys, events, now).(parser := p)
    decreases |events|
  {
    hide WellFormed, FrameDone, OnWrite;
    if events != [] {
      assert events[0] in events && forall e :: e in events[1..] ==> e in events;
      match events[0]
      case Wrote(w) => HandleEventsIgnoresParser(env, Written(env, sys, w), p, events[1..], now);
      case Completed(_, writes) =>
        FrameDoneIgnoresParser(env, sys, p, writes, now);
        HandleEventsIgnoresParser(env, FrameDone(env, sys, writes, now), p, events[1..], now);
    }
  }

  lemma {:induction false} HandleEventsConcat(env: Env, sys: System, a: seq<Event>, b: seq<Event>, now: real)
    requires WellFormed(env.registry) && GoodEvents(a) && GoodEvents(b) && GoodEvents(a + b)
    ensures HandleEvents(env, sys, a + b, now) == HandleEvents(env, HandleEvents(env, sys, a, now), b, now)
    decreases |a|
  {
    hide WellFormed, FrameDone, OnWrite;
    if a == [] {
      assert a + b == b;
    } else {
      assert a[0] in a && a[0] in a + b && forall e :: e in a[1..] ==> e in a;
      assert (a + b)[0] == a[0] && (a + b)[1..] == a[1..] + b;
      assert forall e :: e in a[1..] + b ==> e in a + b;
      match a[0]
      case Wrote(w) => HandleEventsConcat(env, Written(env, sys, w), a[1..], b, now);
      case Completed(_, writes) => HandleEventsConcat(env, FrameDone(env, sys, writes, now), a[1..], b, now);
    }
  }

  lemma FedChunk(p: Parser, data: seq<byte>, now: real)
    requires ValidParser(p)
    ensures GoodEvents(Feed(Quiet(p), data, now).events)
  {
    hide Feed;
    FeedKeepsValid(Quiet(p), data, now);
  }

  lemma NoBytes(env: Env, sys: System, now: real)
    requires WellFormed(env.registry)
    ensures Bytes([], now) == [] && Feed(Quiet(sys.parser), [], now) == Quiet(sys.parser) && GoodEvents([])
    ensures HandleEvents(env, sys, [], now) == sys
  {
  }

  /** The first byte's events come first, and the others follow from where it leaves the parser. */
  lemma {:induction false} FirstByte(env: Env, sys: System, data: seq<byte>, now: real)
    requires WellFormed(env.registry) && ValidParser(sys.parser) && data != []
    ensures
      var fed := Feed(Quiet(sys.parser), data, now);
      var next := ByteIn(env, sys, data[0], now);
      var rest := Feed(Quiet(next.parser), data[1..], now);
      && GoodEvents(fed.events) && GoodEvents(rest.events) && Quiet(fed) == Quiet(rest)
      && HandleEvents(env, sys, fed.events, now).(parser := next.parser)
         == HandleEvents(env, next, rest.events, now).(parser := next.parser)
  {
    hide WellFormed, HandleEvents, FeedByte, ValidParser;
    var x := FeedByte(Quiet(sys.parser), data[0], now);
    FeedByteIsValid(sys.parser, data[0], now);
    FedChunk(sys.parser, data, now);
    HandleEventsIgnoresParser(env, sys, x, x.events, now);
    var next := ByteIn(env, sys, data[0], now);
    assert next == HandleEvents(env, sys, x.events, now).(parser := x);
    FedChunk(x, data[1..], now);
    var rest := Feed(Quiet(x), data[1..], now);
    FeedAppends(x.events, Quiet(x), x, data[1..], now);
    HandleEventsConcat(env, sys, x.events, rest.events, now);
    HandleEventsIgnoresParser(env, HandleEvents(env, sys, x.events, now), x, rest.events, now);
  }

  lemma FeedByteIsValid(p: Parser, b: byte, now: real)
    requires ValidParser(p)
    ensures ValidParser(FeedByte(Quiet(p), b, now)) && GoodEvents(FeedByte(Quiet(p), b, now).events)
  {
    hide FeedByte;
    FeedByteKeepsValid(Quiet(p), b, now);
  }

  /** A run of bytes handles the events of the whole chunk. */
  lemma {:induction false} BytesAreOneChunk(env: Env, sys: System, data: seq<byte>, now: real)
    requires Sane(env, sys)
    ensures
      var fed := Feed(Quiet(sys.parser), data, now);
      var end := PipelineSafety.Run(env, sys, Bytes(data, now));
      && WellFormed(env.registry) && GoodEvents(fed.events)
      && end == HandleEvents(env, sys, fed.events, now).(parser := end.parser) && Quiet(end.parser) == Quiet(fed)
    decreases |data|
  {
    hide Sane, WellFormed, HandleEvents, Feed, FeedByte;
    SaneParts(env, sys);
    FedChunk(sys.parser, data, now);
    if data == [] {
      NoBytes(env, sys, now);
    } else {
      StepKeepsSane(env, sys, Byte(data[0], now));
      var next := ByteIn(env, sys, data[0], now);
      assert Bytes(data, now)[0] == Byte(data[0], now) && Bytes(data, now)[1..] == Bytes(data[1..], now);
      BytesAreOneChunk(env, next, data[1..], now);
      FirstByte(env, sys, data, now);
    }
  }
}
