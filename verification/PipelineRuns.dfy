/**
  Runs of the pipeline from power-on, and what holds at the end of every one of them.

  A run is a list of steps; `After` is the state it ends in. Nothing is assumed of a run beyond the
  environment's soundness, so the steps may come in any order and at any times, also times that go back.
  The second half follows the client's address space: between two markers it holds the bytes of the frame's
  writes, so that replaying that frame after an aircraft change shows those bytes and no others.
 */
module PipelineRuns {
  import opened Wrappers
  import opened InsertionDict
  import opened Wire
  import opened Ingress
  import opened RawStore
  import opened BiosState
  import opened BiosProtocol
  import opened BiosRegistry
  import opened BiosClient
  import opened Publisher
  import opened Delivery
  import opened Mirror
  import opened Pipeline
  import opened PipelineSafety

  /** The state at the end of a run. */
  ghost function After(env: Env, steps: seq<Step>): (sys: System)
    requires Usable(env)
    ensures Sane(env, sys)
  {
    StartSane(env);
    PipelineSafety.Run(env, Start(env), steps)
  }

  lemma SoundIsUsable(env: Env)
    requires SoundEnv(env)
    ensures Usable(env)
  {
  }

  lemma {:induction false} AfterKeepsInv(env: Env, steps: seq<Step>)
    requires SoundEnv(env)
    ensures Usable(env) && Inv(env, After(env, steps)) && LinkSide(After(env, steps))
  {
    SoundIsUsable(env);
    StartInv(env);
    hide Inv, Sane, SoundEnv;
    RunKeepsInv(env, Start(env), steps);
  }

  lemma {:induction false} InvAgrees(env: Env, sys: System)
    requires Inv(env, sys) && sys.publisher.epoch.Some?
    ensures Target(sys).Some?
    ensures Agrees(Active(env.registry, sys.client.aircraft), Target(sys).value.readings, sys.publisher.pending.at,
                   sys.client.decoded)
  {
  }

  /** For every published control the store holds exactly what the client last reported. */
  ghost predicate SidesEqual(env: Env, sys: System) {
    forall d :: d in Active(env.registry, sys.client.aircraft) ==>
      Lookup(sys.client.decoded, d) ==
      if IdentityOf(d) in sys.raw.entries.at then Some(sys.raw.entries.at[IdentityOf(d)].value) else None
  }

  ghost predicate NothingQueued(sys: System) {
    Undelivered(sys) == [] && sys.publisher.initial == [] && sys.publisher.pending.at == map[]
  }

  lemma LiveIsReady(r: Registry, cfg: Config, p: Publisher.State, decoded: map<Definition, Reading>, target: Backend)
    requires Live(r, cfg, p, decoded, target)
    ensures target.ingress.ready
  {
  }

  lemma {:induction false} QuietMeansEqual(env: Env, sys: System)
    requires Inv(env, sys) && sys.publisher.epoch.Some? && NothingQueued(sys)
    ensures sys.ingress.ready && SidesEqual(env, sys)
  {
    hide Deliver, Good, SoundMetadata, Live, ValidParser, OnlySince, Tracks, Complete, EpochsBelow, Backed, ReadyFor;
    InvAgrees(env, sys);
    assert Undelivered(sys) + sys.publisher.initial == [];
    assert Target(sys) == Some(BackendOf(sys));
    LiveIsReady(env.registry, env.cfg, sys.publisher, sys.client.decoded, Target(sys).value);
    forall d | d in Active(env.registry, sys.client.aircraft)
      ensures Lookup(sys.client.decoded, d) ==
              if IdentityOf(d) in sys.raw.entries.at then Some(sys.raw.entries.at[IdentityOf(d)].value) else None
    {
      assert Expected(BackendOf(sys).readings, sys.publisher.pending.at, IdentityOf(d)) ==
             Lookup(sys.client.decoded, d);
    }
  }

  // ----- the address space across an aircraft change

  /** The buffer holds every byte of the frame's writes. */
  ghost predicate Reflects(s: Space, ws: seq<Stamped>) {
    forall a :: 0 <= a < ADDRESS_SPACE_SIZE ==> (Last(ws, a).Some? ==> s[a].content == Last(ws, a).value)
  }

  lemma {:induction false} ConsumeReflects(s: Space, p: Parser, b: byte, at: real)
    requires ValidParser(p) && Reflects(Replayed(s, p.events), p.frameWrites)
    ensures Reflects(Replayed(s, Consume(p, b, at).events), Consume(p, b, at).frameWrites)
  {
    var q := Consume(p, b, at);
    if p.phase == Data && |p.payload| + 1 == p.count {
      var w := Stamped(Write(p.address, p.payload + [b]), at);
      assert q.events[..|q.events| - 1] == p.events;
      assert q.frameWrites[..|q.frameWrites| - 1] == p.frameWrites;
      assert Replayed(s, q.events) == BiosState.Applied(Replayed(s, p.events), w);
    }
  }

  lemma {:induction false} ReleaseReflects(s: Space, p: Parser, at: real)
    requires ValidParser(p) && Reflects(Replayed(s, p.events), p.frameWrites)
    ensures Reflects(Replayed(s, Release(p, at).events), Release(p, at).frameWrites)
    decreases p.syncRun
  {
    if p.syncRun > 0 {
      ConsumeKeepsValid(p, SYNC_BYTE, at);
      ConsumeReflects(s, p, SYNC_BYTE, at);
      ReleaseReflects(s, Consume(p, SYNC_BYTE, at).(syncRun := p.syncRun - 1), at);
    }
  }

  lemma {:induction false} WroteEventsReplay(env: Env, sys: System, events: seq<Event>, now: real)
    requires WellFormed(env.registry) && GoodEvents(events)
    requires forall e :: e in events ==> e.Wrote?
    ensures HandleEvents(env, sys, events, now).client.space == Replayed(sys.client.space, events)
    ensures HandleEvents(env, sys, events, now).parser == sys.parser
    ensures HandleEvents(env, sys, events, now).client.aircraft == sys.client.aircraft
    decreases |events|
  {
    if events != [] {
      var e, rest := events[0], events[1..];
      assert e in events && forall x :: x in rest ==> x in events;
      assert events == [e] + rest && [e][..0] == [];
      ReplayedConcat(sys.client.space, [e], rest);
      WroteEventsReplay(env, Written(env, sys, e.w), rest, now);
    }
  }

  /** Between markers the buffer keeps reflecting the current frame's writes. */
  lemma {:induction false} ByteInReflects(env: Env, sys: System, b: byte, now: real)
    requires Inv(env, sys) && Reflects(sys.client.space, sys.parser.frameWrites)
    requires b != SYNC_BYTE
    ensures Reflects(ByteIn(env, sys, b, now).client.space, ByteIn(env, sys, b, now).parser.frameWrites)
    ensures ByteIn(env, sys, b, now).client.aircraft == sys.client.aircraft
  {
    InvIsWellFormed(env, sys);
    hide Inv;
    var fed := sys.parser.(events := []);
    FeedByteKeepsValid(fed, b, now);
    assert Replayed(sys.client.space, []) == sys.client.space;
    ReleaseKeepsValid(fed, now);
    ReleaseReflects(sys.client.space, fed, now);
    ConsumeReflects(sys.client.space, Release(fed, now), b, now);
    ReleaseSize(fed, now);
    ConsumeSize(Release(fed, now), b, now);
    var parser := FeedByte(fed, b, now);
    forall e | e in parser.events ensures e.Wrote? {
      var i :| 0 <= i < |parser.events| && parser.events[i] == e;
    }
    WroteEventsReplay(env, sys.(parser := parser), parser.events, now);
  }

  /**
    On an aircraft change the client hides everything and replays the frame: the buffer's contents stay
    as they were, and exactly the bytes that frame wrote become visible.
   */
  lemma {:induction false} AircraftChangeKeepsContents(r: Registry, c: Client, frame: seq<Stamped>)
    requires WellFormed(r) && AllInBounds(frame) && Reflects(c.space, frame)
    ensures
      var after := UpdateAircraft(r, c, frame);
      && SameContents(after.space, c.space)
      && (after.aircraft != c.aircraft ==>
            && after.decoded == map[]
            && forall a :: 0 <= a < ADDRESS_SPACE_SIZE ==> Visible(after.space, a) == Last(frame, a))
  {
    forall a | 0 <= a < ADDRESS_SPACE_SIZE
      ensures BiosState.AppliedAll(Unavailable(c.space), frame)[a].content == c.space[a].content
      ensures Visible(BiosState.AppliedAll(Unavailable(c.space), frame), a) == Last(frame, a)
    {
      AppliedAllAt(Unavailable(c.space), frame, a);
      ReplayShowsExactlyTheWrites(c.space, frame, a);
    }
  }

  /** Completing a frame changes what the client sees only by following the aircraft. */
  lemma {:induction false} FrameDoneClient(env: Env, sys: System, frame: seq<Stamped>, now: real)
    requires WellFormed(env.registry) && AllInBounds(frame)
    ensures
      var after, updated := FrameDone(env, sys, frame, now), UpdateAircraft(env.registry, sys.client, frame);
      after.client.space == updated.space && after.client.aircraft == updated.aircraft && after.parser == sys.parser
  {
    hide WellFormed, ReadAll, Report, ControlsChanged, BeginEpoch, BiosState.AppliedAll, Unavailable, Due, Active,
      NamedAircraft;
  }

  lemma {:induction false} OneFrame(env: Env, sys: System, number: nat, writes: seq<Stamped>, now: real)
    requires WellFormed(env.registry) && AllInBounds(writes) && GoodEvents([Completed(number, writes)])
    ensures HandleEvents(env, sys, [Completed(number, writes)], now) == FrameDone(env, sys, writes, now)
  {
    hide WellFormed, FrameDone;
    assert [Completed(number, writes)][1..] == [];
  }

  /** What a byte of the sync value does: nothing yet, a new frame, or the end of one. */
  lemma {:induction false} SyncByte(env: Env, sys: System, now: real)
    requires WellFormed(env.registry) && ValidParser(sys.parser)
    ensures
      var after, p := ByteIn(env, sys, SYNC_BYTE, now), sys.parser;
      && AllInBounds(p.frameWrites)
      && if p.syncRun + 1 < SYNC_LENGTH then after.client == sys.client && after.parser.frameWrites == p.frameWrites
         else
           && after.parser.frameWrites == []
           && if p.frameStarted && p.phase == AddressLow then
                var updated := UpdateAircraft(env.registry, sys.client, p.frameWrites);
                after.client.space == updated.space && after.client.aircraft == updated.aircraft
              else after.client == sys.client
  {
    hide WellFormed, FrameDone, UpdateAircraft;
    var fed := sys.parser.(events := []);
    FeedByteKeepsValid(fed, SYNC_BYTE, now);
    var parser := FeedByte(fed, SYNC_BYTE, now);
    var next := sys.(parser := parser);
    assert AllInBounds(sys.parser.frameWrites);
    if parser.events != [] {
      assert parser.events == [Completed(fed.frameCount + 1, fed.frameWrites)] && parser.events[1..] == [];
      FrameDoneClient(env, next, fed.frameWrites, now);
      OneFrame(env, next, fed.frameCount + 1, fed.frameWrites, now);
    }
    hide ValidParser;
  }

  ghost predicate NoneCompleted(events: seq<Event>) {
    forall e :: e in events ==> !e.Completed?
  }

  lemma ConsumeCompletesNothing(p: Parser, b: byte, at: real)
    requires ValidParser(p) && NoneCompleted(p.events)
    ensures NoneCompleted(Consume(p, b, at).events)
  {
  }

  lemma {:induction false} ReleaseCompletesNothing(p: Parser, at: real)
    requires ValidParser(p) && NoneCompleted(p.events)
    ensures NoneCompleted(Release(p, at).events)
    decreases p.syncRun
  {
    if p.syncRun > 0 {
      ConsumeCompletesNothing(p, SYNC_BYTE, at);
      ConsumeKeepsValid(p, SYNC_BYTE, at);
      ReleaseCompletesNothing(Consume(p, SYNC_BYTE, at).(syncRun := p.syncRun - 1), at);
    }
  }

  /** Only the last byte of a marker completes a frame. */
  lemma {:induction false} OnlySyncCompletes(sys: System, b: byte, now: real)
    requires ValidParser(sys.parser) && CompletesNow(sys, b, now)
    ensures b == SYNC_BYTE && sys.parser.syncRun + 1 >= SYNC_LENGTH
    ensures sys.parser.frameStarted && sys.parser.phase == AddressLow
  {
    if b != SYNC_BYTE {
      var fed := sys.parser.(events := []);
      ReleaseCompletesNothing(fed, now);
      ReleaseKeepsValid(fed, now);
      ConsumeCompletesNothing(Release(fed, now), b, now);
      hide ValidParser, Release, Consume;
    }
  }

  lemma {:induction false} FlushKeepsContents(env: Env, sys: System, now: real)
    requires WellFormed(env.registry) && sys.publisher.pending.Valid()
    ensures FlushNow(env, sys, now).parser == sys.parser
            && SameContents(FlushNow(env, sys, now).client.space, sys.client.space)
  {
    hide WellFormed, NoDuplicates, ReadAll, Flush, SendInitial, Stale, RefreshDue;
  }

  lemma {:induction false} ConnectKeepsContents(env: Env, sys: System, now: real)
    requires WellFormed(env.registry)
    ensures LinkReady(env, sys, now).parser == sys.parser
            && SameContents(LinkReady(env, sys, now).client.space, sys.client.space)
  {
    hide WellFormed, ReadAll, BeginEpoch;
  }

  lemma {:induction false} OtherStepsReflect(env: Env, sys: System, step: Step)
    requires Inv(env, sys) && !step.Byte?
    ensures Sane(env, sys) && Advance(env, sys, step).parser == sys.parser
    ensures SameContents(Advance(env, sys, step).client.space, sys.client.space)
  {
    hide Inv, WellFormed, Good, FlushNow, LinkReady, Accept, ApplyBatch, Stale;
    InvIsWellFormed(env, sys);
    match step
    case FlushStep(now) => FlushKeepsContents(env, sys, now);
    case Connect(now) => ConnectKeepsContents(env, sys, now);
    case _ =>
  }

  lemma {:induction false} StepReflects(env: Env, sys: System, step: Step)
    requires Inv(env, sys) && Reflects(sys.client.space, sys.parser.frameWrites)
    ensures Sane(env, sys) && Reflects(Advance(env, sys, step).client.space, Advance(env, sys, step).parser.frameWrites)
  {
    InvIsWellFormed(env, sys);
    hide Inv, WellFormed, Good, ValidParser, ByteIn, FlushNow, CheckTimeout, BackendReceives, LinkReady, UpdateAircraft;
    match step
    case Byte(b, now) =>
      if b == SYNC_BYTE {
        SyncByte(env, sys, now);
      } else {
        ByteInReflects(env, sys, b, now);
      }
    case _ => OtherStepsReflect(env, sys, step);
  }

  /** In every run, whatever happens, the buffer holds the bytes of the writes of the frame under way. */
  lemma {:induction false} RunReflects(env: Env, sys: System, steps: seq<Step>)
    requires Inv(env, sys) && LinkSide(sys) && Reflects(sys.client.space, sys.parser.frameWrites)
    ensures Sane(env, sys)
    ensures
      var end := PipelineSafety.Run(env, sys, steps);
      Reflects(end.client.space, end.parser.frameWrites)
    decreases |steps|
  {
    InvIsWellFormed(env, sys);
    hide Inv, LinkSide, Reflects, Advance, Sane;
    if steps != [] {
      StepReflects(env, sys, steps[0]);
      StepKeepsInv(env, sys, steps[0]);
      RunReflects(env, Advance(env, sys, steps[0]), steps[1..]);
    }
  }
}
