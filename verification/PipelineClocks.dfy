/**
  What the times of a run's steps decide: when the client gives the simulator up, and when a flush refreshes
  values that have not changed.

  A `Clock` is computed from the run alone: the time of the last completed frame, whether the client has heard
  of the simulator since it last gave it up, and the time the epoch under way last took a snapshot, to open or
  to refresh. The source keeps the deadline of the next refresh instead.
 */
module PipelineClocks {
  import opened Wrappers
  import opened InsertionDict
  import opened Wire
  import opened Ingress
  import opened RawStore
  import opened BiosState
  import opened BiosProtocol
  import opened BiosRegistry
  import opened BiosClient
  import opened Connection
  import opened Publisher
  import opened Delivery
  import opened Mirror
  import opened Coalescing
  import opened Pipeline
  import opened PipelineSafety
  import opened PipelineRuns

  datatype Clock = Clock(frameAt: Option<real>, heard: bool, snapshotAt: Option<real>)

  function Unwound(): Clock {
    Clock(None, false, None)
  }

  /** No frame was completed for longer than the timeout. */
  predicate Silent(env: Env, c: Clock, now: real) {
    c.heard && c.frameAt.Some? && now - c.frameAt.value > env.staleTimeout
  }

  /** The epoch's last snapshot is at least an interval old. */
  predicate Elapsed(env: Env, c: Clock, now: real) {
    c.snapshotAt.Some? && now >= c.snapshotAt.value + env.cfg.refreshInterval
  }

  /** A step that begins an epoch takes its snapshot; one that ends it leaves none. */
  function EpochSnapshot(before: System, after: System, c: Clock, now: real): Clock {
    if after.publisher.epoch == before.publisher.epoch then c
    else c.(snapshotAt := if after.publisher.epoch.Some? then Some(now) else None)
  }

  ghost function Tick(env: Env, before: System, after: System, c: Clock, step: Step): Clock {
    match step
    case Byte(b, now) =>
      var seen := if CompletesNow(before, b, now) then c.(frameAt := Some(now), heard := true) else c;
      EpochSnapshot(before, after, seen, now)
    case Timeout(now) => if Silent(env, c, now) then c.(heard := false, snapshotAt := None) else c
    case FlushStep(now) =>
      if before.publisher.epoch.None? || after.publisher.initial != [] || !Elapsed(env, c, now) then c
      else if Silent(env, c, now) then c.(heard := false, snapshotAt := None)
      else if c.heard then c.(snapshotAt := Some(now))
      else c
    case Drop => c.(snapshotAt := None)
    case Connect(now) => EpochSnapshot(before, after, c, now)
    case _ => c
  }

  ghost function Ticked(env: Env, sys: System, c: Clock, steps: seq<Step>): Clock
    requires Sane(env, sys)
    decreases |steps|
  {
    if steps == [] then c
    else
      StepKeepsSane(env, sys, steps[0]);
      var next := Advance(env, sys, steps[0]);
      Ticked(env, next, Tick(env, sys, next, c, steps[0]), steps[1..])
  }

  ghost function ClockAfter(env: Env, steps: seq<Step>): Clock
    requires Usable(env)
  {
    StartSane(env);
    Ticked(env, Start(env), Unwound(), steps)
  }

  // ----- the deadline kept by the publisher is the clock's

  function Deadline(env: Env, c: Clock): Option<real> {
    if c.snapshotAt.Some? then Some(c.snapshotAt.value + env.cfg.refreshInterval) else None
  }

  ghost predicate Tells(env: Env, sys: System, c: Clock) {
    && sys.client.latestFrameAt == c.frameAt && sys.client.connected == c.heard && (c.heard ==> c.frameAt.Some?)
    && (sys.publisher.epoch.Some? <==> c.snapshotAt.Some?)
    && sys.publisher.nextRefreshAt == Deadline(env, c)
    && (sys.publisher.epoch.Some? ==> sys.publisher.epoch.value < sys.nextEpoch)
    && (sys.publisher.epoch.Some? ==> sys.publisher.sessionActive)
  }

  /** How a step moves frame time and epoch; `framed` when it completes a frame. */
  ghost predicate Moves(env: Env, before: System, after: System, now: real, framed: bool) {
    && after.client.latestFrameAt == (if framed then Some(now) else before.client.latestFrameAt)
    && after.client.connected == (framed || before.client.connected)
    && after.nextEpoch >= before.nextEpoch && after.publisher.sessionActive == before.publisher.sessionActive
    && (|| (after.publisher.epoch == before.publisher.epoch
            && after.publisher.nextRefreshAt == before.publisher.nextRefreshAt)
        || (after.publisher.epoch.None? && after.publisher.nextRefreshAt.None?)
        || (&& after.publisher.epoch.Some? && before.nextEpoch <= after.publisher.epoch.value < after.nextEpoch
            && after.publisher.sessionActive
            && after.publisher.nextRefreshAt == Some(now + env.cfg.refreshInterval)))
  }

  lemma MovesOn(env: Env, a: System, b: System, c: System, now: real, framed: bool, framed': bool)
    requires Moves(env, a, b, now, framed) && Moves(env, b, c, now, framed')
    ensures Moves(env, a, c, now, framed || framed')
  {
  }

  lemma MovedClock(env: Env, before: System, after: System, c: Clock, now: real, framed: bool)
    requires Tells(env, before, c) && Moves(env, before, after, now, framed)
    ensures
      var seen := if framed then c.(frameAt := Some(now), heard := true) else c;
      Tells(env, after, EpochSnapshot(before, after, seen, now))
  {
  }

  lemma {:induction false} ReportsMove(cfg: Config, p: Publisher.State, changes: seq<Change>)
    ensures
      var q := ControlsChanged(cfg, p, changes);
      && q.epoch == p.epoch && q.nextRefreshAt == p.nextRefreshAt && q.sessionActive == p.sessionActive
      && q.initial == p.initial
    decreases |changes|
  {
    if changes != [] {
      ReportsMove(cfg, ControlChanged(cfg, p, changes[0]), changes[1..]);
    }
  }

  lemma BeginMoves(env: Env, sys: System, now: real)
    requires WellFormed(env.registry)
    ensures Moves(env, sys, Begin(env, sys, now), now, false)
  {
    hide WellFormed, ReadAll, Opening, CatalogOf, Active;
  }

  lemma {:induction false} FrameDoneMoves(env: Env, sys: System, frame: seq<Stamped>, now: real)
    requires WellFormed(env.registry) && AllInBounds(frame)
    ensures Moves(env, sys, FrameDone(env, sys, frame, now), now, true)
  {
    hide WellFormed, AllInBounds, Begin, NamedAircraft, BiosState.AppliedAll, Report, ControlsChanged, AircraftName,
      Due;
    var seen := sys.(client := sys.client.(latestFrameAt := Some(now), connected := true));
    var client := UpdateAircraft(env.registry, seen.client, frame);
    BeginMoves(env, seen.(client := client, since := frame), now);
    var followed := FollowAircraft(env, seen, frame, now);
    ReportsMove(env.cfg, followed.publisher, EmitControlChanges(env.registry, followed.client).1);
  }

  lemma {:induction false} EventsMove(env: Env, sys: System, events: seq<Event>, now: real)
    requires WellFormed(env.registry) && GoodEvents(events)
    ensures Moves(env, sys, HandleEvents(env, sys, events, now), now, exists e :: e in events && e.Completed?)
    decreases |events|
  {
    hide WellFormed, FrameDone, OnWrite, Moves;
    if events == [] {
      StaysPut(env, sys, now);
    } else {
      var e, rest := events[0], events[1..];
      assert e in events && forall x :: x in events <==> x == e || x in rest;
      match e
      case Wrote(w) =>
        WrittenMoves(env, sys, w, now);
        EventsMove(env, Written(env, sys, w), rest, now);
        MovesOn(env, sys, Written(env, sys, w), HandleEvents(env, sys, events, now), now, false,
                exists x :: x in rest && x.Completed?);
      case Completed(_, writes) =>
        var next := FrameDone(env, sys, writes, now);
        FrameDoneMoves(env, sys, writes, now);
        EventsMove(env, next, rest, now);
        MovesOn(env, sys, next, HandleEvents(env, sys, events, now), now, true, exists x :: x in rest && x.Completed?);
    }
  }

  lemma StaysPut(env: Env, sys: System, now: real)
    ensures Moves(env, sys, sys, now, false)
  {
  }

  lemma WrittenMoves(env: Env, sys: System, w: Stamped, now: real)
    requires InBounds(w.write)
    ensures Moves(env, sys, Written(env, sys, w), now, false)
  {
    hide BiosState.Applied, Changes;
  }

  /** Of the events of one byte, only the last can complete a frame. */
  lemma {:induction false} OneByteCompletes(sys: System, b: byte, now: real)
    ensures
      var events := FeedByte(sys.parser.(events := []), b, now).events;
      CompletesNow(sys, b, now) <==> exists e :: e in events && e.Completed?
  {
    var p := sys.parser.(events := []);
    ReleaseOnlyWrites(p, now);
    hide Release;
  }

  lemma {:induction false} ReleaseOnlyWrites(p: Parser, at: real)
    requires forall e :: e in p.events ==> e.Wrote?
    ensures forall e :: e in Release(p, at).events ==> e.Wrote?
    decreases p.syncRun
  {
    if p.syncRun > 0 {
      ReleaseOnlyWrites(Consume(p, SYNC_BYTE, at).(syncRun := p.syncRun - 1), at);
    }
  }

  lemma {:induction false} ByteMoves(env: Env, sys: System, b: byte, now: real)
    requires WellFormed(env.registry) && ValidParser(sys.parser)
    ensures Moves(env, sys, ByteIn(env, sys, b, now), now, CompletesNow(sys, b, now))
  {
    hide WellFormed, HandleEvents, FeedByte, ValidParser, CompletesNow;
    FedIsValid(sys.parser, b, now);
    OneByteCompletes(sys, b, now);
    var parser := FeedByte(sys.parser.(events := []), b, now);
    EventsMove(env, sys.(parser := parser), parser.events, now);
  }

  // ----- flushing

  lemma QueuePendingMoves(p: Publisher.State, link: Link)
    requires p.pending.Valid()
    ensures
      var (q, _) := FlushPending(p, link);
      q == p.(pending := q.pending, nextSequence := q.nextSequence)
  {
    hide Selected, PopHeads, Heads, Send;
  }

  lemma {:induction false} FlushMoves(env: Env, sys: System, c: Clock, now: real)
    requires Sane(env, sys) && Tells(env, sys, c)
    ensures
      var after := FlushNow(env, sys, now);
      Tells(env, after, Tick(env, sys, after, c, FlushStep(now)))
  {
    hide WellFormed, ValidParser, Stream, SendInitial, NoDuplicates, ReadAll, Selected, PopHeads, Heads, Send,
      FlushPending;
    var (asked, reply) := AskClient(env, sys, now);
    var (initial, link) := SendInitial(sys.publisher.initial, sys.link);
    var p := sys.publisher.(initial := initial);
    if reply.Connected? {
      var q := p.(nextRefreshAt := Some(now + env.cfg.refreshInterval));
      QueueAllKeepsIdentity(env.cfg, q, ValuesOf(reply.snapshot));
      QueueAllKeepsValid(env.cfg, q, ValuesOf(reply.snapshot));
    }
    var refreshed := Refresh(env.cfg, p, now, reply);
    EmptyIsValid<Identity, seq<DecodedValue>>();
    QueuePendingMoves(refreshed, link);
    hide QueueAll;
  }

  lemma {:induction false} StepTells(env: Env, sys: System, c: Clock, step: Step)
    requires Sane(env, sys) && Tells(env, sys, c)
    ensures
      var after := Advance(env, sys, step);
      Tells(env, after, Tick(env, sys, after, c, step))
  {
    SaneParts(env, sys);
    match step
    case Byte(b, now) =>
      ByteMoves(env, sys, b, now);
      MovedClock(env, sys, ByteIn(env, sys, b, now), c, now, CompletesNow(sys, b, now));
    case FlushStep(now) => FlushMoves(env, sys, c, now);
    case Connect(now) =>
      if !sys.link.ready {
        BeginMoves(env, NewSession(sys), now);
      }
      ConnectTells(env, sys, c, now);
    case _ => QuietTells(env, sys, c, step);
  }

  lemma ConnectTells(env: Env, sys: System, c: Clock, now: real)
    requires Sane(env, sys) && Tells(env, sys, c)
    ensures
      var after := LinkReady(env, sys, now);
      Tells(env, after, Tick(env, sys, after, c, Step.Connect(now)))
  {
    hide WellFormed, ValidParser, Stream, ReadAll, Opening, CatalogOf, Active, NoDuplicates;
  }

  lemma QuietTells(env: Env, sys: System, c: Clock, step: Step)
    requires Sane(env, sys) && Tells(env, sys, c)
    requires step.Timeout? || step.Other? || step.Writer? || step.Arrive? || step.Drop?
    ensures
      var after := Advance(env, sys, step);
      Tells(env, after, Tick(env, sys, after, c, step))
  {
    hide WellFormed, ValidParser, Stream, Accept, ApplyBatch, Send, NoDuplicates;
  }

  lemma {:induction false} RunTells(env: Env, sys: System, c: Clock, steps: seq<Step>)
    requires Sane(env, sys) && Tells(env, sys, c)
    ensures Tells(env, PipelineSafety.Run(env, sys, steps), Ticked(env, sys, c, steps))
    decreases |steps|
  {
    hide Sane, Tells, Advance, Tick;
    if steps != [] {
      StepKeepsSane(env, sys, steps[0]);
      StepTells(env, sys, c, steps[0]);
      var next := Advance(env, sys, steps[0]);
      RunTells(env, next, Tick(env, sys, next, c, steps[0]), steps[1..]);
    }
  }

  lemma AfterTells(env: Env, steps: seq<Step>)
    requires Usable(env)
    ensures Tells(env, After(env, steps), ClockAfter(env, steps))
  {
    hide Sane, Advance, Tick;
    StartSane(env);
    RunTells(env, Start(env), Unwound(), steps);
  }

  // ----- what a flush carries

  /** The control's value now, stamped with the oldest of its bytes. */
  function Current(d: Definition, s: Space): DecodedValue
    requires Located(d)
  {
    DecodedValue(IdentityOf(d), true, Decode(d, s), Millis(Oldest(s, d.address, ByteLength(d))))
  }

  /** The values in the deltas of these frames. */
  function DeltaValues(frames: seq<Frame>): seq<DecodedValue>
    decreases |frames|
  {
    if frames == [] then []
    else
      var front, last := DeltaValues(frames[..|frames| - 1]), frames[|frames| - 1];
      if last.TelemetryFrame? && last.message.Delta? then front + last.message.values else front
  }

  /** What a flush put into the outbound queue behind the opening. */
  function BehindOpening(before: System, after: System): seq<Frame> {
    var n := |before.link.outbound| + |before.publisher.initial|;
    if n <= |after.link.outbound| then after.link.outbound[n..] else []
  }

  /** The values of one control that a flush sent, followed by those it left queued. */
  function Carried(before: System, after: System, id: Identity): seq<DecodedValue> {
    Of(DeltaValues(BehindOpening(before, after)), id) + QueueOf(after.publisher, id)
  }

  lemma {:induction false} OpeningSent(initial: seq<Message>, link: Link)
    ensures
      var (rest, after) := SendInitial(initial, link);
      && |after.outbound| + |rest| == |link.outbound| + |initial|
      && link.outbound <= after.outbound
    decreases |initial|
  {
    if initial != [] {
      var (next, queued) := Send(link, TelemetryFrame(initial[0]));
      if queued {
        OpeningSent(initial[1..], next);
      }
    }
  }

  lemma {:induction false} QueueAllEnds(r: Registry, cfg: Config, p: Publisher.State, values: seq<DecodedValue>)
    requires SoundMetadata(r) && cfg.maxPendingControls >= MAX_SESSION_CONTROLS
    requires p.aircraft.Some? && p.catalog == CatalogFor(r, p.aircraft.value)
    requires p.pending.Valid() && QueuesAreSound(p.pending.at, p.catalog)
    requires DistinctValues(values) && AllChecked(p.catalog, values)
    requires forall v :: v in values ==> v.available && v.value.Some?
    ensures
      var q := QueueAll(cfg, p, values);
      && q.pending.Valid() && QueuesAreSound(q.pending.at, p.catalog)
      && (forall v :: v in values ==>
            QueueOf(q, v.identity) != [] && QueueOf(q, v.identity)[|QueueOf(q, v.identity)| - 1] == v)
      && (forall id :: (forall v :: v in values ==> v.identity != id) ==> QueueOf(q, id) == QueueOf(p, id))
    decreases |values|
  {
    hide SoundMetadata, CatalogFor, QueuesAreSound, QueueValue, ValueIsLegal, Checked, NoDuplicates, AllChecked,
      DistinctValues;
    if values != [] {
      var v, rest := values[0], values[1..];
      FirstValue(p.catalog, values);
      QueueKeepsSound(r, cfg, p, v);
      var next := QueueValue(cfg, p, v);
      QueueAllEnds(r, cfg, next, rest);
    }
  }

  lemma FirstValue(catalog: map<Identity, CatalogEntry>, values: seq<DecodedValue>)
    requires values != [] && DistinctValues(values) && AllChecked(catalog, values)
    ensures
      var v, rest := values[0], values[1..];
      && DistinctValues(rest) && AllChecked(catalog, rest) && ValueIsLegal(v) && Checked(catalog, v)
      && (forall x :: x in values <==> x == v || x in rest)
      && (forall x :: x in rest ==> x.identity != v.identity)
  {
    hide ValueIsLegal, Checked;
    assert values == [values[0]] + values[1..];
    DistinctValueSplit([values[0]], values[1..]);
    assert values[0] in [values[0]];
  }

  /** A delta takes the oldest value of each chosen control and sends it, or nothing changes. */
  lemma {:induction false} PendingIsCarried(p: Publisher.State, link: Link, id: Identity)
    requires p.pending.Valid() && Coalescing.Keyed(p.pending.at)
    ensures
      var (q, l) := FlushPending(p, link);
      && link.outbound <= l.outbound
      && Of(DeltaValues(l.outbound[|link.outbound|..]), id) + QueueOf(q, id) == QueueOf(p, id)
  {
    hide Selected, PopHeads, Heads, NoDuplicates, Of, Coalescing.Keyed;
    OfNothing(id);
    match NextDelta(p)
    case None => assert link.outbound[|link.outbound|..] == [];
    case Some((ids, delta)) =>
      SelectedAreQueued(p.pending.keys, p.pending.at, MAX_VALUES);
      var (l, queued) := Send(link, TelemetryFrame(delta));
      if queued {
        assert l.outbound[|link.outbound|..] == [TelemetryFrame(delta)];
        OneDelta(delta);
        PoppedQueues(p.pending, ids);
        HeadsOf(ids, p.pending.at, id);
      } else {
        assert l.outbound[|link.outbound|..] == [];
      }
  }

  lemma OfNothing(id: Identity)
    ensures Of([], id) == [] && DeltaValues([]) == [] && forall s: seq<DecodedValue> :: [] + s == s
  {
  }

  lemma OneDelta(m: Message)
    requires m.Delta?
    ensures DeltaValues([TelemetryFrame(m)]) == m.values
  {
    assert [TelemetryFrame(m)][..0] == [];
  }

  lemma HeadsOf(ids: seq<Identity>, queues: Queues, id: Identity)
    requires Coalescing.Keyed(queues) && NoDuplicates(ids) && forall k :: k in ids ==> k in queues
    ensures Of(Heads(ids, queues), id) == if id in ids then [queues[id][0]] else []
    ensures id in ids ==> [queues[id][0]] + queues[id][1..] == queues[id]
  {
    hide Heads, NoDuplicates, Of;
    OfHeads(ids, queues, id);
  }

  lemma SoundQueuesAreKeyed(queues: Queues, catalog: map<Identity, CatalogEntry>)
    requires QueuesAreSound(queues, catalog)
    ensures Coalescing.Keyed(queues)
  {
    forall k | k in queues ensures queues[k] != [] && forall v :: v in queues[k] ==> v.identity == k {
      assert QueueIsSound(queues[k], k, catalog);
    }
  }

  lemma CurrentIsRead(d: Definition, s: Space)
    requires Located(d) && Decode(d, s).Some?
    ensures Read(d, s).Some? && ValueOf(Read(d, s).value) == Current(d, s)
  {
  }

  /** The snapshot a refresh queues: legal values, one for each decodable control, with what it shows now. */
  lemma {:induction false} SnapshotIsCurrent(r: Registry, aircraft: string, s: Space, decoded: map<Definition, Reading>)
    requires SoundMetadata(r) && 0 < |aircraft| <= 64
    ensures
      var controls := Active(r, Some(aircraft));
      var values := ValuesOf(ReadAll(s, decoded, controls).1);
      && DistinctValues(values) && AllChecked(CatalogFor(r, aircraft), values)
      && (forall v :: v in values ==> v.available && v.value.Some?)
      && (forall d :: d in controls && Decode(d, s).Some? ==> Current(d, s) in values)
  {
    var controls := Active(r, Some(aircraft));
    var values := ValuesOf(ReadAll(s, decoded, controls).1);
    OpeningIsPublishable(r, aircraft, s, decoded);
    ActiveIsDistinct(r, Some(aircraft));
    SnapshotValues(s, decoded, controls);
    forall v | v in values ensures v.available && v.value.Some? {
      assert IsReadOf(v, controls, s);
    }
    forall d | d in controls && Decode(d, s).Some? ensures Current(d, s) in values {
      CurrentIsRead(d, s);
    }
  }

  /**
    A flush that has sent the whole opening: when a refresh is due each decodable control ends with what it shows
    now, sent or queued; otherwise what is sent and queued for a control is what was queued before.
   */
  lemma {:induction false} FlushCarries(env: Env, sys: System, c: Clock, now: real, d: Definition)
    requires Inv(env, sys) && Tells(env, sys, c) && sys.publisher.epoch.Some?
    requires FlushNow(env, sys, now).publisher.initial == [] && c.heard && !Silent(env, c, now)
    requires d in Active(env.registry, sys.client.aircraft)
    ensures
      var carried := Carried(sys, FlushNow(env, sys, now), IdentityOf(d));
      && Located(d)
      && if Elapsed(env, c, now) && Decode(d, sys.client.space).Some? then
           carried != [] && carried[|carried| - 1] == Current(d, sys.client.space)
         else carried == QueueOf(sys.publisher, IdentityOf(d))
  {
    hide Inv, Tells, Elapsed, Silent, FlushNow, Current, Decode, Carried, Sane;
    InvLive(env, sys);
    ActiveIsLocated(env.registry, sys.client.aircraft);
    StagesCarry(env, sys, c, now, d);
  }

  /** The flush's stages: what the refresh queues, and what the delta moves. */
  lemma {:induction false} StagesCarry(env: Env, sys: System, c: Clock, now: real, d: Definition)
    requires Inv(env, sys) && Tells(env, sys, c) && sys.publisher.epoch.Some?
    requires FlushNow(env, sys, now).publisher.initial == [] && c.heard && !Silent(env, c, now)
    requires d in Active(env.registry, sys.client.aircraft) && Located(d)
    ensures
      var carried := Carried(sys, FlushNow(env, sys, now), IdentityOf(d));
      if Elapsed(env, c, now) && Decode(d, sys.client.space).Some? then
        carried != [] && carried[|carried| - 1] == Current(d, sys.client.space)
      else carried == QueueOf(sys.publisher, IdentityOf(d))
  {
    hide Inv, Tells, Current, Decode, SendInitial, FlushNow, WellFormed, NoDuplicates, QueueAll, ReadAll, Carried,
      Elapsed, Silent, Refreshed;
    InvIsWellFormed(env, sys);
    InvLive(env, sys);
    FlushSendsOpening(env, sys, now);
    InitialSentKeepsInv(env, sys);
    InitialSentIsEarly(env, sys, c, now);
    RefreshQueues(env, InitialSent(sys), c, now, d);
    PendingLeaves(env, sys, now, IdentityOf(d));
  }

  lemma InitialSentIsEarly(env: Env, sys: System, c: Clock, now: real)
    requires Tells(env, sys, c)
    ensures
      var sent := InitialSent(sys);
      && Tells(env, sent, c) && sent.client == sys.client && sent.publisher.epoch == sys.publisher.epoch
      && sent.publisher.pending == sys.publisher.pending
  {
    hide SendInitial;
  }

  /** What is queued after the refresh is what the flush carries. */
  lemma {:induction false} PendingLeaves(env: Env, sys: System, now: real, id: Identity)
    requires Inv(env, sys) && WellFormed(env.registry) && sys.publisher.epoch.Some? && sys.publisher.pending.Valid()
    requires FlushNow(env, sys, now).publisher.initial == []
    requires
      var q := Refreshed(env, InitialSent(sys), now).publisher;
      q.epoch.Some? && q.pending.Valid() && QueuesAreSound(q.pending.at, q.catalog)
    ensures
      Carried(sys, FlushNow(env, sys, now), id) == QueueOf(Refreshed(env, InitialSent(sys), now).publisher, id)
  {
    hide Inv, Of, DeltaValues, SendInitial, FlushNow, WellFormed, NoDuplicates, QueueAll, ReadAll, FlushPending,
      QueuesAreSound;
    InvLive(env, sys);
    FlushIsStaged(env, sys, now);
    OpeningSent(sys.publisher.initial, sys.link);
    FlushSendsOpening(env, sys, now);
    var sent := InitialSent(sys);
    var refreshed := Refreshed(env, sent, now);
    RefreshedLink(env, sent, now);
    SoundQueuesAreKeyed(refreshed.publisher.pending.at, refreshed.publisher.catalog);
    PendingIsCarried(refreshed.publisher, refreshed.link, id);
  }

  /** A flush that leaves no opening has sent it whole. */
  lemma FlushSendsOpening(env: Env, sys: System, now: real)
    requires Inv(env, sys) && sys.publisher.epoch.Some?
    requires WellFormed(env.registry) && sys.publisher.pending.Valid()
             && FlushNow(env, sys, now).publisher.initial == []
    ensures InitialSent(sys).publisher.initial == []
  {
    hide Inv, WellFormed, NoDuplicates;
    InvLive(env, sys);
    FlushIsStaged(env, sys, now);
    hide FlushNow;
  }

  lemma LiveHolds(env: Env, sys: System)
    requires Inv(env, sys) && sys.publisher.epoch.Some?
    ensures
      var p := sys.publisher;
      && SoundMetadata(env.registry) && env.cfg.maxPendingControls >= MAX_SESSION_CONTROLS && WellFormed(env.registry)
      && sys.client.aircraft == p.aircraft && p.aircraft.Some? && 0 < |p.aircraft.value| <= 64
      && p.catalog == CatalogFor(env.registry, p.aircraft.value)
      && p.pending.Valid() && QueuesAreSound(p.pending.at, p.catalog)
  {
    hide Deliver, Good, ValidParser, Backed, EpochsBelow, OnlySince, Agrees, ReadyFor, Tracks, Complete, QueuesAreSound,
      CatalogFor, ModulesOf, NoDuplicates;
  }

  lemma RefreshedIs(env: Env, sys: System, c: Clock, now: real)
    requires WellFormed(env.registry) && Tells(env, sys, c) && c.heard && !Silent(env, c, now)
             && sys.publisher.epoch.Some?
    ensures
      var p := sys.publisher.(nextRefreshAt := Some(now + env.cfg.refreshInterval));
      Refreshed(env, sys, now).publisher ==
      if Elapsed(env, c, now) then QueueAll(env.cfg, p, ValuesOf(DecodedSnapshot(env.registry, sys.client).1))
      else sys.publisher
  {
    hide WellFormed, QueueAll, ReadAll;
  }

  lemma {:induction false} RefreshQueues(env: Env, sys: System, c: Clock, now: real, d: Definition)
    requires Inv(env, sys) && Tells(env, sys, c) && sys.publisher.epoch.Some? && c.heard && !Silent(env, c, now)
    requires d in Active(env.registry, sys.client.aircraft) && Located(d) && WellFormed(env.registry)
    ensures
      var q := Refreshed(env, sys, now).publisher;
      && q.epoch.Some? && q.pending.Valid() && QueuesAreSound(q.pending.at, q.catalog)
      && var queue := QueueOf(q, IdentityOf(d));
         if Elapsed(env, c, now) && Decode(d, sys.client.space).Some? then
           queue != [] && queue[|queue| - 1] == Current(d, sys.client.space)
         else queue == QueueOf(sys.publisher, IdentityOf(d))
  {
    hide Inv, Tells, Elapsed, Silent, Refreshed, Current, Decode, QueueAll, ReadAll, QueuesAreSound, CatalogFor,
      SoundMetadata, WellFormed, NoDuplicates, DistinctValues, AllChecked, Active;
    LiveHolds(env, sys);
    RefreshedIs(env, sys, c, now);
    var r, aircraft := env.registry, sys.client.aircraft.value;
    var p := sys.publisher.(nextRefreshAt := Some(now + env.cfg.refreshInterval));
    var values := ValuesOf(DecodedSnapshot(r, sys.client).1);
    SnapshotIsCurrent(r, aircraft, sys.client.space, sys.client.decoded);
    QueueAllEnds(r, env.cfg, p, values);
    QueueAllKeepsIdentity(env.cfg, p, values);
    if Decode(d, sys.client.space).None? {
      NotInSnapshot(r, sys.client, d);
    } else {
      CurrentNames(d, sys.client.space);
    }
  }

  lemma CurrentNames(d: Definition, s: Space)
    requires Located(d)
    ensures Current(d, s).identity == IdentityOf(d)
  {
  }

  lemma {:induction false} NotInSnapshot(r: Registry, c: Client, d: Definition)
    requires WellFormed(r) && d in Active(r, c.aircraft) && Located(d) && Decode(d, c.space).None?
    ensures forall v :: v in ValuesOf(DecodedSnapshot(r, c).1) ==> v.identity != IdentityOf(d)
  {
    ActiveIsDistinct(r, c.aircraft);
    SnapshotValues(c.space, c.decoded, Active(r, c.aircraft));
    NoValueFor(r, Active(r, c.aircraft), ValuesOf(DecodedSnapshot(r, c).1), c.space, d);
  }

  // ----- when an epoch is live

  /** The publisher's session is the connection's, and an epoch is live exactly while it names an aircraft. */
  ghost predicate Attended(sys: System) {
    && sys.publisher.sessionActive == sys.link.ready
    && (sys.publisher.epoch.Some? <==> sys.link.ready && sys.client.aircraft.Some?)
  }

  lemma {:induction false} FrameDoneAttended(env: Env, sys: System, frame: seq<Stamped>, now: real)
    requires WellFormed(env.registry) && AllInBounds(frame) && Attended(sys)
    ensures Attended(FrameDone(env, sys, frame, now))
  {
    hide WellFormed, AllInBounds, NamedAircraft, BiosState.AppliedAll, Report, ControlsChanged, AircraftName, Due,
      ReadAll, Opening, CatalogOf, Active;
    var seen := sys.(client := sys.client.(latestFrameAt := Some(now), connected := true));
    var followed := FollowAircraft(env, seen, frame, now);
    ReportsMove(env.cfg, followed.publisher, EmitControlChanges(env.registry, followed.client).1);
  }

  lemma {:induction false} EventsAttended(env: Env, sys: System, events: seq<Event>, now: real)
    requires WellFormed(env.registry) && GoodEvents(events) && Attended(sys)
    ensures Attended(HandleEvents(env, sys, events, now))
    decreases |events|
  {
    hide WellFormed, FrameDone, BiosState.Applied, InRange, Changes;
    if events != [] {
      assert events[0] in events && forall e :: e in events[1..] ==> e in events;
      match events[0]
      case Wrote(w) => EventsAttended(env, Written(env, sys, w), events[1..], now);
      case Completed(_, writes) =>
        FrameDoneAttended(env, sys, writes, now);
        EventsAttended(env, FrameDone(env, sys, writes, now), events[1..], now);
    }
  }

  lemma {:induction false} ByteAttended(env: Env, sys: System, b: byte, now: real)
    requires WellFormed(env.registry) && ValidParser(sys.parser) && Attended(sys)
    ensures Attended(ByteIn(env, sys, b, now))
  {
    hide WellFormed, ValidParser, HandleEvents, FeedByte;
    FedIsValid(sys.parser, b, now);
    var parser := FeedByte(sys.parser.(events := []), b, now);
    EventsAttended(env, sys.(parser := parser), parser.events, now);
  }

  lemma {:induction false} SendKeepsReady(initial: seq<Message>, link: Link)
    ensures SendInitial(initial, link).1.ready == link.ready
    decreases |initial|
  {
    if initial != [] && Send(link, TelemetryFrame(initial[0])).1 {
      SendKeepsReady(initial[1..], Send(link, TelemetryFrame(initial[0])).0);
    }
  }

  lemma {:induction false} FlushAttended(env: Env, sys: System, now: real)
    requires Sane(env, sys) && Attended(sys)
    ensures Attended(FlushNow(env, sys, now))
  {
    hide WellFormed, ValidParser, Stream, SendInitial, NoDuplicates, ReadAll, Selected, PopHeads, Heads;
    var (asked, reply) := AskClient(env, sys, now);
    var (initial, link) := SendInitial(sys.publisher.initial, sys.link);
    SendKeepsReady(sys.publisher.initial, sys.link);
    var p := sys.publisher.(initial := initial);
    if reply.Connected? {
      var q := p.(nextRefreshAt := Some(now + env.cfg.refreshInterval));
      QueueAllKeepsIdentity(env.cfg, q, ValuesOf(reply.snapshot));
      QueueAllKeepsValid(env.cfg, q, ValuesOf(reply.snapshot));
    }
    EmptyIsValid<Identity, seq<DecodedValue>>();
    var refreshed := Refresh(env.cfg, p, now, reply);
    QueuePendingMoves(refreshed, link);
    hide QueueAll;
  }

  lemma {:induction false} OthersAttended(env: Env, sys: System, step: Step)
    requires Sane(env, sys) && Attended(sys) && !step.Byte? && !step.FlushStep?
    ensures Attended(Advance(env, sys, step))
  {
    hide WellFormed, ValidParser, Stream, Accept, ApplyBatch, NoDuplicates, ReadAll, Opening, CatalogOf, Active;
  }

  lemma {:induction false} RunAttended(env: Env, sys: System, steps: seq<Step>)
    requires Sane(env, sys) && Attended(sys)
    ensures Attended(PipelineSafety.Run(env, sys, steps))
    decreases |steps|
  {
    hide Advance, Attended, WellFormed, ValidParser, Stream, NoDuplicates;
    if steps != [] {
      StepKeepsSane(env, sys, steps[0]);
      StepAttended(env, sys, steps[0]);
      RunAttended(env, Advance(env, sys, steps[0]), steps[1..]);
    }
  }

  lemma StepAttended(env: Env, sys: System, step: Step)
    requires Sane(env, sys) && Attended(sys)
    ensures Attended(Advance(env, sys, step))
  {
    hide Attended, WellFormed, ValidParser, Stream, NoDuplicates, ByteIn, FlushNow;
    match step
    case Byte(b, now) => ByteAttended(env, sys, b, now);
    case FlushStep(now) => FlushAttended(env, sys, now);
    case _ => OthersAttended(env, sys, step);
  }
}
