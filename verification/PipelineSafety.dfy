/**
  Every step of the pipeline keeps its invariant, and so does every run.

  The invariant speaks of one value, `Target`: the backend once it has received everything undelivered
  and the rest of the opening. Moving a message from the publisher to the queue, the wire or the ingress
  leaves that value alone; queueing a report changes only what is overlaid on it; and an aircraft change,
  a timeout or a reconnect starts again from an opening that resets whatever it reaches.
 */
module PipelineSafety {
  import opened Wrappers
  import opened InsertionDict
  import opened Wire
  import opened Ingress
  import opened RawStore
  import opened BiosState
  import opened BiosProtocol
  import opened BiosRegistry
  import opened BiosClient
  import opened Connection
  import opened Publisher
  import opened Delivery
  import opened Mirror
  import opened Pipeline

  // ----- beginning an epoch

  lemma {:induction false} EntriesAreLegal(r: Registry, aircraft: Option<string>)
    requires BoundedMetadata(r)
    ensures
      var entries := EntriesOf(Active(r, aircraft));
      DistinctEntries(entries) && |entries| <= MAX_SESSION_CONTROLS && forall e :: e in entries ==> EntryIsLegal(e)
  {
    var controls := Active(r, aircraft);
    var entries := EntriesOf(controls);
    ActiveIsDistinct(r, aircraft);
    DistinctEntryPositions(entries);
    forall e | e in entries ensures EntryIsLegal(e) {
      var i :| 0 <= i < |entries| && entries[i] == e;
      assert controls[i] in controls && controls[i] in r.definitions;
    }
  }

  lemma {:induction false} OpeningIsPublishable(r: Registry, aircraft: string, s: Space,
                                                decoded: map<Definition, Reading>)
    requires SoundMetadata(r) && 0 < |aircraft| <= 64
    ensures
      var controls := Active(r, Some(aircraft));
      Publishable(aircraft, EntriesOf(controls), ValuesOf(ReadAll(s, decoded, controls).1))
  {
    var controls := Active(r, Some(aircraft));
    ActiveIsDistinct(r, Some(aircraft));
    EntriesAreLegal(r, Some(aircraft));
    SnapshotValues(s, decoded, controls);
    var values := ValuesOf(ReadAll(s, decoded, controls).1);
    forall v | v in values ensures ValueIsLegal(v) && Checked(CatalogOf(EntriesOf(controls)), v) {
      assert IsReadOf(v, controls, s);
      var d :| d in controls && Read(d, s).Some? && v == ValueOf(Read(d, s).value);
      ReadIsChecked(r, aircraft, d, s);
    }
  }

  lemma {:induction false} CatalogMessageEpochs(epoch: nat, aircraft: string, sequence: nat,
                                                chunks: seq<seq<CatalogEntry>>, index: nat, count: nat)
    ensures forall m :: m in CatalogMessages(epoch, aircraft, sequence, chunks, index, count) ==>
            m.header.epoch == epoch
    decreases |chunks|
  {
    if chunks != [] {
      CatalogMessageEpochs(epoch, aircraft, sequence + 1, chunks[1..], index + 1, count);
    }
  }

  lemma {:induction false} SnapshotMessageEpochs(epoch: nat, aircraft: string, sequence: nat,
                                                 chunks: seq<seq<DecodedValue>>, index: nat, count: nat)
    ensures forall m :: m in SnapshotMessages(epoch, aircraft, sequence, chunks, index, count) ==>
            m.header.epoch == epoch
    decreases |chunks|
  {
    if chunks != [] {
      SnapshotMessageEpochs(epoch, aircraft, sequence + 1, chunks[1..], index + 1, count);
    }
  }

  lemma OpeningEpochs(epoch: nat, aircraft: string, entries: seq<CatalogEntry>, values: seq<DecodedValue>)
    ensures forall m :: m in Opening(epoch, aircraft, entries, values) ==> m.header.epoch == epoch
  {
    var catalogs, snapshots := ChunksToSend(entries, MAX_ENTRIES), ChunksToSend(values, MAX_VALUES);
    CatalogMessageEpochs(epoch, aircraft, 0, catalogs, 0, |catalogs|);
    SnapshotMessageEpochs(epoch, aircraft, |catalogs|, snapshots, 0, |snapshots|);
  }

  /** A snapshot delivered to an empty store agrees with what the client then reports. */
  lemma {:induction false} SnapshotAgrees(r: Registry, c: Client)
    requires Tracks(r, c)
    ensures
      var (c', changes) := DecodedSnapshot(r, c);
      Agrees(Active(r, c.aircraft), ApplyValues(map[], ValuesOf(changes)), map[], c'.decoded)
  {
    var controls := Active(r, c.aircraft);
    ActiveIsDistinct(r, c.aircraft);
    SnapshotValues(c.space, c.decoded, controls);
    ReadAllIsFresh(c.space, c.decoded, controls);
    var (c', changes) := DecodedSnapshot(r, c);
    var values := ValuesOf(changes);
    forall v | v in values ensures v.available && v.value.Some? {
      assert IsReadOf(v, controls, c.space);
    }
    forall d | d in controls
      ensures Expected(ApplyValues(map[], values), map[], IdentityOf(d)) == Lookup(c'.decoded, d)
    {
      ApplyValuesAt(map[], values, IdentityOf(d));
      if Read(d, c.space).Some? {
        assert ValueOf(Read(d, c.space).value) in values;
      } else {
        NoValueFor(r, controls, values, c.space, d);
      }
    }
  }

  lemma {:induction false} NoValueFor(r: Registry, controls: seq<Definition>, values: seq<DecodedValue>, s: Space,
                                      d: Definition)
    requires WellFormed(r) && forall e :: e in controls ==> e in r.definitions && Located(e)
    requires d in controls && Read(d, s).None?
    requires forall v :: v in values ==> IsReadOf(v, controls, s)
    ensures forall v :: v in values ==> v.identity != IdentityOf(d)
  {
    forall v | v in values ensures v.identity != IdentityOf(d) {
      assert IsReadOf(v, controls, s);
      var e :| e in controls && Read(e, s).Some? && v == ValueOf(Read(e, s).value);
      if IdentityOf(e) == IdentityOf(d) {
        DistinctIdentities(r, d, e);
      }
    }
  }

  /** Once an opening has arrived, the publisher that sent it is live. */
  lemma {:induction false} OpenedIsLive(env: Env, p: Publisher.State, c: Client, target: Backend, epoch: nat, now: real)
    requires SoundEnv(env) && p.sessionActive && c.aircraft.Some? && 0 < |c.aircraft.value| <= 64
    requires Tracks(env.registry, c) && Good(target)
    requires
      var (c', changes) := DecodedSnapshot(env.registry, c);
      var entries, values := EntriesOf(Active(env.registry, c.aircraft)), ValuesOf(changes);
      && ReadyFor(target.ingress, epoch, c.aircraft.value,
                  |ChunksToSend(entries, MAX_ENTRIES)| + |ChunksToSend(values, MAX_VALUES)|, CatalogOf(entries))
      && target.readings == ApplyValues(map[], values)
    ensures
      var (c', changes) := DecodedSnapshot(env.registry, c);
      Live(env.registry, env.cfg, BeginEpoch(env.cfg, p, c.aircraft, Active(env.registry, c.aircraft), changes, epoch,
                                             now),
           c'.decoded, target)
  {
    hide Good, ReadyFor, Agrees, SoundMetadata, NoDuplicates, Tracks, ApplyValues, ChunksToSend, CatalogOf, EntriesOf,
      ValuesOf, Opening, Active;
    SnapshotAgrees(env.registry, c);
    EmptyIsValid<Identity, seq<DecodedValue>>();
  }

  lemma {:induction false} BeginIsLive(env: Env, sys: System, now: real)
    requires SoundEnv(env) && ClientSide(env, sys) && BackendSide(sys)
    requires sys.publisher.sessionActive && sys.client.aircraft.Some?
    ensures Good(BackendOf(Begin(env, sys, now))) && Publishing(env, Begin(env, sys, now))
  {
    hide Deliver, Good, ReadyFor, Agrees, SoundMetadata, Live, OnlySince, ValidParser, Backed, BeginEpoch, Opening;
    var (client, snapshot) := DecodedSnapshot(env.registry, sys.client);
    var entries, values := EntriesOf(Active(env.registry, sys.client.aircraft)), ValuesOf(snapshot);
    var target := OpeningArrives(env, sys, entries, values);
    OpeningEpochs(sys.nextEpoch, sys.client.aircraft.value, entries, values);
    DecodedSnapshotTracks(env.registry, sys.client);
    OpenedIsLive(env, sys.publisher, sys.client, target, sys.nextEpoch, now);
    BeginShape(env, sys, now);
  }

  /** The opening of a new epoch, queued behind everything undelivered, makes any backend ready. */
  lemma {:induction false} OpeningArrives(env: Env, sys: System, entries: seq<CatalogEntry>, values: seq<DecodedValue>)
    returns (target: Backend)
    requires SoundEnv(env) && BackendSide(sys) && WellFormed(env.registry)
    requires sys.client.aircraft.Some? && 0 < |sys.client.aircraft.value| <= 64
    requires entries == EntriesOf(Active(env.registry, sys.client.aircraft))
    requires values == ValuesOf(DecodedSnapshot(env.registry, sys.client).1)
    ensures Good(target)
    ensures DeliverAll(BackendOf(sys), Undelivered(sys)
                       + Opening(sys.nextEpoch, sys.client.aircraft.value, entries, values)) == Some(target)
    ensures ReadyFor(target.ingress, sys.nextEpoch, sys.client.aircraft.value,
                     |ChunksToSend(entries, MAX_ENTRIES)| + |ChunksToSend(values, MAX_VALUES)|, CatalogOf(entries))
    ensures target.readings == ApplyValues(map[], values)
  {
    hide Deliver, Good, ReadyFor, SoundMetadata, Publishable, Opening;
    var b, aircraft := BackendOf(sys), sys.client.aircraft.value;
    var b1 := DeliverAll(b, Undelivered(sys)).value;
    var opening := Opening(sys.nextEpoch, aircraft, entries, values);
    DeliverKeepsEpochsBelow(b, Undelivered(sys), sys.nextEpoch);
    OpeningIsPublishable(env.registry, aircraft, sys.client.space, sys.client.decoded);
    DeliverOpening(b1, sys.nextEpoch, aircraft, entries, values);
    DeliverConcat(b, Undelivered(sys), opening);
    target := DeliverAll(b1, opening).value;
  }

  lemma BeginShape(env: Env, sys: System, now: real)
    requires WellFormed(env.registry) && sys.publisher.sessionActive && sys.client.aircraft.Some?
    ensures
      var (client, snapshot) := DecodedSnapshot(env.registry, sys.client);
      var controls := Active(env.registry, sys.client.aircraft);
      var after := Begin(env, sys, now);
      && after == sys.(client := client, publisher := after.publisher, nextEpoch := sys.nextEpoch + 1)
      && after.publisher == BeginEpoch(env.cfg, sys.publisher, sys.client.aircraft, controls, snapshot, sys.nextEpoch,
                                       now)
      && after.publisher.initial == Opening(sys.nextEpoch, sys.client.aircraft.value, EntriesOf(controls),
                                            ValuesOf(snapshot))
      && after.publisher.epoch == Some(sys.nextEpoch) && after.publisher.aircraft == sys.client.aircraft
      && client == sys.client.(decoded := client.decoded)
  {
  }

  lemma {:induction false} BeginKeepsInv(env: Env, sys: System, now: real)
    requires SoundEnv(env) && ClientSide(env, sys) && BackendSide(sys)
    ensures Inv(env, Begin(env, sys, now))
  {
    hide Deliver, Good;
    if sys.publisher.sessionActive && sys.client.aircraft.Some? {
      BeginIsLive(env, sys, now);
      DecodedSnapshotTracks(env.registry, sys.client);
    }
  }

  // ----- the client's steps

  lemma {:induction false} ResetKeepsInv(env: Env, sys: System, active: bool)
    requires SoundEnv(env) && ClientSide(env, sys) && BackendSide(sys)
    ensures Inv(env, sys.(publisher := Publisher.Reset(sys.publisher).(sessionActive := active)))
  {
    hide Deliver, Good, SoundMetadata;
    var after := sys.(publisher := Publisher.Reset(sys.publisher).(sessionActive := active));
    assert BackendOf(after) == BackendOf(sys) && Undelivered(after) == Undelivered(sys);
  }

  lemma {:induction false} WrittenKeepsInv(env: Env, sys: System, w: Stamped)
    requires Inv(env, sys) && InBounds(w.write)
    ensures Inv(env, Written(env, sys, w))
  {
    hide Deliver, Good, SoundMetadata, Live, ValidParser, Backed, EpochsBelow;
    OnWriteKeepsTracks(env.registry, sys.client, w);
    AppliedAllConcat(Blank(), sys.since, [w]);
    assert BiosState.AppliedAll(BiosState.AppliedAll(Blank(), sys.since), [w])
        == BiosState.Applied(BiosState.AppliedAll(Blank(), sys.since), w);
    AppliedAllVisible(sys.client.space, BiosState.AppliedAll(Blank(), sys.since), [w]);
    var after := Written(env, sys, w);
    assert BiosState.AppliedAll(sys.client.space, [w]) == BiosState.Applied(sys.client.space, w);
    assert BackendOf(after) == BackendOf(sys) && Undelivered(after) == Undelivered(sys);
    assert Publishing(env, after);
  }

  lemma NamedAircraftFits(r: Registry, s: Space)
    requires SoundMetadata(r) && AircraftName(r.definitions).Some?
    ensures
      var a := NamedAircraft(AircraftName(r.definitions).value, s);
      a.Some? ==> 0 < |a.value| <= 64
  {
  }

  lemma {:induction false} UpdateAircraftKeepsClient(env: Env, sys: System, frame: seq<Stamped>)
    requires SoundEnv(env) && ClientSide(env, sys) && AllInBounds(frame) && sys.client.connected
    ensures
      var client := UpdateAircraft(env.registry, sys.client, frame);
      client.aircraft != sys.client.aircraft ==> ClientSide(env, sys.(client := client, since := frame))
  {
    hide ValidParser;
    UpdateAircraftTracks(env.registry, sys.client, frame);
    AppliedAllVisible(Unavailable(sys.client.space), Blank(), frame);
    if AircraftName(env.registry.definitions).Some? {
      NamedAircraftFits(env.registry, sys.client.space);
    }
  }

  lemma {:induction false} FollowAircraftKeepsInv(env: Env, sys: System, frame: seq<Stamped>, now: real)
    requires Inv(env, sys) && AllInBounds(frame) && sys.client.connected
    ensures Inv(env, FollowAircraft(env, sys, frame, now))
  {
    hide Deliver, Good, SoundMetadata, ValidParser, Backed, EpochsBelow, OnlySince, Agrees;
    var client := UpdateAircraft(env.registry, sys.client, frame);
    if client.aircraft != sys.client.aircraft {
      var changed := sys.(client := client, since := frame);
      UpdateAircraftKeepsClient(env, sys, frame);
      assert BackendOf(changed) == BackendOf(sys) && Undelivered(changed) == Undelivered(sys);
      if sys.publisher.sessionActive {
        BeginKeepsInv(env, changed, now);
      }
    }
  }

  /** Every cached value is a fresh decode, and while publishing no decodable control is missing. */
  ghost predicate Fresh(env: Env, sys: System) {
    Tidy(sys.client) && (sys.publisher.epoch.Some? ==> UpToDate(env.registry, sys.client))
  }

  lemma {:induction false} ReportChangesKeepsInv(env: Env, sys: System)
    requires Inv(env, sys)
    ensures Inv(env, ReportChanges(env, sys))
    ensures Fresh(env, ReportChanges(env, sys))
  {
    hide Deliver, Good, SoundMetadata, ValidParser, Backed, EpochsBelow, OnlySince, Agrees, Live;
    EmitSettles(env.registry, sys.client);
    var (client, changes) := EmitControlChanges(env.registry, sys.client);
    var after := ReportChanges(env, sys);
    ChangesKeepIdentity(env.cfg, sys.publisher, changes);
    assert BackendOf(after) == BackendOf(sys) && Undelivered(after) == Undelivered(sys);
    if sys.publisher.epoch.Some? {
      assert Target(after) == Target(sys);
      ReportKeepsLive(env.registry, env.cfg, sys.publisher, sys.client.decoded, Target(sys).value,
                      sys.client.space, Due(env.registry, sys.client));
    } else {
      IdleIgnoresChanges(env.cfg, sys.publisher, changes);
    }
  }

  /** Queueing changes touches only the queues and their counters. */
  lemma {:induction false} ChangesKeepIdentity(cfg: Config, p: Publisher.State, changes: seq<Change>)
    ensures
      var q := ControlsChanged(cfg, p, changes);
      q == p.(pending := q.pending, droppedControls := q.droppedControls, coalescedValues := q.coalescedValues)
    decreases |changes|
  {
    if changes != [] {
      ChangesKeepIdentity(cfg, ControlChanged(cfg, p, changes[0]), changes[1..]);
    }
  }

  lemma {:induction false} IdleIgnoresChanges(cfg: Config, p: Publisher.State, changes: seq<Change>)
    requires p.epoch.None?
    ensures ControlsChanged(cfg, p, changes) == p
    decreases |changes|
  {
    if changes != [] {
      IdleIgnoresChanges(cfg, p, changes[1..]);
    }
  }

  lemma {:induction false} FrameDoneKeepsInv(env: Env, sys: System, frame: seq<Stamped>, now: real)
    requires Inv(env, sys) && AllInBounds(frame)
    ensures Inv(env, FrameDone(env, sys, frame, now))
    ensures Fresh(env, FrameDone(env, sys, frame, now))
  {
    hide Deliver, Good, SoundMetadata, ValidParser, Backed, EpochsBelow, OnlySince, Agrees, Live;
    var seen := sys.(client := sys.client.(latestFrameAt := Some(now), connected := true));
    assert BackendOf(seen) == BackendOf(sys) && Undelivered(seen) == Undelivered(sys) && Target(seen) == Target(sys);
    assert Inv(env, seen);
    FollowAircraftKeepsInv(env, seen, frame, now);
    ReportChangesKeepsInv(env, FollowAircraft(env, seen, frame, now));
  }

  lemma {:induction false} HandleEventsKeepsInv(env: Env, sys: System, events: seq<Event>, now: real)
    requires Inv(env, sys) && GoodEvents(events)
    ensures Inv(env, HandleEvents(env, sys, events, now))
    ensures events != [] && events[|events| - 1].Completed? ==> Fresh(env, HandleEvents(env, sys, events, now))
    decreases |events|
  {
    hide Inv, Fresh;
    assert WellFormed(env.registry) by {
      InvIsWellFormed(env, sys);
    }
    if events != [] {
      assert events[0] in events && forall e :: e in events[1..] ==> e in events;
      match events[0]
      case Wrote(w) =>
        WrittenKeepsInv(env, sys, w);
        HandleEventsKeepsInv(env, Written(env, sys, w), events[1..], now);
      case Completed(_, writes) =>
        FrameDoneKeepsInv(env, sys, writes, now);
        HandleEventsKeepsInv(env, FrameDone(env, sys, writes, now), events[1..], now);
    }
  }

  lemma InvIsWellFormed(env: Env, sys: System)
    requires Inv(env, sys)
    ensures Sane(env, sys)
  {
  }

  lemma {:induction false} ByteInKeepsInv(env: Env, sys: System, b: byte, now: real)
    requires Inv(env, sys)
    ensures Inv(env, ByteIn(env, sys, b, now))
    ensures CompletesNow(sys, b, now) ==> Fresh(env, ByteIn(env, sys, b, now))
  {
    hide Deliver, Good, SoundMetadata, Backed, EpochsBelow, OnlySince, Agrees, Live;
    var fed := sys.parser.(events := []);
    FeedByteKeepsValid(fed, b, now);
    var parsed := sys.(parser := FeedByte(fed, b, now));
    assert BackendOf(parsed) == BackendOf(sys) && Undelivered(parsed) == Undelivered(sys)
           && Target(parsed) == Target(sys);
    assert Inv(env, parsed);
    HandleEventsKeepsInv(env, parsed, parsed.parser.events, now);
  }

  /** This byte completes a frame. */
  predicate CompletesNow(sys: System, b: byte, now: real) {
    var events := FeedByte(sys.parser.(events := []), b, now).events;
    events != [] && events[|events| - 1].Completed?
  }

  lemma {:induction false} CheckTimeoutKeepsInv(env: Env, sys: System, now: real)
    requires Inv(env, sys)
    ensures Inv(env, CheckTimeout(env, sys, now))
  {
    hide Deliver, Good, SoundMetadata, Backed, EpochsBelow, Agrees, Live;
    LostIsClean(env, sys);
    var lost := sys.(client := Lost(sys.client), since := []);
    assert BackendOf(lost) == BackendOf(sys) && Undelivered(lost) == Undelivered(sys);
    ResetKeepsInv(env, lost, sys.publisher.sessionActive);
  }

  lemma LostIsClean(env: Env, sys: System)
    requires ClientSide(env, sys)
    ensures ClientSide(env, sys.(client := Lost(sys.client), since := []))
  {
    assert SameVisible(Unavailable(sys.client.space), Blank());
  }

  // ----- the queue and the transport

  lemma {:induction false} TelemetryConcat(a: seq<Frame>, b: seq<Frame>)
    ensures Telemetry(a + b) == Telemetry(a) + Telemetry(b)
    decreases |b|
  {
    if b == [] {
      assert a + b == a;
    } else {
      var front := b[..|b| - 1];
      assert (a + b)[..|a + b| - 1] == a + front;
      TelemetryConcat(a, front);
    }
  }

  lemma TelemetryOne(f: Frame)
    ensures Telemetry([f]) == if f.TelemetryFrame? then [f.message] else []
  {
    assert [f][..0] == [];
  }

  /** However many opening messages get through, nothing is lost, repeated or reordered. */
  lemma {:induction false} SendInitialMoves(initial: seq<Message>, link: Link)
    ensures
      var (rest, after) := SendInitial(initial, link);
      && after == link.(outbound := after.outbound)
      && Telemetry(after.outbound) + rest == Telemetry(link.outbound) + initial
    decreases |initial|
  {
    if initial != [] {
      var f := TelemetryFrame(initial[0]);
      var (next, queued) := Send(link, f);
      if queued {
        TelemetryConcat(link.outbound, [f]);
        TelemetryOne(f);
        SendInitialMoves(initial[1..], next);
        assert Telemetry(link.outbound) + initial == (Telemetry(link.outbound) + [initial[0]]) + initial[1..];
      }
    }
  }

  ghost function InitialSent(sys: System): System {
    var (rest, link) := SendInitial(sys.publisher.initial, sys.link);
    sys.(publisher := sys.publisher.(initial := rest), link := link)
  }

  /** Undelivered messages may move from the publisher to the queue or the wire without any other effect. */
  lemma {:induction false} MovedKeepsInv(env: Env, sys: System, after: System)
    requires Inv(env, sys)
    requires after == sys.(publisher := sys.publisher.(initial := after.publisher.initial), link := after.link,
                           wire := after.wire)
    requires Undelivered(after) + after.publisher.initial == Undelivered(sys) + sys.publisher.initial
    requires sys.publisher.initial == [] ==> after.publisher.initial == []
    ensures Inv(env, after)
  {
    hide Deliver, Good, SoundMetadata, ValidParser, OnlySince, Agrees, Tracks, Complete;
    var b, all := BackendOf(sys), Undelivered(sys) + sys.publisher.initial;
    assert BackendOf(after) == b;
    assert Undelivered(sys) + [] == Undelivered(sys);
    DeliverConcat(b, Undelivered(after), after.publisher.initial);
    DeliverConcat(b, Undelivered(sys), sys.publisher.initial);
    forall m | m in Undelivered(after) || m in after.publisher.initial ensures m.header.epoch < sys.nextEpoch {
      assert m in Undelivered(after) + after.publisher.initial;
      assert m in Undelivered(sys) || m in sys.publisher.initial;
    }
  }

  lemma {:induction false} InitialSentKeepsInv(env: Env, sys: System)
    requires Inv(env, sys)
    ensures Inv(env, InitialSent(sys))
  {
    hide Inv;
    SendInitialMoves(sys.publisher.initial, sys.link);
    var after := InitialSent(sys);
    assert sys.wire + Telemetry(after.link.outbound) + after.publisher.initial
        == sys.wire + (Telemetry(after.link.outbound) + after.publisher.initial);
    assert sys.wire + Telemetry(sys.link.outbound) + sys.publisher.initial
        == sys.wire + (Telemetry(sys.link.outbound) + sys.publisher.initial);
    MovedKeepsInv(env, sys, after);
  }

  /** The refresh inside a flush, with the client's answer. */
  ghost function Refreshed(env: Env, sys: System, now: real): System
    requires WellFormed(env.registry)
  {
    if !RefreshDue(sys.publisher, now) then sys
    else if Stale(sys.client, now, env.staleTimeout) then
      sys.(client := Lost(sys.client), since := [], publisher := Publisher.Reset(sys.publisher))
    else if !sys.client.connected then sys
    else
      var (client, snapshot) := DecodedSnapshot(env.registry, sys.client);
      sys.(client := client,
           publisher := QueueAll(env.cfg, sys.publisher.(nextRefreshAt := Some(now + env.cfg.refreshInterval)),
                                 ValuesOf(snapshot)))
  }

  lemma {:induction false} QueueAllKeepsIdentity(cfg: Config, p: Publisher.State, values: seq<DecodedValue>)
    ensures
      var q := QueueAll(cfg, p, values);
      q == p.(pending := q.pending, droppedControls := q.droppedControls, coalescedValues := q.coalescedValues)
    decreases |values|
  {
    if values != [] {
      QueueAllKeepsIdentity(cfg, QueueValue(cfg, p, values[0]), values[1..]);
    }
  }

  lemma {:induction false} RefreshedKeepsInv(env: Env, sys: System, now: real)
    requires Inv(env, sys) && sys.publisher.epoch.Some?
    ensures Inv(env, Refreshed(env, sys, now))
  {
    hide Deliver, Good, SoundMetadata, ValidParser, Backed, EpochsBelow, Agrees;
    if RefreshDue(sys.publisher, now) {
      if Stale(sys.client, now, env.staleTimeout) {
        LostIsClean(env, sys);
        var lost := sys.(client := Lost(sys.client), since := []);
        assert BackendOf(lost) == BackendOf(sys) && Undelivered(lost) == Undelivered(sys);
        ResetKeepsInv(env, lost, sys.publisher.sessionActive);
      } else if sys.client.connected {
        SnapshotRefreshKeepsInv(env, sys, now);
      }
    }
  }

  lemma LiveAtAnyTime(env: Env, p: Publisher.State, decoded: map<Definition, Reading>, target: Backend,
                      next: Option<real>)
    requires Live(env.registry, env.cfg, p, decoded, target)
    ensures Live(env.registry, env.cfg, p.(nextRefreshAt := next), decoded, target)
  {
  }

  lemma LiveAircraft(env: Env, sys: System)
    requires Inv(env, sys) && sys.publisher.epoch.Some?
    ensures forall d :: d in Active(env.registry, sys.publisher.aircraft) ==> Located(d)
  {
  }

  lemma {:induction false} SnapshotRefreshKeepsInv(env: Env, sys: System, now: real)
    requires Inv(env, sys) && sys.publisher.epoch.Some?
    requires RefreshDue(sys.publisher, now) && !Stale(sys.client, now, env.staleTimeout) && sys.client.connected
    ensures Inv(env, Refreshed(env, sys, now))
  {
    hide Deliver, Good, SoundMetadata, ValidParser, Backed, EpochsBelow, Live, OnlySince, ReadAll;
    LiveAircraft(env, sys);
    var controls := Active(env.registry, sys.client.aircraft);
    var (client, snapshot) := DecodedSnapshot(env.registry, sys.client);
    DecodedSnapshotTracks(env.registry, sys.client);
    var p := sys.publisher.(nextRefreshAt := Some(now + env.cfg.refreshInterval));
    LiveAtAnyTime(env, sys.publisher, sys.client.decoded, Target(sys).value, p.nextRefreshAt);
    RefreshKeepsLive(env.registry, env.cfg, p, sys.client.decoded, Target(sys).value, sys.client.space, controls);
    QueueAllKeepsIdentity(env.cfg, p, ValuesOf(snapshot));
    var after := Refreshed(env, sys, now);
    assert BackendOf(after) == BackendOf(sys) && Undelivered(after) == Undelivered(sys);
    assert Target(after) == Target(sys);
  }

  ghost function PendingSent(sys: System): System
    requires sys.publisher.pending.Valid()
  {
    var (publisher, link) := FlushPending(sys.publisher, sys.link);
    sys.(publisher := publisher, link := link)
  }

  lemma {:induction false} PendingSentKeepsInv(env: Env, sys: System)
    requires Inv(env, sys) && sys.publisher.initial == []
    ensures Inv(env, PendingSent(sys))
  {
    hide Deliver, Good, Live, Complete, BackendSide, SoundEnv, NextDelta, Send, PopHeads;
    InvIsWellFormed(env, sys);
    if NextDelta(sys.publisher).Some? {
      var (ids, delta) := NextDelta(sys.publisher).value;
      NextDeltaIsLive(sys.publisher);
      var (link, queued) := Send(sys.link, TelemetryFrame(delta));
      var after := PendingSent(sys);
      if queued {
        DeltaKeepsLive(env.registry, env.cfg, sys.publisher, sys.client.decoded, Target(sys).value);
        DeltaArrives(env, sys, delta, after);
      } else {
        RefusedTelemetry(sys.link, delta);
        assert after == sys;
      }
    }
  }

  lemma RefusedTelemetry(l: Link, m: Message)
    ensures !Send(l, TelemetryFrame(m)).1 ==> Send(l, TelemetryFrame(m)).0 == l
  {
  }

  lemma NextDeltaIsLive(p: Publisher.State)
    requires p.pending.Valid() && NextDelta(p).Some?
    ensures p.epoch.Some? && NextDelta(p).value.1.header.epoch == p.epoch.value
  {
  }

  lemma {:induction false} DeltaArrives(env: Env, sys: System, delta: Message, after: System)
    requires Inv(env, sys) && sys.publisher.initial == [] && sys.publisher.epoch.Some?
    requires after == sys.(link := Send(sys.link, TelemetryFrame(delta)).0, publisher := after.publisher)
    requires after.publisher.initial == []
    requires delta.header.epoch == sys.publisher.epoch.value && Deliver(Target(sys).value, delta).Some?
    requires Send(sys.link, TelemetryFrame(delta)).1
    ensures BackendSide(after) && Target(after) == Deliver(Target(sys).value, delta)
  {
    hide Inv, Deliver, Good, Backed, EpochsBelow, DeliverAll, Send;
    InvDelivers(env, sys);
    SentGrows(sys.link, TelemetryFrame(delta));
    var b := BackendOf(sys);
    TelemetryConcat(sys.link.outbound, [TelemetryFrame(delta)]);
    TelemetryOne(TelemetryFrame(delta));
    assert BackendOf(after) == b && Undelivered(after) == Undelivered(sys) + [delta];
    assert Undelivered(sys) + [] == Undelivered(sys) && (Undelivered(sys) + [delta]) + [] == Undelivered(sys) + [delta];
    DeliverConcat(b, Undelivered(sys), [delta]);
    DeliverCons(Target(sys).value, delta, []);
    assert [delta] + [] == [delta];
    DeltaEpoch(env, sys, delta);
    EpochsBelowAppend(b, Undelivered(sys), delta, sys.nextEpoch);
    DeliverNothing(Deliver(Target(sys).value, delta).value);
    DeliverNothing(Target(sys).value);
  }

  lemma InvDelivers(env: Env, sys: System)
    requires Inv(env, sys)
    ensures BackendSide(sys)
    ensures sys.publisher.epoch.Some? ==> Target(sys).Some?
  {
    hide Deliver, Good, Backed, EpochsBelow, DeliverAll, Live, ClientSide, SoundEnv;
  }

  lemma SentGrows(l: Link, f: Frame)
    requires Send(l, f).1
    ensures Send(l, f).0.outbound == l.outbound + [f]
  {
  }

  lemma EpochsBelowAppend(b: Backend, messages: seq<Message>, m: Message, limit: nat)
    requires EpochsBelow(b, messages, limit) && m.header.epoch < limit
    ensures EpochsBelow(b, messages + [m], limit)
  {
  }

  lemma DeliverNothing(b: Backend)
    requires Good(b)
    ensures DeliverAll(b, []) == Some(b)
  {
  }

  lemma {:induction false} DeltaEpoch(env: Env, sys: System, delta: Message)
    requires Inv(env, sys) && sys.publisher.epoch.Some? && delta.header.epoch == sys.publisher.epoch.value
    ensures delta.header.epoch < sys.nextEpoch
  {
    var all := Undelivered(sys) + sys.publisher.initial;
    forall m | m in all ensures m.header.epoch < sys.nextEpoch {
      assert m in Undelivered(sys) || m in sys.publisher.initial;
    }
    DeliverKeepsEpochsBelow(BackendOf(sys), all, sys.nextEpoch);
  }

  lemma {:induction false} FlushIsStaged(env: Env, sys: System, now: real)
    requires WellFormed(env.registry) && sys.publisher.pending.Valid()
    requires sys.publisher.sessionActive && sys.publisher.epoch.Some?
    ensures
      var sent := InitialSent(sys);
      if sent.publisher.initial != [] then FlushNow(env, sys, now) == sent
      else
        var refreshed := Refreshed(env, sent, now);
        refreshed.publisher.pending.Valid() ==> FlushNow(env, sys, now) == PendingSent(refreshed)
  {
    hide SendInitial, NextDelta, PopHeads, Send, DecodedSnapshot, Stale, Lost, QueueAll, NoDuplicates, WellFormed,
      Publisher.Reset, ValuesOf;
  }

  lemma {:induction false} FlushNowKeepsInv(env: Env, sys: System, now: real)
    requires Inv(env, sys)
    ensures Inv(env, FlushNow(env, sys, now))
  {
    if sys.publisher.epoch.Some? {
      InvLive(env, sys);
      FlushIsStaged(env, sys, now);
      InitialSentKeepsInv(env, sys);
      var sent := InitialSent(sys);
      if sent.publisher.initial == [] {
        RefreshedKeepsInv(env, sent, now);
        var refreshed := Refreshed(env, sent, now);
        InvIsWellFormed(env, refreshed);
        RefreshedInitial(env, sent, now);
        PendingSentKeepsInv(env, refreshed);
      }
    }
  }

  lemma InvLive(env: Env, sys: System)
    requires Inv(env, sys) && sys.publisher.epoch.Some?
    ensures sys.publisher.sessionActive && sys.publisher.pending.Valid() && WellFormed(env.registry)
  {
  }

  lemma RefreshedInitial(env: Env, sys: System, now: real)
    requires WellFormed(env.registry) && sys.publisher.initial == []
    ensures Refreshed(env, sys, now).publisher.initial == []
  {
    var p := sys.publisher.(nextRefreshAt := Some(now + env.cfg.refreshInterval));
    QueueAllKeepsIdentity(env.cfg, p, ValuesOf(DecodedSnapshot(env.registry, sys.client).1));
  }

  lemma {:induction false} WriterTurnKeepsInv(env: Env, sys: System)
    requires Inv(env, sys)
    ensures Inv(env, WriterTurn(sys))
  {
    hide Inv;
    if sys.link.outbound != [] {
      var first, rest := sys.link.outbound[0], sys.link.outbound[1..];
      assert sys.link.outbound == [first] + rest;
      TelemetryConcat([first], rest);
      TelemetryOne(first);
      var after := WriterTurn(sys);
      assert Undelivered(after) == Undelivered(sys);
      MovedKeepsInv(env, sys, after);
    }
  }

  lemma {:induction false} OtherFrameKeepsInv(env: Env, sys: System, f: Frame)
    requires Inv(env, sys)
    ensures Inv(env, OtherFrame(sys, f))
  {
    hide Inv;
    if !f.TelemetryFrame? {
      TelemetryConcat(sys.link.outbound, [f]);
      TelemetryOne(f);
      var after := OtherFrame(sys, f);
      assert Telemetry(sys.link.outbound) + [] == Telemetry(sys.link.outbound);
      assert Undelivered(after) == Undelivered(sys);
      MovedKeepsInv(env, sys, after);
    }
  }

  /** Receiving the next message is delivering it: never rejected, never evicting. */
  lemma {:induction false} ReceiveDelivers(env: Env, sys: System, now: real)
    requires Inv(env, sys) && sys.wire != []
    ensures
      var after := BackendReceives(env, sys, now);
      && Deliver(BackendOf(sys), sys.wire[0]) == Some(BackendOf(after))
      && !Accept(sys.ingress, sys.wire[0]).1.Rejected?
      && Backed(after.ingress, after.raw)
      && after == sys.(wire := sys.wire[1..], ingress := after.ingress, log := after.log, raw := after.raw)
  {
    hide ClientSide, Publishing, SoundMetadata;
    var b, m := BackendOf(sys), sys.wire[0];
    var rest := sys.wire[1..] + Telemetry(sys.link.outbound);
    assert Undelivered(sys) == [m] + rest;
    assert Undelivered(sys)[0] == m;
    assert Deliver(b, m).Some?;
    BatchNeverEvicts(sys.ingress, sys.log, m, sys.raw, now, env.capacity);
  }

  /** An emitted batch is about controls of the catalog, for which the store has room, and is applied whole. */
  lemma {:induction false} BatchFits(env: Env, sys: System, now: real)
    requires Inv(env, sys) && sys.wire != []
    ensures Sane(env, sys)
    ensures
      var o := Accept(sys.ingress, sys.wire[0]).1;
      o.Emitted? && !o.batch.ResetBatch? ==>
        && |sys.ingress.catalog.at.Keys| <= env.capacity && sys.raw.entries.Valid()
        && sys.raw.entries.at.Keys <= sys.ingress.catalog.at.Keys
        && (forall v :: v in o.batch.values ==> v.identity in sys.ingress.catalog.at.Keys)
        && BackendReceives(env, sys, now).raw.entries ==
           RawStore.AppliedAll(sys.raw.entries, o.batch.values, now, env.capacity)
  {
    hide Deliver, SoundMetadata, ValidParser, OnlySince, Tracks, Complete, Accept, Live, RawStore.AppliedAll,
      RegisteredAll;
    InvIsWellFormed(env, sys);
    var (s', o) := Accept(sys.ingress, sys.wire[0]);
    if o.Emitted? && !o.batch.ResetBatch? {
      EmittedValuesWereChecked(sys.ingress, sys.log, sys.wire[0]);
      BatchNeverEvicts(sys.ingress, sys.log, sys.wire[0], sys.raw, now, env.capacity);
      SizeOfValid(sys.ingress.catalog);
    }
  }

  lemma {:induction false} ReceiveKeepsInv(env: Env, sys: System, now: real)
    requires Inv(env, sys)
    ensures Inv(env, BackendReceives(env, sys, now))
  {
    hide Deliver, Good, SoundMetadata, ValidParser, OnlySince, Tracks, Complete, Accept, ApplyBatch, Live;
    if sys.wire != [] {
      ReceiveDelivers(env, sys, now);
      var after, b, m := BackendReceives(env, sys, now), BackendOf(sys), sys.wire[0];
      var rest := sys.wire[1..] + Telemetry(sys.link.outbound);
      assert Undelivered(sys) == [m] + rest && Undelivered(after) == rest;
      DeliverCons(b, m, rest);
      DeliverCons(b, m, rest + sys.publisher.initial);
      assert Undelivered(sys) + sys.publisher.initial == [m] + (rest + sys.publisher.initial);
      assert forall x :: x in rest ==> x in Undelivered(sys);
      assert m in Undelivered(sys);
      OneEpochBelow(b, m, sys.nextEpoch);
    }
  }

  lemma {:induction false} OneEpochBelow(b: Backend, m: Message, limit: nat)
    requires Good(b) && Deliver(b, m).Some?
    requires b.ingress.epoch.Some? ==> b.ingress.epoch.value < limit
    requires m.header.epoch < limit
    ensures Deliver(b, m).value.ingress.epoch.Some? ==> Deliver(b, m).value.ingress.epoch.value < limit
  {
    DeliverKeepsEpochsBelow(b, [m], limit);
    assert DeliverAll(Deliver(b, m).value, []) == Deliver(b, m) && [m][1..] == [];
  }

  lemma {:induction false} LinkLostKeepsInv(env: Env, sys: System)
    requires Inv(env, sys)
    ensures Inv(env, LinkLost(sys))
  {
    hide Deliver, Good, SoundMetadata, ValidParser, OnlySince, Tracks, Complete, Live;
    var lost := sys.(link := Disconnected(sys.link));
    assert Telemetry([]) == [] && Undelivered(lost) == sys.wire && BackendOf(lost) == BackendOf(sys);
    DeliverConcat(BackendOf(sys), sys.wire, Telemetry(sys.link.outbound));
    assert forall m :: m in sys.wire ==> m in Undelivered(sys);
    ResetKeepsInv(env, lost, false);
  }

  lemma {:induction false} LinkReadyKeepsInv(env: Env, sys: System, now: real)
    requires Inv(env, sys) && LinkSide(sys)
    ensures Inv(env, LinkReady(env, sys, now))
  {
    hide Inv, Begin, SoundEnv, ClientSide, BackendSide;
    if !sys.link.ready {
      ConnectedSides(env, sys);
      BeginKeepsInv(env, NewSession(sys), now);
    }
  }

  /** A ready connection's fresh backend session, before the publisher begins its epoch. */
  function NewSession(sys: System): System {
    sys.(link := sys.link.(ready := true), wire := [], ingress := Cleared(), log := [], raw := EmptyRaw(),
         publisher := sys.publisher.(sessionActive := true))
  }

  lemma ConnectedSides(env: Env, sys: System)
    requires Inv(env, sys) && LinkSide(sys) && !sys.link.ready
    ensures SoundEnv(env) && ClientSide(env, NewSession(sys)) && BackendSide(NewSession(sys))
  {
    hide Deliver, SoundMetadata, ValidParser, OnlySince, Tracks, Complete, Live;
    assert Undelivered(NewSession(sys)) == [] && Readings(map[]) == map[];
    assert BackendOf(NewSession(sys)) == Backend(Cleared(), [], map[]);
  }

  // ----- the queue's bound over whole runs

  lemma {:induction false} SendKeepsLinkSide(sys: System, f: Frame)
    requires LinkSide(sys)
    ensures LinkSide(sys.(link := Send(sys.link, f).0))
  {
    OperationsKeepBound(sys.link, f);
  }

  lemma {:induction false} SendInitialKeepsLinkSide(sys: System, initial: seq<Message>)
    requires LinkSide(sys)
    ensures LinkSide(sys.(link := SendInitial(initial, sys.link).1))
    decreases |initial|
  {
    if initial != [] {
      SendKeepsLinkSide(sys, TelemetryFrame(initial[0]));
      var (next, queued) := Send(sys.link, TelemetryFrame(initial[0]));
      if queued {
        SendInitialKeepsLinkSide(sys.(link := next), initial[1..]);
      }
    }
  }

  lemma {:induction false} HandleEventsKeepsLink(env: Env, sys: System, events: seq<Event>, now: real)
    requires WellFormed(env.registry) && GoodEvents(events)
    ensures HandleEvents(env, sys, events, now).link == sys.link
    decreases |events|
  {
    if events != [] {
      assert events[0] in events && forall e :: e in events[1..] ==> e in events;
      match events[0]
      case Wrote(w) => HandleEventsKeepsLink(env, Written(env, sys, w), events[1..], now);
      case Completed(_, writes) => HandleEventsKeepsLink(env, FrameDone(env, sys, writes, now), events[1..], now);
    }
  }

  lemma RefreshedLink(env: Env, sys: System, now: real)
    requires WellFormed(env.registry)
    ensures Refreshed(env, sys, now).link == sys.link
    ensures LinkSide(sys) ==> LinkSide(Refreshed(env, sys, now))
  {
    hide DecodedSnapshot, QueueAll, Lost, Stale, WellFormed;
  }

  lemma {:induction false} FlushKeepsLinkSide(env: Env, sys: System, now: real)
    requires Inv(env, sys) && LinkSide(sys)
    ensures LinkSide(FlushNow(env, sys, now))
  {
    hide Inv, Bounded, SendInitial, PopHeads, Send, Refreshed, NoDuplicates, Selected, Heads;
    InvIsWellFormed(env, sys);
    if sys.publisher.epoch.Some? {
      InvLive(env, sys);
      FlushIsStaged(env, sys, now);
      SendInitialKeepsLinkSide(sys, sys.publisher.initial);
      var sent := InitialSent(sys);
      if sent.publisher.initial == [] {
        InitialSentKeepsInv(env, sys);
        RefreshedKeepsInv(env, sent, now);
        var refreshed := Refreshed(env, sent, now);
        InvIsWellFormed(env, refreshed);
        RefreshedLink(env, sent, now);
        if NextDelta(refreshed.publisher).Some? {
          SendKeepsLinkSide(refreshed, TelemetryFrame(NextDelta(refreshed.publisher).value.1));
        }
      }
    }
  }

  /** Steps that leave the queue alone, or empty it, or only mark it ready. */
  lemma {:induction false} QuietStepsKeepLink(env: Env, sys: System, now: real)
    requires WellFormed(env.registry)
    ensures CheckTimeout(env, sys, now).link == sys.link
    ensures LinkReady(env, sys, now).link == sys.link.(ready := true)
    ensures env.capacity > 0 && Good(BackendOf(sys)) ==> BackendReceives(env, sys, now).link == sys.link
  {
    hide Accept, ApplyBatch, DecodedSnapshot, BeginEpoch, Good, WellFormed, Stale, Lost;
  }

  lemma {:induction false} ByteInKeepsLink(env: Env, sys: System, b: byte, now: real)
    requires WellFormed(env.registry) && ValidParser(sys.parser)
    ensures ByteIn(env, sys, b, now).link == sys.link
  {
    hide WellFormed, ValidParser, HandleEvents, FeedByte;
    var fed := sys.parser.(events := []);
    FedIsValid(sys.parser, b, now);
    var parsed := sys.(parser := FeedByte(fed, b, now));
    HandleEventsKeepsLink(env, parsed, parsed.parser.events, now);
  }

  lemma FedIsValid(p: Parser, b: byte, now: real)
    requires ValidParser(p)
    ensures GoodEvents(FeedByte(p.(events := []), b, now).events)
  {
    FeedByteKeepsValid(p.(events := []), b, now);
  }

  lemma {:induction false} StepKeepsLinkSide(env: Env, sys: System, step: Step)
    requires Inv(env, sys) && LinkSide(sys)
    ensures Sane(env, sys) && LinkSide(Advance(env, sys, step))
  {
    hide Inv, Bounded, Good, WellFormed, FlushNow, ByteIn, CheckTimeout, BackendReceives, LinkReady, Send;
    InvIsWellFormed(env, sys);
    match step
    case Byte(b, now) => ByteInKeepsLink(env, sys, b, now);
    case FlushStep(now) => FlushKeepsLinkSide(env, sys, now);
    case Other(frame) => SendKeepsLinkSide(sys, frame);
    case Writer => OperationsKeepBound(sys.link, ControlFrame);
    case Drop => OperationsKeepBound(sys.link, ControlFrame);
    case Timeout(now) => QuietStepsKeepLink(env, sys, now);
    case Arrive(now) => QuietStepsKeepLink(env, sys, now);
    case Connect(now) =>
      QuietStepsKeepLink(env, sys, now);
      ReadyKeepsBound(sys.link);
  }

  lemma ReadyKeepsBound(l: Link)
    requires Bounded(l)
    ensures Bounded(l.(ready := true))
  {
  }

  // ----- every step is defined after every other

  lemma {:induction false} ReportsKeepValid(cfg: Config, p: Publisher.State, changes: seq<Change>)
    requires p.pending.Valid()
    ensures ControlsChanged(cfg, p, changes).pending.Valid()
    decreases |changes|
  {
    hide NoDuplicates;
    if changes != [] {
      var v := ValueOf(changes[0]);
      QueueAllKeepsValid(cfg, p, [v]);
      assert [v][1..] == [] && QueueAll(cfg, QueueValue(cfg, p, v), []) == QueueValue(cfg, p, v);
      ReportsKeepValid(cfg, ControlChanged(cfg, p, changes[0]), changes[1..]);
    }
  }

  lemma BeginKeepsSane(env: Env, sys: System, now: real)
    requires Sane(env, sys)
    ensures Sane(env, Begin(env, sys, now))
  {
    hide WellFormed, ValidParser, Stream, ReadAll, Opening, CatalogOf;
    EmptyIsValid<Identity, seq<DecodedValue>>();
  }

  lemma {:induction false} FrameDoneKeepsSane(env: Env, sys: System, frame: seq<Stamped>, now: real)
    requires Sane(env, sys) && AllInBounds(frame)
    ensures Sane(env, FrameDone(env, sys, frame, now))
  {
    hide WellFormed, ValidParser, Stream, Begin, UpdateAircraft, NoDuplicates, ControlsChanged, Report, AllInBounds;
    var seen := sys.(client := sys.client.(latestFrameAt := Some(now), connected := true));
    var client := UpdateAircraft(env.registry, seen.client, frame);
    BeginKeepsSane(env, seen.(client := client, since := frame), now);
    var followed := FollowAircraft(env, seen, frame, now);
    ReportsKeepValid(env.cfg, followed.publisher, EmitControlChanges(env.registry, followed.client).1);
  }

  lemma {:induction false} HandleEventsKeepsSane(env: Env, sys: System, events: seq<Event>, now: real)
    requires Sane(env, sys) && GoodEvents(events)
    ensures Sane(env, HandleEvents(env, sys, events, now))
    decreases |events|
  {
    hide Sane, FrameDone, OnWrite;
    SaneParts(env, sys);
    if events != [] {
      assert events[0] in events && forall e :: e in events[1..] ==> e in events;
      match events[0]
      case Wrote(w) =>
        ClientKeepsSane(env, sys, OnWrite(env.registry, sys.client, w), sys.since + [w]);
        HandleEventsKeepsSane(env, Written(env, sys, w), events[1..], now);
      case Completed(_, writes) =>
        FrameDoneKeepsSane(env, sys, writes, now);
        HandleEventsKeepsSane(env, FrameDone(env, sys, writes, now), events[1..], now);
    }
  }

  lemma SaneParts(env: Env, sys: System)
    requires Sane(env, sys)
    ensures WellFormed(env.registry) && ValidParser(sys.parser) && env.capacity > 0 && Good(BackendOf(sys))
  {
  }

  lemma ClientKeepsSane(env: Env, sys: System, client: Client, since: seq<Stamped>)
    requires Sane(env, sys)
    ensures Sane(env, sys.(client := client, since := since))
  {
  }

  lemma ByteInKeepsSane(env: Env, sys: System, b: byte, now: real)
    requires Sane(env, sys)
    ensures Sane(env, ByteIn(env, sys, b, now))
  {
    hide WellFormed, Stream, HandleEvents, FeedByte, NoDuplicates;
    FeedByteKeepsValid(sys.parser.(events := []), b, now);
    var parser := FeedByte(sys.parser.(events := []), b, now);
    HandleEventsKeepsSane(env, sys.(parser := parser), parser.events, now);
  }

  lemma ReceiveKeepsSane(env: Env, sys: System, now: real)
    requires Sane(env, sys)
    ensures Sane(env, BackendReceives(env, sys, now))
  {
    hide WellFormed, ValidParser, Stream, Accept, ApplyBatch, NoDuplicates;
    if sys.wire != [] {
      AcceptKeepsStream(sys.ingress, sys.log, sys.wire[0]);
    }
  }

  lemma {:induction false} FlushKeepsSane(env: Env, sys: System, now: real)
    requires Sane(env, sys)
    ensures Sane(env, FlushNow(env, sys, now))
  {
    var (asked, reply) := AskClient(env, sys, now);
    FlushKeepsValid(env.cfg, sys.publisher, sys.link, now, reply);
    hide WellFormed, ValidParser, NoDuplicates, Flush, Stream, ReadAll, Stale, Asks;
  }

  lemma {:induction false} FlushKeepsValid(cfg: Config, p: Publisher.State, link: Link, now: real, reply: Reply)
    requires p.pending.Valid()
    ensures Flush(cfg, p, link, now, reply).0.pending.Valid()
  {
    hide NoDuplicates, QueueAll, Selected, PopHeads, SendInitial, Send, ValuesOf;
    EmptyIsValid<Identity, seq<DecodedValue>>();
    var (initial, link1) := SendInitial(p.initial, link);
    var p1 := p.(initial := initial);
    if reply.Connected? {
      QueueAllKeepsValid(cfg, p1.(nextRefreshAt := Some(now + cfg.refreshInterval)), ValuesOf(reply.snapshot));
    }
    DeltaKeepsValid(Refresh(cfg, p1, now, reply), link1);
  }

  lemma {:induction false} DeltaKeepsValid(p: Publisher.State, link: Link)
    requires p.pending.Valid()
    ensures FlushPending(p, link).0.pending.Valid()
  {
    hide Selected, PopHeads, Send;
    SelectedAreQueued(p.pending.keys, p.pending.at, MAX_VALUES);
    PopHeadsAt(p.pending, Selected(p.pending.keys, p.pending.at, MAX_VALUES));
  }

  lemma NewBackendIsGood()
    ensures Good(Backend(Cleared(), [], Readings(EmptyRaw().entries.at)))
  {
  }

  lemma {:induction false} StepKeepsSane(env: Env, sys: System, step: Step)
    requires Sane(env, sys)
    ensures Sane(env, Advance(env, sys, step))
  {
    hide WellFormed, ValidParser, ByteIn, FlushNow, BackendReceives, Begin, NoDuplicates, Stale, Send;
    match step
    case Byte(b, now) => ByteInKeepsSane(env, sys, b, now);
    case FlushStep(now) => FlushKeepsSane(env, sys, now);
    case Arrive(now) => ReceiveKeepsSane(env, sys, now);
    case Connect(now) =>
      NewBackendIsGood();
      BeginKeepsSane(env, NewSession(sys), now);
    case _ => EmptyIsValid<Identity, seq<DecodedValue>>();
  }

  // ----- runs

  lemma {:induction false} StepKeepsInv(env: Env, sys: System, step: Step)
    requires Inv(env, sys) && LinkSide(sys)
    ensures Sane(env, sys) && Inv(env, Advance(env, sys, step)) && LinkSide(Advance(env, sys, step))
  {
    InvIsWellFormed(env, sys);
    StepKeepsLinkSide(env, sys, step);
    hide Inv, LinkSide, Sane;
    match step
    case Byte(b, now) => ByteInKeepsInv(env, sys, b, now);
    case Timeout(now) => CheckTimeoutKeepsInv(env, sys, now);
    case FlushStep(now) => FlushNowKeepsInv(env, sys, now);
    case Other(frame) => OtherFrameKeepsInv(env, sys, frame);
    case Writer => WriterTurnKeepsInv(env, sys);
    case Arrive(now) => ReceiveKeepsInv(env, sys, now);
    case Drop => LinkLostKeepsInv(env, sys);
    case Connect(now) => LinkReadyKeepsInv(env, sys, now);
  }

  /** Any interleaving of the steps. */
  ghost function Run(env: Env, sys: System, steps: seq<Step>): (end: System)
    requires Sane(env, sys)
    ensures Sane(env, end)
    decreases |steps|
  {
    hide Sane, Advance;
    if steps == [] then sys
    else
      StepKeepsSane(env, sys, steps[0]);
      Run(env, Advance(env, sys, steps[0]), steps[1..])
  }

  lemma {:induction false} RunKeepsInv(env: Env, sys: System, steps: seq<Step>)
    requires Inv(env, sys) && LinkSide(sys)
    ensures Sane(env, sys) && Inv(env, Run(env, sys, steps)) && LinkSide(Run(env, sys, steps))
    decreases |steps|
  {
    InvIsWellFormed(env, sys);
    hide Inv, LinkSide, Advance, Sane;
    if steps != [] {
      StepKeepsInv(env, sys, steps[0]);
      RunKeepsInv(env, Advance(env, sys, steps[0]), steps[1..]);
    }
  }
}
