/**
  The whole telemetry pipeline as a state machine: bytes arrive, frames complete, the publisher
  flushes into the bounded queue, the writer moves frames to the transport, the backend receives them,
  either side times out or reconnects. Every interleaving of these steps is a run.
 */
module Pipeline {
  import opened Wrappers
  import opened InsertionDict
  import opened Wire
  import opened Ingress
  import opened RawStore
  import opened BiosState
  import opened BiosProtocol
  import opened BiosRegistry
  import opened BiosClient
  import opened Connection
  import opened Publisher
  import opened Delivery
  import opened Mirror

  datatype Env = Env(registry: Registry, cfg: Config, staleTimeout: real, capacity: nat, queueSize: nat)

  /**
    `wire` is what the transport has taken and not yet delivered. `log` and `since` only record
    history: the messages accepted in this epoch, and the writes since the frame in which the current
    aircraft appeared.
   */
  datatype System = System(
    parser: Parser,
    client: Client,
    publisher: Publisher.State,
    link: Link,
    wire: seq<Message>,
    ingress: Ingress.State,
    log: seq<Message>,
    raw: Raw,
    nextEpoch: nat,
    since: seq<Stamped>)

  function Start(env: Env): System {
    System(Initial(), BiosClient.Fresh(), Idle(), Link(false, env.queueSize, [], 0), [], Cleared(), [], EmptyRaw(), 0,
           [])
  }

  // ----- the client's side

  /** `_begin_epoch` for the client's current aircraft, with the snapshot it takes. */
  function Begin(env: Env, sys: System, now: real): System
    requires WellFormed(env.registry)
  {
    if !sys.publisher.sessionActive || sys.client.aircraft.None? then
      sys.(publisher := Publisher.Reset(sys.publisher))
    else
      var (client, snapshot) := DecodedSnapshot(env.registry, sys.client);
      var controls := Active(env.registry, sys.client.aircraft);
      sys.(client := client,
           publisher := BeginEpoch(env.cfg, sys.publisher, sys.client.aircraft, controls, snapshot, sys.nextEpoch, now),
           nextEpoch := sys.nextEpoch + 1)
  }

  /** `_update_aircraft` and the publisher's callback for it. */
  function FollowAircraft(env: Env, sys: System, frame: seq<Stamped>, now: real): System
    requires WellFormed(env.registry) && AllInBounds(frame)
  {
    var client := UpdateAircraft(env.registry, sys.client, frame);
    if client.aircraft == sys.client.aircraft then sys
    else
      var changed := sys.(client := client, since := frame);
      if sys.publisher.sessionActive then Begin(env, changed, now) else changed
  }

  /** `_emit_control_changes`, every change passed to the publisher. */
  function ReportChanges(env: Env, sys: System): System
    requires WellFormed(env.registry)
  {
    var (client, changes) := EmitControlChanges(env.registry, sys.client);
    sys.(client := client, publisher := ControlsChanged(env.cfg, sys.publisher, changes))
  }

  function FrameDone(env: Env, sys: System, frame: seq<Stamped>, now: real): System
    requires WellFormed(env.registry) && AllInBounds(frame)
  {
    var seen := sys.(client := sys.client.(latestFrameAt := Some(now), connected := true));
    ReportChanges(env, FollowAircraft(env, seen, frame, now))
  }

  function Written(env: Env, sys: System, w: Stamped): System
    requires InBounds(w.write)
  {
    sys.(client := OnWrite(env.registry, sys.client, w), since := sys.since + [w])
  }

  function HandleEvents(env: Env, sys: System, events: seq<Event>, now: real): System
    requires WellFormed(env.registry) && GoodEvents(events)
    decreases |events|
  {
    if events == [] then sys
    else
      assert events[0] in events;
      var next :=
        match events[0]
        case Wrote(w) => Written(env, sys, w)
        case Completed(_, writes) => FrameDone(env, sys, writes, now);
      assert forall e :: e in events[1..] ==> e in events;
      HandleEvents(env, next, events[1..], now)
  }

  function ByteIn(env: Env, sys: System, b: byte, now: real): System
    requires WellFormed(env.registry) && ValidParser(sys.parser)
  {
    var parser := FeedByte(sys.parser.(events := []), b, now);
    FeedByteKeepsValid(sys.parser.(events := []), b, now);
    HandleEvents(env, sys.(parser := parser), parser.events, now)
  }

  /** `_expire_if_stale`: a timeout hides everything and resets the publisher. */
  function CheckTimeout(env: Env, sys: System, now: real): System {
    if Stale(sys.client, now, env.staleTimeout) then
      sys.(client := Lost(sys.client), publisher := Publisher.Reset(sys.publisher), since := [])
    else sys
  }

  /** Whether a flush gets as far as asking the client for a refresh snapshot. */
  predicate Asks(sys: System, now: real) {
    && sys.publisher.sessionActive && sys.publisher.epoch.Some?
    && SendInitial(sys.publisher.initial, sys.link).0 == []
    && RefreshDue(sys.publisher, now)
  }

  function AskClient(env: Env, sys: System, now: real): (System, Reply)
    requires WellFormed(env.registry)
  {
    if !Asks(sys, now) then (sys, NotConnected)
    else if Stale(sys.client, now, env.staleTimeout) then
      (sys.(client := Lost(sys.client), since := []), JustTimedOut)
    else if !sys.client.connected then (sys, NotConnected)
    else
      var (client, snapshot) := DecodedSnapshot(env.registry, sys.client);
      (sys.(client := client), Reply.Connected(snapshot))
  }

  function FlushNow(env: Env, sys: System, now: real): System
    requires WellFormed(env.registry) && sys.publisher.pending.Valid()
  {
    var (asked, reply) := AskClient(env, sys, now);
    var (publisher, link) := Flush(env.cfg, sys.publisher, sys.link, now, reply);
    asked.(publisher := publisher, link := link)
  }

  // ----- the transport and the backend

  /** Another part of the client queues audio, coach telemetry or a control message. */
  function OtherFrame(sys: System, f: Frame): System {
    if f.TelemetryFrame? then sys else sys.(link := Send(sys.link, f).0)
  }

  function WriterTurn(sys: System): System {
    var (link, frame) := TakeNext(sys.link);
    match frame
    case Some(TelemetryFrame(m)) => sys.(link := link, wire := sys.wire + [m])
    case _ => sys.(link := link)
  }

  /** The backend receives the next message; a rejected one changes only what the ingress says. */
  function BackendReceives(env: Env, sys: System, now: real): System
    requires env.capacity > 0 && Good(BackendOf(sys))
  {
    if sys.wire == [] then sys
    else
      var m := sys.wire[0];
      var (ingress, outcome) := Accept(sys.ingress, m);
      var received := sys.(wire := sys.wire[1..], ingress := ingress, log := Log(sys.log, m, outcome));
      if outcome.Emitted? then received.(raw := ApplyBatch(sys.raw, outcome.batch, now, env.capacity).0) else received
  }

  /** The connection drops: the queue is emptied and the publisher told, while old messages may still arrive. */
  function LinkLost(sys: System): System {
    sys.(link := Disconnected(sys.link), publisher := Publisher.Reset(sys.publisher).(sessionActive := false))
  }

  /** A new connection gets a new backend session; the publisher begins an epoch at once. */
  function LinkReady(env: Env, sys: System, now: real): System
    requires WellFormed(env.registry)
  {
    if sys.link.ready then sys
    else
      Begin(env,
            sys.(link := sys.link.(ready := true), wire := [], ingress := Cleared(), log := [], raw := EmptyRaw(),
                 publisher := sys.publisher.(sessionActive := true)),
            now)
  }

  // ----- steps and runs

  datatype Step =
    | Byte(b: byte, now: real)
    | Timeout(now: real)
    | FlushStep(now: real)
    | Other(frame: Frame)
    | Writer
    | Arrive(now: real)
    | Drop
    | Connect(now: real)

  /** What the steps need to be defined at all. */
  ghost predicate Sane(env: Env, sys: System) {
    && WellFormed(env.registry) && ValidParser(sys.parser) && sys.publisher.pending.Valid()
    && Good(BackendOf(sys)) && env.capacity > 0
  }

  ghost function Advance(env: Env, sys: System, step: Step): System
    requires Sane(env, sys)
  {
    match step
    case Byte(b, now) => ByteIn(env, sys, b, now)
    case Timeout(now) => CheckTimeout(env, sys, now)
    case FlushStep(now) => FlushNow(env, sys, now)
    case Other(frame) => OtherFrame(sys, frame)
    case Writer => WriterTurn(sys)
    case Arrive(now) => BackendReceives(env, sys, now)
    case Drop => LinkLost(sys)
    case Connect(now) => LinkReady(env, sys, now)
  }

  // ----- the invariant

  function Telemetry(frames: seq<Frame>): seq<Message>
    decreases |frames|
  {
    if frames == [] then []
    else
      var front, last := Telemetry(frames[..|frames| - 1]), frames[|frames| - 1];
      if last.TelemetryFrame? then front + [last.message] else front
  }

  function Undelivered(sys: System): seq<Message> {
    sys.wire + Telemetry(sys.link.outbound)
  }

  function BackendOf(sys: System): Backend {
    Backend(sys.ingress, sys.log, Readings(sys.raw.entries.at))
  }

  /** The backend once it has received everything sent and the rest of the opening. */
  ghost function Target(sys: System): Option<Backend>
    requires Good(BackendOf(sys))
  {
    DeliverAll(BackendOf(sys), Undelivered(sys) + sys.publisher.initial)
  }

  ghost predicate SoundEnv(env: Env) {
    SoundMetadata(env.registry) && RoomyConfig(env)
  }

  predicate RoomyConfig(env: Env) {
    && env.cfg.maxPendingControls >= MAX_SESSION_CONTROLS && env.cfg.maxSwitchTransitions > 0
    && env.capacity >= MAX_SESSION_CONTROLS
  }

  /** What a reader sees is what the writes since the current aircraft appeared would show on a blank space. */
  ghost predicate OnlySince(space: Space, since: seq<Stamped>) {
    AllInBounds(since) && SameVisible(space, BiosState.AppliedAll(Blank(), since))
  }

  ghost predicate ClientSide(env: Env, sys: System) {
    && ValidParser(sys.parser)
    && Tracks(env.registry, sys.client)
    && (sys.client.aircraft.Some? ==> sys.client.connected && 0 < |sys.client.aircraft.value| <= 64)
    && OnlySince(sys.client.space, sys.since)
  }

  ghost predicate BackendSide(sys: System) {
    && Good(BackendOf(sys)) && Backed(sys.ingress, sys.raw)
    && EpochsBelow(BackendOf(sys), Undelivered(sys), sys.nextEpoch)
    && DeliverAll(BackendOf(sys), Undelivered(sys)).Some?
  }

  ghost predicate Publishing(env: Env, sys: System)
    requires Good(BackendOf(sys))
  {
    var p := sys.publisher;
    if p.epoch.None? then p.initial == [] && p.pending == Empty()
    else
      && sys.client.aircraft == p.aircraft
      && Complete(env.registry, sys.client)
      && (forall m :: m in p.initial ==> m.header.epoch < sys.nextEpoch)
      && Target(sys).Some?
      && Live(env.registry, env.cfg, p, sys.client.decoded, Target(sys).value)
  }

  ghost predicate Inv(env: Env, sys: System) {
    SoundEnv(env) && ClientSide(env, sys) && BackendSide(sys) && Publishing(env, sys)
  }

  /** The outbound queue is within its bound, and empty while there is no connection. */
  ghost predicate LinkSide(sys: System) {
    Bounded(sys.link) && (sys.link.ready || sys.link.outbound == [])
  }

  lemma StartInv(env: Env)
    requires SoundEnv(env)
    ensures Inv(env, Start(env))
  {
    var sys := Start(env);
    assert Undelivered(sys) == [] && Readings(map[]) == map[];
  }

  /** An environment in which every step is defined, whatever its metadata declares. */
  ghost predicate Usable(env: Env) {
    WellFormed(env.registry) && env.capacity > 0
  }

  lemma StartSane(env: Env)
    requires Usable(env)
    ensures Sane(env, Start(env))
  {
  }

  // ----- opening an epoch

  /** Some definition decodes to this value. */
  ghost predicate IsReadOf(v: DecodedValue, definitions: seq<Definition>, s: Space)
    requires forall d :: d in definitions ==> Located(d)
  {
    exists d :: d in definitions && Read(d, s).Some? && v == ValueOf(Read(d, s).value)
  }

  /** A snapshot's values are the decodable controls' values, in order and each once. */
  lemma {:induction false} SnapshotValues(s: Space, decoded: map<Definition, Reading>, definitions: seq<Definition>)
    requires DistinctControls(definitions) && forall d :: d in definitions ==> Located(d)
    ensures
      var values := ValuesOf(ReadAll(s, decoded, definitions).1);
      && |values| <= |definitions|
      && (forall v :: v in values ==> IsReadOf(v, definitions, s))
      && (forall d :: d in definitions && Read(d, s).Some? ==> ValueOf(Read(d, s).value) in values)
      && DistinctValues(values)
    decreases |definitions|
  {
    if definitions != [] {
      var d, rest := definitions[0], definitions[1..];
      assert forall e :: e in definitions <==> e == d || e in rest;
      match Read(d, s)
      case None =>
        SnapshotValues(s, decoded, rest);
        WiderReads(ValuesOf(ReadAll(s, decoded, rest).1), rest, definitions, s);
      case Some(change) =>
        SnapshotValues(s, decoded[d := change.value], rest);
        var values := ValuesOf(ReadAll(s, decoded[d := change.value], rest).1);
        assert ValuesOf(ReadAll(s, decoded, definitions).1) == [ValueOf(change)] + values;
        WiderReads(values, rest, definitions, s);
        assert IsReadOf(ValueOf(change), definitions, s);
        PrependDistinct(definitions, ValueOf(change), values, s);
    }
  }

  lemma WiderReads(values: seq<DecodedValue>, few: seq<Definition>, many: seq<Definition>, s: Space)
    requires forall d :: d in many ==> Located(d)
    requires forall d :: d in few ==> d in many
    requires forall v :: v in values ==> IsReadOf(v, few, s)
    ensures forall v :: v in values ==> IsReadOf(v, many, s)
  {
    forall v | v in values ensures IsReadOf(v, many, s) {
      assert IsReadOf(v, few, s);
    }
  }

  lemma {:induction false} PrependDistinct(definitions: seq<Definition>, v: DecodedValue, values: seq<DecodedValue>,
                                           s: Space)
    requires DistinctControls(definitions) && definitions != [] && forall d :: d in definitions ==> Located(d)
    requires v.identity == IdentityOf(definitions[0])
    requires forall w :: w in values ==> IsReadOf(w, definitions[1..], s)
    requires DistinctValues(values)
    ensures DistinctValues([v] + values)
  {
    DistinctValuePositions(values);
    DistinctValuePositions([v] + values);
    forall j | 0 <= j < |values| ensures values[j].identity != v.identity {
      assert values[j] in values && IsReadOf(values[j], definitions[1..], s);
      var e :| e in definitions[1..] && Read(e, s).Some? && values[j] == ValueOf(Read(e, s).value);
      var i :| 0 <= i < |definitions[1..]| && definitions[1..][i] == e;
      assert definitions[i + 1] == e;
    }
  }
}
