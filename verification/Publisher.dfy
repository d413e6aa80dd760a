/**
  The telemetry publisher (client/dcs_copilot/telemetry/publisher.py): one epoch per aircraft session
  made of catalog chunks, snapshot chunks and coalesced deltas. What the publisher asks its client
  for (active definitions, snapshot, connected) and the clock are inputs of each operation.
 */
module Publisher {
  import opened Wrappers
  import opened InsertionDict
  import opened Wire
  import opened BiosRegistry
  import opened BiosClient
  import opened Connection

  datatype Config = Config(maxPendingControls: nat, maxSwitchTransitions: nat, refreshInterval: real)

  datatype State = State(
    sessionActive: bool,
    epoch: Option<nat>,
    aircraft: Option<string>,
    nextRefreshAt: Option<real>,
    nextSequence: nat,
    initial: seq<Message>,
    pending: Dict<Identity, seq<DecodedValue>>,
    catalog: map<Identity, CatalogEntry>,
    activeModules: set<string>,
    droppedControls: nat,
    coalescedValues: nat)

  function Idle(): State {
    State(false, None, None, None, 0, [], Empty(), map[], {}, 0, 0)
  }

  // ----- conversions

  /** Milliseconds, rounded half to even, never negative. */
  function Millis(t: real): nat {
    var x := t * 1000.0;
    var low := x.Floor;
    var rest := x - low as real;
    var rounded := if rest < 0.5 || (rest == 0.5 && low % 2 == 0) then low else low + 1;
    if rounded < 0 then 0 else rounded
  }

  /** The nearest number of milliseconds; halfway the even one, and none for a time before zero. */
  lemma MillisAreNearest(t: real, m: nat)
    ensures
      Millis(t) == m <==>
      if t <= 0.0 then m == 0
      else
        var off := 1000.0 * t - m as real;
        -0.5 <= off <= 0.5 && (off == -0.5 || off == 0.5 ==> m % 2 == 0)
  {
    var x := t * 1000.0;
    var low := x.Floor;
    if t <= 0.0 {
      assert low <= 0;
    }
  }

  function ValueOf(c: Change): DecodedValue {
    DecodedValue(IdentityOf(c.definition), true, Some(c.value), Millis(c.observedAt))
  }

  function EntryOf(d: Definition): CatalogEntry {
    match d.kind
    case IntegerKind(_, _, maxValue) => CatalogEntry(IdentityOf(d), Some(maxValue), None)
    case StringKind(length) => CatalogEntry(IdentityOf(d), None, Some(length))
  }

  /** A catalog entry tells controls apart by module, name, index and kind, and gives their range. */
  lemma EntriesTellControls(d: Definition, e: Definition)
    ensures EntryOf(d) == EntryOf(e) <==>
            && d.moduleName == e.moduleName && d.identifier == e.identifier && d.outputIndex == e.outputIndex
            && if d.kind.IntegerKind? then e.kind.IntegerKind? && d.kind.maxValue == e.kind.maxValue
               else d.kind == e.kind
  {
  }

  function ValuesOf(changes: seq<Change>): seq<DecodedValue> {
    seq(|changes|, i requires 0 <= i < |changes| => ValueOf(changes[i]))
  }

  function EntriesOf(definitions: seq<Definition>): seq<CatalogEntry> {
    seq(|definitions|, i requires 0 <= i < |definitions| => EntryOf(definitions[i]))
  }

  function Chunks<T>(values: seq<T>, size: nat): seq<seq<T>>
    requires size > 0
    decreases |values|
  {
    if values == [] then []
    else if |values| <= size then [values]
    else [values[..size]] + Chunks(values[size..], size)
  }

  /** `_chunks`, or the single empty chunk when there is nothing to send. */
  function ChunksToSend<T>(values: seq<T>, size: nat): seq<seq<T>>
    requires size > 0
  {
    if values == [] then [[]] else Chunks(values, size)
  }

  function CatalogMessages(epoch: nat, aircraft: string, sequence: nat, chunks: seq<seq<CatalogEntry>>, index: nat,
                           count: nat): seq<Message>
    decreases |chunks|
  {
    if chunks == [] then []
    else
      [Catalog(Header(epoch, sequence, aircraft, index, count), chunks[0])]
      + CatalogMessages(epoch, aircraft, sequence + 1, chunks[1..], index + 1, count)
  }

  function SnapshotMessages(epoch: nat, aircraft: string, sequence: nat, chunks: seq<seq<DecodedValue>>, index: nat,
                            count: nat): seq<Message>
    decreases |chunks|
  {
    if chunks == [] then []
    else
      [Snapshot(Header(epoch, sequence, aircraft, index, count), chunks[0])]
      + SnapshotMessages(epoch, aircraft, sequence + 1, chunks[1..], index + 1, count)
  }

  // ----- operations as functions

  function Reset(p: State): State {
    p.(epoch := None, aircraft := None, nextSequence := 0, nextRefreshAt := None,
       initial := [], pending := Empty(), catalog := map[], activeModules := {})
  }

  function Opening(epoch: nat, aircraft: string, entries: seq<CatalogEntry>, values: seq<DecodedValue>): seq<Message> {
    var catalogs, snapshots := ChunksToSend(entries, MAX_ENTRIES), ChunksToSend(values, MAX_VALUES);
    CatalogMessages(epoch, aircraft, 0, catalogs, 0, |catalogs|)
    + SnapshotMessages(epoch, aircraft, |catalogs|, snapshots, 0, |snapshots|)
  }

  function CatalogOf(entries: seq<CatalogEntry>): map<Identity, CatalogEntry>
    decreases |entries|
  {
    if entries == [] then map[]
    else CatalogOf(entries[..|entries| - 1])[entries[|entries| - 1].identity := entries[|entries| - 1]]
  }

  function BeginEpoch(cfg: Config, p: State, aircraft: Option<string>, definitions: seq<Definition>,
                      snapshot: seq<Change>,
                      epoch: nat, now: real): State
  {
    if !p.sessionActive || aircraft.None? then Reset(p)
    else
      var entries, values := EntriesOf(definitions), ValuesOf(snapshot);
      Reset(p).(
        epoch := Some(epoch),
        aircraft := aircraft,
        nextRefreshAt := Some(now + cfg.refreshInterval),
        catalog := CatalogOf(entries),
        activeModules := set d | d in definitions :: d.moduleName,
        initial := Opening(epoch, aircraft.value, entries, values),
        nextSequence := |ChunksToSend(entries, MAX_ENTRIES)| + |ChunksToSend(values, MAX_VALUES)|)
  }

  predicate IsSwitch(catalog: map<Identity, CatalogEntry>, id: Identity) {
    id in catalog && id.outputType == IntegerOutput && catalog[id].integerMax == Some(1)
  }

  /** One control's queue after a new value, and whether a value was coalesced. */
  function Coalesce(queue: seq<DecodedValue>, v: DecodedValue, isSwitch: bool, limit: nat)
      : (r: (seq<DecodedValue>, bool))
    ensures |r.0| > 0 && r.0[|r.0| - 1] == v
  {
    if queue != [] && (queue[|queue| - 1].value == v.value || !isSwitch || |queue| >= limit) then
      (queue[|queue| - 1 := v], true)
    else
      (queue + [v], false)
  }

  function Waiting(queues: map<Identity, seq<DecodedValue>>, id: Identity): seq<DecodedValue> {
    if id in queues then queues[id] else []
  }

  function QueueOf(p: State, id: Identity): seq<DecodedValue> {
    Waiting(p.pending.at, id)
  }

  function QueueValue(cfg: Config, p: State, v: DecodedValue): State {
    if v.identity !in p.pending.at && |p.pending.keys| >= cfg.maxPendingControls then
      p.(droppedControls := p.droppedControls + 1)
    else
      var (queue, coalesced) := Coalesce(QueueOf(p, v.identity), v, IsSwitch(p.catalog, v.identity),
                                         cfg.maxSwitchTransitions);
      p.(pending := p.pending.Put(v.identity, queue), coalescedValues := p.coalescedValues + if coalesced then 1 else 0)
  }

  function QueueAll(cfg: Config, p: State, values: seq<DecodedValue>): State
    decreases |values|
  {
    if values == [] then p else QueueAll(cfg, QueueValue(cfg, p, values[0]), values[1..])
  }

  function ControlChanged(cfg: Config, p: State, c: Change): State {
    if !p.sessionActive || p.epoch.None? || c.definition.moduleName !in p.activeModules then p
    else QueueValue(cfg, p, ValueOf(c))
  }

  function ControlsChanged(cfg: Config, p: State, changes: seq<Change>): State
    decreases |changes|
  {
    if changes == [] then p else ControlsChanged(cfg, ControlChanged(cfg, p, changes[0]), changes[1..])
  }

  /** What asking the client `connected` and, if it is, `decoded_snapshot` brings. */
  datatype Reply = Connected(snapshot: seq<Change>) | NotConnected | JustTimedOut

  predicate RefreshDue(p: State, now: real) {
    p.nextRefreshAt.Some? && now >= p.nextRefreshAt.value
  }

  /** A timeout noticed here resets the publisher through its connection callback. */
  function Refresh(cfg: Config, p: State, now: real, reply: Reply): State {
    if !RefreshDue(p, now) then p
    else
      match reply
      case JustTimedOut => Reset(p)
      case NotConnected => p
      case Connected(snapshot) =>
        if p.epoch.None? then p
        else QueueAll(cfg, p.(nextRefreshAt := Some(now + cfg.refreshInterval)), ValuesOf(snapshot))
  }

  /** Sends queued opening messages until one is refused. */
  function SendInitial(initial: seq<Message>, link: Link): (seq<Message>, Link)
    decreases |initial|
  {
    if initial == [] then ([], link)
    else
      var (link', queued) := Send(link, TelemetryFrame(initial[0]));
      if queued then SendInitial(initial[1..], link') else (initial, link')
  }

  /** The first `room` controls with a queued value, in the order they were first queued. */
  function Selected(keys: seq<Identity>, at: map<Identity, seq<DecodedValue>>, room: nat): seq<Identity>
    requires forall k :: k in keys ==> k in at
    decreases |keys|
  {
    if keys == [] || room == 0 then []
    else if at[keys[0]] == [] then Selected(keys[1..], at, room)
    else [keys[0]] + Selected(keys[1..], at, room - 1)
  }

  lemma {:induction false} SelectedAreQueued(keys: seq<Identity>, at: map<Identity, seq<DecodedValue>>, room: nat)
    requires forall k :: k in keys ==> k in at
    ensures forall k :: k in Selected(keys, at, room) ==> k in keys && at[k] != []
    ensures |Selected(keys, at, room)| <= room
    ensures NoDuplicates(keys) ==> NoDuplicates(Selected(keys, at, room))
    decreases |keys|
  {
    if keys != [] && room > 0 {
      if at[keys[0]] == [] {
        NoDuplicatesTail(keys);
        SelectedAreQueued(keys[1..], at, room);
      } else {
        NoDuplicatesTail(keys);
        SelectedAreQueued(keys[1..], at, room - 1);
        if NoDuplicates(keys) {
          PrependFresh(keys[0], Selected(keys[1..], at, room - 1));
        }
      }
    }
  }

  function Heads(ids: seq<Identity>, at: map<Identity, seq<DecodedValue>>): seq<DecodedValue>
    requires forall k :: k in ids ==> k in at && at[k] != []
  {
    seq(|ids|, i requires 0 <= i < |ids| => at[ids[i]][0])
  }

  function PopHead(d: Dict<Identity, seq<DecodedValue>>, id: Identity): Dict<Identity, seq<DecodedValue>> {
    if id !in d.at || |d.at[id]| <= 1 then d.Remove(id) else d.Put(id, d.at[id][1..])
  }

  function PopHeads(d: Dict<Identity, seq<DecodedValue>>, ids: seq<Identity>): Dict<Identity, seq<DecodedValue>>
    decreases |ids|
  {
    if ids == [] then d else PopHeads(PopHead(d, ids[0]), ids[1..])
  }

  /** The next delta: the oldest queued value of up to 1024 controls. */
  function NextDelta(p: State): (r: Option<(seq<Identity>, Message)>)
    requires p.pending.Valid()
  {
    var ids := Selected(p.pending.keys, p.pending.at, MAX_VALUES);
    SelectedAreQueued(p.pending.keys, p.pending.at, MAX_VALUES);
    if p.epoch.None? || ids == [] || p.nextSequence > MAX_SEQUENCE then None
    else
      Some((ids, Delta(Header(p.epoch.value, p.nextSequence, if p.aircraft.Some? then p.aircraft.value else "", 0, 1),
                       Heads(ids, p.pending.at))))
  }

  function FlushPending(p: State, link: Link): (State, Link)
    requires p.pending.Valid()
  {
    match NextDelta(p)
    case None => (p, link)
    case Some((ids, delta)) =>
      var (link', queued) := Send(link, TelemetryFrame(delta));
      if queued then (p.(nextSequence := p.nextSequence + 1, pending := PopHeads(p.pending, ids)), link')
      else (p, link')
  }

  lemma QueueAllKeepsValid(cfg: Config, p: State, values: seq<DecodedValue>)
    requires p.pending.Valid()
    ensures QueueAll(cfg, p, values).pending.Valid()
    decreases |values|
  {
    if values != [] {
      var q := QueueValue(cfg, p, values[0]);
      if q.pending != p.pending {
        PutKeepsValid(p.pending, values[0].identity, q.pending.at[values[0].identity]);
      }
      QueueAllKeepsValid(cfg, q, values[1..]);
    }
  }

  function Flush(cfg: Config, p: State, link: Link, now: real, reply: Reply): (State, Link)
    requires p.pending.Valid()
  {
    if !p.sessionActive || p.epoch.None? then (p, link)
    else
      var (initial, link1) := SendInitial(p.initial, link);
      var p1 := p.(initial := initial);
      if initial != [] then (p1, link1)
      else
        var p2 := Refresh(cfg, p1, now, reply);
        if reply.Connected? then
          QueueAllKeepsValid(cfg, p1.(nextRefreshAt := Some(now + cfg.refreshInterval)), ValuesOf(reply.snapshot));
          FlushPending(p2, link1)
        else
          FlushPending(p2, link1)
  }

  /** The number of messages and values still to be sent. */
  function PendingCount(p: State): nat {
    |p.initial| + Total(p.pending.keys, p.pending.at)
  }

  function Total(keys: seq<Identity>, at: map<Identity, seq<DecodedValue>>): nat
    decreases |keys|
  {
    if keys == [] then 0
    else
      var last := keys[|keys| - 1];
      Total(keys[..|keys| - 1], at) + if last in at then |at[last]| else 0
  }

  // ----- the mutable object

  class TelemetryPublisher {
    const cfg: Config
    var sessionActive: bool
    var epoch: Option<nat>
    var aircraft: Option<string>
    var nextRefreshAt: Option<real>
    var nextSequence: nat
    var initial: seq<Message>
    var pending: Dict<Identity, seq<DecodedValue>>
    var catalog: map<Identity, CatalogEntry>
    var activeModules: set<string>
    var droppedControls: nat
    var coalescedValues: nat

    function View(): State
      reads this
    {
      State(sessionActive, epoch, aircraft, nextRefreshAt, nextSequence, initial, pending, catalog, activeModules,
            droppedControls, coalescedValues)
    }

    constructor (cfg: Config)
      ensures View() == Idle() && this.cfg == cfg
    {
      this.cfg := cfg;
      sessionActive, epoch, aircraft, nextRefreshAt, nextSequence := false, None, None, None, 0;
      initial, pending, catalog, activeModules := [], Empty(), map[], {};
      droppedControls, coalescedValues := 0, 0;
    }

    method ResetEpoch()
      modifies this
      ensures View() == Reset(old(View()))
    {
      epoch, aircraft, nextSequence, nextRefreshAt := None, None, 0, None;
      initial, pending, catalog, activeModules := [], Empty(), map[], {};
    }

    method TakeSequence() returns (sequence: nat)
      modifies this`nextSequence
      ensures sequence == old(nextSequence) && nextSequence == sequence + 1
    {
      sequence := nextSequence;
      nextSequence := nextSequence + 1;
    }

    method AppendCatalog(newEpoch: nat, newAircraft: string, chunks: seq<seq<CatalogEntry>>)
      modifies this
      ensures View() == old(View()).(initial := initial, nextSequence := old(nextSequence) + |chunks|)
      ensures initial == old(initial) + CatalogMessages(newEpoch, newAircraft, old(nextSequence), chunks, 0, |chunks|)
    {
      var i := 0;
      ghost var first := nextSequence;
      while i < |chunks|
        invariant 0 <= i <= |chunks|
        invariant View() == old(View()).(initial := initial, nextSequence := first + i)
        invariant initial + CatalogMessages(newEpoch, newAircraft, first + i, chunks[i..], i, |chunks|)
               == old(initial) + CatalogMessages(newEpoch, newAircraft, first, chunks, 0, |chunks|)
      {
        assert chunks[i..][1..] == chunks[i + 1..];
        var sequence := TakeSequence();
        initial := initial + [Catalog(Header(newEpoch, sequence, newAircraft, i, |chunks|), chunks[i])];
        i := i + 1;
      }
    }

    method AppendSnapshot(newEpoch: nat, newAircraft: string, chunks: seq<seq<DecodedValue>>)
      modifies this
      ensures View() == old(View()).(initial := initial, nextSequence := old(nextSequence) + |chunks|)
      ensures initial == old(initial) + SnapshotMessages(newEpoch, newAircraft, old(nextSequence), chunks, 0, |chunks|)
    {
      var i := 0;
      ghost var first := nextSequence;
      while i < |chunks|
        invariant 0 <= i <= |chunks|
        invariant View() == old(View()).(initial := initial, nextSequence := first + i)
        invariant initial + SnapshotMessages(newEpoch, newAircraft, first + i, chunks[i..], i, |chunks|)
               == old(initial) + SnapshotMessages(newEpoch, newAircraft, first, chunks, 0, |chunks|)
      {
        assert chunks[i..][1..] == chunks[i + 1..];
        var sequence := TakeSequence();
        initial := initial + [Snapshot(Header(newEpoch, sequence, newAircraft, i, |chunks|), chunks[i])];
        i := i + 1;
      }
    }

    /** A new epoch: every catalog chunk, then every snapshot chunk, numbered from zero. */
    method StartEpoch(newAircraft: Option<string>, definitions: seq<Definition>, snapshot: seq<Change>, newEpoch: nat,
                      now: real)
      modifies this
      ensures View() == BeginEpoch(cfg, old(View()), newAircraft, definitions, snapshot, newEpoch, now)
    {
      hide CatalogMessages, SnapshotMessages, ChunksToSend, EntriesOf, ValuesOf, CatalogOf;
      ResetEpoch();
      if !sessionActive || newAircraft.None? {
        return;
      }
      epoch, aircraft, nextRefreshAt := Some(newEpoch), newAircraft, Some(now + cfg.refreshInterval);
      catalog := CatalogOf(EntriesOf(definitions));
      activeModules := set d | d in definitions :: d.moduleName;
      AppendCatalog(newEpoch, newAircraft.value, ChunksToSend(EntriesOf(definitions), MAX_ENTRIES));
      AppendSnapshot(newEpoch, newAircraft.value, ChunksToSend(ValuesOf(snapshot), MAX_VALUES));
    }

    /** Turning a session off discards everything queued; turning it on begins an epoch. */
    method SetSessionActive(active: bool, current: Option<string>, definitions: seq<Definition>, snapshot: seq<Change>,
                            newEpoch: nat, now: real)
      modifies this
      ensures
        View() ==
        if active then BeginEpoch(cfg, old(View()).(sessionActive := true), current, definitions, snapshot, newEpoch,
                                  now)
        else Reset(old(View())).(sessionActive := false)
    {
      sessionActive := active;
      if !active {
        ResetEpoch();
        return;
      }
      StartEpoch(current, definitions, snapshot, newEpoch, now);
    }

    method QueueNew(v: DecodedValue)
      modifies this
      ensures View() == QueueValue(cfg, old(View()), v)
    {
      var queue := [];
      if v.identity in pending.at {
        queue := pending.at[v.identity];
      } else if |pending.keys| >= cfg.maxPendingControls {
        droppedControls := droppedControls + 1;
        return;
      }
      var preserveTransitions := IsSwitch(catalog, v.identity);
      if queue != [] && queue[|queue| - 1].value == v.value {
        queue := queue[|queue| - 1 := v];
        coalescedValues := coalescedValues + 1;
      } else if preserveTransitions {
        if queue != [] && |queue| >= cfg.maxSwitchTransitions {
          queue := queue[|queue| - 1 := v];
          coalescedValues := coalescedValues + 1;
        } else {
          queue := queue + [v];
        }
      } else if queue != [] {
        queue := queue[|queue| - 1 := v];
        coalescedValues := coalescedValues + 1;
      } else {
        queue := queue + [v];
      }
      pending := pending.Put(v.identity, queue);
    }

    method OnControlChanged(c: Change)
      modifies this
      ensures View() == ControlChanged(cfg, old(View()), c)
    {
      if sessionActive && epoch.Some? && c.definition.moduleName in activeModules {
        QueueNew(ValueOf(c));
      }
    }

    method RefreshUnchangedValues(now: real, reply: Reply)
      modifies this
      ensures View() == Refresh(cfg, old(View()), now, reply)
    {
      if nextRefreshAt.None? || now < nextRefreshAt.value {
        return;
      }
      match reply
      case JustTimedOut => ResetEpoch();
      case NotConnected =>
      case Connected(snapshot) =>
        if epoch.Some? {
          nextRefreshAt := Some(now + cfg.refreshInterval);
          ghost var begun := View();
          var values := ValuesOf(snapshot);
          var i := 0;
          while i < |values|
            invariant 0 <= i <= |values|
            invariant QueueAll(cfg, View(), values[i..]) == QueueAll(cfg, begun, values)
          {
            assert values[i..][1..] == values[i + 1..];
            QueueNew(values[i]);
            i := i + 1;
          }
        }
    }

    /** The opening messages until one is refused, then a due refresh, then one delta of the oldest queued values. */
    method FlushTo(link: CloudSessionConnection, now: real, reply: Reply)
      requires pending.Valid() && Bounded(link.View())
      modifies this, link
      ensures (View(), link.View()) == Flush(cfg, old(View()), old(link.View()), now, reply)
      ensures Bounded(link.View())
    {
      if !sessionActive || epoch.None? {
        return;
      }
      while initial != []
        invariant Bounded(link.View())
        invariant View() == old(View()).(initial := initial)
        invariant SendInitial(initial, link.View()) == SendInitial(old(initial), old(link.View()))
        decreases |initial|
      {
        var queued := link.SendMessage(TelemetryFrame(initial[0]));
        if !queued {
          return;
        }
        initial := initial[1..];
      }
      if reply.Connected? {
        QueueAllKeepsValid(cfg, View().(nextRefreshAt := Some(now + cfg.refreshInterval)), ValuesOf(reply.snapshot));
      }
      RefreshUnchangedValues(now, reply);
      SendDelta(link);
    }

    /** The controls with a queued value, oldest first, up to 1024, and their oldest values. */
    method CollectHeads() returns (ids: seq<Identity>, values: seq<DecodedValue>)
      requires pending.Valid()
      ensures ids == Selected(pending.keys, pending.at, MAX_VALUES)
      ensures (forall k :: k in ids ==> k in pending.at && pending.at[k] != []) && values == Heads(ids, pending.at)
    {
      hide NoDuplicates;
      ids, values := [], [];
      var keys, at := pending.keys, pending.at;
      var i := 0;
      while i < |keys|
        invariant 0 <= i <= |keys| && |ids| < MAX_VALUES
        invariant forall k :: k in ids ==> k in at && at[k] != []
        invariant values == Heads(ids, at)
        invariant ids + Selected(keys[i..], at, MAX_VALUES - |ids|) == Selected(keys, at, MAX_VALUES)
      {
        assert keys[i..][0] == keys[i] && keys[i..][1..] == keys[i + 1..];
        if at[keys[i]] != [] {
          assert Heads(ids + [keys[i]], at) == values + [at[keys[i]][0]];
          ids, values := ids + [keys[i]], values + [at[keys[i]][0]];
          if |values| == MAX_VALUES {
            break;
          }
        }
        i := i + 1;
      }
    }

    method PopSent(ids: seq<Identity>)
      modifies this
      ensures View() == old(View()).(pending := PopHeads(old(pending), ids))
    {
      var j := 0;
      while j < |ids|
        invariant 0 <= j <= |ids|
        invariant View() == old(View()).(pending := pending)
        invariant PopHeads(pending, ids[j..]) == PopHeads(old(pending), ids)
      {
        assert ids[j..][1..] == ids[j + 1..];
        var queue := if ids[j] in pending.at then pending.at[ids[j]] else [];
        if |queue| <= 1 {
          pending := pending.Remove(ids[j]);
        } else {
          pending := pending.Put(ids[j], queue[1..]);
        }
        j := j + 1;
      }
    }

    method SendDelta(link: CloudSessionConnection)
      requires pending.Valid() && Bounded(link.View())
      modifies this, link
      ensures (View(), link.View()) == FlushPending(old(View()), old(link.View()))
      ensures Bounded(link.View())
    {
      var ids, values := CollectHeads();
      if epoch.None? || ids == [] || nextSequence > MAX_SEQUENCE {
        return;
      }
      var queued := link.SendMessage(
        TelemetryFrame(Delta(Header(epoch.value, nextSequence, if aircraft.Some? then aircraft.value else "", 0, 1),
                             values)));
      if queued {
        nextSequence := nextSequence + 1;
        PopSent(ids);
      }
    }
  }
}
