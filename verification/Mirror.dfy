/**
  The publisher's half of mirror agreement: whatever is queued, coalesced, sent or refused, the
  readings a backend will hold once it has received everything sent, overlaid with the newest queued
  values, are the values the client last reported.
 */
module Mirror {
  import opened Wrappers
  import opened InsertionDict
  import opened Wire
  import opened Ingress
  import opened RawStore
  import opened BiosState
  import opened BiosRegistry
  import opened BiosClient
  import opened Publisher
  import opened Delivery

  type Queues = map<Identity, seq<DecodedValue>>

  /** The reading the backend ends up with for one control: the newest queued value, else the delivered one. */
  function Expected(readings: map<Identity, Reading>, queues: Queues, id: Identity): Option<Reading> {
    if id in queues && queues[id] != [] then queues[id][|queues[id]| - 1].value
    else if id in readings then Some(readings[id])
    else None
  }

  ghost predicate Agrees(controls: seq<Definition>, readings: map<Identity, Reading>, queues: Queues,
                         decoded: map<Definition, Reading>)
  {
    forall d :: d in controls ==> Expected(readings, queues, IdentityOf(d)) == Lookup(decoded, d)
  }

  // ----- metadata

  /** What the registry must declare for its controls to be publishable at all. */
  ghost predicate SoundMetadata(r: Registry) {
    BoundedMetadata(r) && forall d :: d in r.definitions ==> DeclaresItsRange(d.kind)
  }

  /** The same without the declared maxima, which only have to be what a catalog entry can carry. */
  ghost predicate BoundedMetadata(r: Registry) {
    && WellFormed(r)
    && (forall d :: d in r.definitions && d.kind.IntegerKind? ==> d.kind.maxValue >= 0)
    && (forall d :: d in r.definitions && d.kind.StringKind? ==> d.kind.length <= MAX_STRING_LENGTH)
    && (forall a: string :: |Active(r, Some(a))| <= MAX_SESSION_CONTROLS)
    && (AircraftName(r.definitions).Some? ==> ByteLength(AircraftName(r.definitions).value) <= 64)
  }

  function CatalogFor(r: Registry, aircraft: string): map<Identity, CatalogEntry> {
    CatalogOf(EntriesOf(Active(r, Some(aircraft))))
  }

  function ModulesOf(definitions: seq<Definition>): set<string> {
    set d | d in definitions :: d.moduleName
  }

  lemma {:induction false} CatalogHolds(definitions: seq<Definition>, d: Definition)
    requires DistinctControls(definitions) && d in definitions
    ensures IdentityOf(d) in CatalogOf(EntriesOf(definitions))
    ensures CatalogOf(EntriesOf(definitions))[IdentityOf(d)] == EntryOf(d)
    decreases |definitions|
  {
    var front, last := definitions[..|definitions| - 1], definitions[|definitions| - 1];
    assert definitions == front + [last];
    assert EntriesOf(definitions)[..|definitions| - 1] == EntriesOf(front);
    if d != last {
      assert d in front;
      var i :| 0 <= i < |front| && front[i] == d;
      assert definitions[i] == d && IdentityOf(definitions[i]) != IdentityOf(last);
      CatalogHolds(front, d);
    }
  }

  lemma {:induction false} CatalogHoldsOnly(definitions: seq<Definition>, id: Identity)
    requires id in CatalogOf(EntriesOf(definitions))
    ensures exists d :: d in definitions && IdentityOf(d) == id
    decreases |definitions|
  {
    var front, last := definitions[..|definitions| - 1], definitions[|definitions| - 1];
    assert EntriesOf(definitions)[..|definitions| - 1] == EntriesOf(front);
    if id != IdentityOf(last) {
      CatalogHoldsOnly(front, id);
    } else {
      assert last in definitions;
    }
  }

  lemma ActiveIsDistinct(r: Registry, aircraft: Option<string>)
    requires WellFormed(r)
    ensures DistinctControls(Active(r, aircraft))
  {
    if aircraft.Some? {
      SelectKeepsDistinct(r.definitions, ModulesFor(r, aircraft.value));
    }
  }

  /** A change read from the address space, as the publisher would send it, passes every check of the backend. */
  lemma {:induction false} ReadIsChecked(r: Registry, aircraft: string, d: Definition, s: Space)
    requires SoundMetadata(r) && d in Active(r, Some(aircraft)) && Read(d, s).Some?
    ensures
      var v := ValueOf(Read(d, s).value);
      && v.identity == IdentityOf(d) && v.available && v.value == Decode(d, s)
      && ValueIsLegal(v) && Checked(CatalogFor(r, aircraft), v)
  {
    ActiveIsDistinct(r, Some(aircraft));
    CatalogHolds(Active(r, Some(aircraft)), d);
    DecodedInRange(d.kind, Contents(s, d.address, ByteLength(d)));
  }

  // ----- queues

  ghost predicate QueueIsSound(queue: seq<DecodedValue>, id: Identity, catalog: map<Identity, CatalogEntry>) {
    && queue != []
    && forall v :: v in queue ==>
         v.identity == id && v.available && v.value.Some? && ValueIsLegal(v) && Checked(catalog, v)
  }

  ghost predicate QueuesAreSound(queues: Queues, catalog: map<Identity, CatalogEntry>) {
    forall id :: id in queues ==> id in catalog && QueueIsSound(queues[id], id, catalog)
  }

  /** A publisher in a live epoch, what the client last reported, and the backend once everything sent has arrived. */
  ghost predicate Live(r: Registry, cfg: Config, p: Publisher.State, decoded: map<Definition, Reading>,
                       target: Backend)
  {
    && SoundMetadata(r) && cfg.maxPendingControls >= MAX_SESSION_CONTROLS && cfg.maxSwitchTransitions > 0
    && p.sessionActive && p.epoch.Some? && p.aircraft.Some? && 0 < |p.aircraft.value| <= 64
    && p.catalog == CatalogFor(r, p.aircraft.value)
    && p.activeModules == ModulesOf(Active(r, p.aircraft))
    && p.pending.Valid() && QueuesAreSound(p.pending.at, p.catalog)
    && Good(target)
    && ReadyFor(target.ingress, p.epoch.value, p.aircraft.value, p.nextSequence, p.catalog)
    && Agrees(Active(r, p.aircraft), target.readings, p.pending.at, decoded)
  }

  /** With room for every published control, no value is ever dropped. */
  lemma {:induction false} RoomInQueue(r: Registry, cfg: Config, p: Publisher.State, id: Identity)
    requires SoundMetadata(r) && cfg.maxPendingControls >= MAX_SESSION_CONTROLS
    requires p.aircraft.Some? && p.catalog == CatalogFor(r, p.aircraft.value)
    requires p.pending.Valid() && QueuesAreSound(p.pending.at, p.catalog)
    requires id in p.catalog && id !in p.pending.at
    ensures |p.pending.keys| < cfg.maxPendingControls
  {
    SizeOfValid(p.pending);
    SubsetSize(p.pending.at.Keys + {id}, p.catalog.Keys);
    CatalogSize(EntriesOf(Active(r, p.aircraft)));
  }

  lemma {:induction false} CatalogSize(entries: seq<CatalogEntry>)
    ensures |CatalogOf(entries)| <= |entries|
    decreases |entries|
  {
    if entries != [] {
      var front := CatalogOf(entries[..|entries| - 1]);
      CatalogSize(entries[..|entries| - 1]);
      assert CatalogOf(entries).Keys == front.Keys + {entries[|entries| - 1].identity};
    }
  }

  lemma {:induction false} CoalesceKeepsSound(queue: seq<DecodedValue>, v: DecodedValue, isSwitch: bool, limit: nat,
                                             id: Identity, catalog: map<Identity, CatalogEntry>)
    requires queue == [] || QueueIsSound(queue, id, catalog)
    requires v.identity == id && v.available && v.value.Some? && ValueIsLegal(v) && Checked(catalog, v)
    ensures QueueIsSound(Coalesce(queue, v, isSwitch, limit).0, id, catalog)
  {
  }

  /** Queueing a newly reported value keeps the agreement. */
  lemma {:induction false} QueueKeepsLive(r: Registry, cfg: Config, p: Publisher.State,
                                          decoded: map<Definition, Reading>, target: Backend,
                                         d: Definition, s: Space)
    requires Live(r, cfg, p, decoded, target)
    requires d in Active(r, p.aircraft) && Read(d, s).Some?
    ensures
      var change := Read(d, s).value;
      Live(r, cfg, QueueValue(cfg, p, ValueOf(change)), decoded[d := change.value], target)
  {
    hide Good, ReadyFor, Agrees, QueuesAreSound, Checked, ValueIsLegal, QueueIsSound;
    var change := Read(d, s).value;
    ReadIsChecked(r, p.aircraft.value, d, s);
    QueueKeepsSound(r, cfg, p, ValueOf(change));
    var queue := QueueValue(cfg, p, ValueOf(change)).pending.at[IdentityOf(d)];
    QueueKeepsAgreement(r, Active(r, p.aircraft), target.readings, p.pending.at, decoded, d, queue, change.value);
  }

  lemma {:induction false} QueueKeepsSound(r: Registry, cfg: Config, p: Publisher.State, v: DecodedValue)
    requires SoundMetadata(r) && cfg.maxPendingControls >= MAX_SESSION_CONTROLS
    requires p.aircraft.Some? && p.catalog == CatalogFor(r, p.aircraft.value)
    requires p.pending.Valid() && QueuesAreSound(p.pending.at, p.catalog)
    requires v.available && v.value.Some? && ValueIsLegal(v) && Checked(p.catalog, v)
    ensures
      var q := QueueValue(cfg, p, v);
      && v.identity in q.pending.at
      && q == p.(pending := q.pending, coalescedValues := q.coalescedValues)
      && q.pending.Valid() && QueuesAreSound(q.pending.at, p.catalog)
      && q.pending.at == p.pending.at[v.identity := q.pending.at[v.identity]]
      && q.pending.at[v.identity] != [] && q.pending.at[v.identity][|q.pending.at[v.identity]| - 1] == v
  {
    var id := v.identity;
    if id !in p.pending.at {
      RoomInQueue(r, cfg, p, id);
    }
    hide SoundMetadata;
    var q := QueueValue(cfg, p, v);
    CoalesceKeepsSound(QueueOf(p, id), v, IsSwitch(p.catalog, id), cfg.maxSwitchTransitions, id, p.catalog);
    PutKeepsValid(p.pending, id, q.pending.at[id]);
  }

  lemma {:induction false} QueueKeepsAgreement(r: Registry, controls: seq<Definition>,
                                               readings: map<Identity, Reading>, queues: Queues,
                                              decoded: map<Definition, Reading>, d: Definition,
                                              queue: seq<DecodedValue>, value: Reading)
    requires WellFormed(r) && d in controls && forall e :: e in controls ==> e in r.definitions
    requires Agrees(controls, readings, queues, decoded)
    requires queue != [] && queue[|queue| - 1].value == Some(value)
    ensures Agrees(controls, readings, queues[IdentityOf(d) := queue], decoded[d := value])
  {
    forall e | e in controls
      ensures Expected(readings, queues[IdentityOf(d) := queue], IdentityOf(e)) == Lookup(decoded[d := value], e)
    {
      if IdentityOf(e) == IdentityOf(d) {
        DistinctIdentities(r, d, e);
      } else {
        assert Expected(readings, queues, IdentityOf(e)) == Lookup(decoded, e);
      }
    }
  }

  /** A value of a control that is not published changes nothing the backend sees. */
  lemma {:induction false} ForeignKeepsLive(r: Registry, cfg: Config, p: Publisher.State,
                                            decoded: map<Definition, Reading>, target: Backend,
                                           d: Definition, value: Reading)
    requires Live(r, cfg, p, decoded, target) && d !in Active(r, p.aircraft)
    ensures Live(r, cfg, p, decoded[d := value], target)
  {
    hide Good, ReadyFor;
    forall e | e in Active(r, p.aircraft)
      ensures Expected(target.readings, p.pending.at, IdentityOf(e)) == Lookup(decoded[d := value], e)
    {
      assert Expected(target.readings, p.pending.at, IdentityOf(e)) == Lookup(decoded, e);
    }
  }

  lemma PublishedByModule(r: Registry, aircraft: Option<string>, d: Definition)
    requires d in r.definitions
    ensures d.moduleName in ModulesOf(Active(r, aircraft)) <==> d in Active(r, aircraft)
  {
  }

  lemma LiveIsWellFormed(r: Registry, cfg: Config, p: Publisher.State, decoded: map<Definition, Reading>,
                         target: Backend)
    requires Live(r, cfg, p, decoded, target)
    ensures WellFormed(r) && forall d :: d in r.definitions ==> Located(d)
  {
  }

  /** Reporting a frame's changes through the publisher's callback keeps the agreement. */
  lemma {:induction false} ReportKeepsLive(r: Registry, cfg: Config, p: Publisher.State,
                                           decoded: map<Definition, Reading>, target: Backend,
                                          s: Space, definitions: seq<Definition>)
    requires Live(r, cfg, p, decoded, target)
    requires forall d :: d in definitions ==> d in r.definitions
    ensures
      var (after, changes) := Report(s, decoded, definitions);
      Live(r, cfg, ControlsChanged(cfg, p, changes), after, target)
    decreases |definitions|
  {
    hide Good, ReadyFor, Agrees, QueuesAreSound, CatalogFor;
    if definitions != [] {
      var d, rest := definitions[0], definitions[1..];
      LiveIsWellFormed(r, cfg, p, decoded, target);
      match Read(d, s)
      case None => ReportKeepsLive(r, cfg, p, decoded, target, s, rest);
      case Some(change) =>
        if d in decoded && decoded[d] == change.value {
          ReportKeepsLive(r, cfg, p, decoded, target, s, rest);
        } else {
          var p' := ControlChanged(cfg, p, change);
          PublishedByModule(r, p.aircraft, d);
          if d in Active(r, p.aircraft) {
            QueueKeepsLive(r, cfg, p, decoded, target, d, s);
          } else {
            ForeignKeepsLive(r, cfg, p, decoded, target, d, change.value);
          }
          ReportKeepsLive(r, cfg, p', decoded[d := change.value], target, s, rest);
          var (after, changes) := Report(s, decoded[d := change.value], rest);
          assert ([change] + changes)[1..] == changes;
        }
    }
  }

  /** Queueing a refresh snapshot keeps the agreement. */
  lemma {:induction false} RefreshKeepsLive(r: Registry, cfg: Config, p: Publisher.State,
                                            decoded: map<Definition, Reading>, target: Backend,
                                           s: Space, definitions: seq<Definition>)
    requires Live(r, cfg, p, decoded, target)
    requires forall d :: d in definitions ==> d in Active(r, p.aircraft) && Located(d)
    ensures
      var (after, changes) := ReadAll(s, decoded, definitions);
      Live(r, cfg, QueueAll(cfg, p, ValuesOf(changes)), after, target)
    decreases |definitions|
  {
    hide Good, ReadyFor, Agrees, QueuesAreSound, SoundMetadata, CatalogFor, ModulesOf, Live, Read, QueueValue;
    if definitions != [] {
      var d, rest := definitions[0], definitions[1..];
      match Read(d, s)
      case None => RefreshKeepsLive(r, cfg, p, decoded, target, s, rest);
      case Some(change) =>
        QueueKeepsLive(r, cfg, p, decoded, target, d, s);
        QueueKeepsAircraft(cfg, p, ValueOf(change));
        RefreshKeepsLive(r, cfg, QueueValue(cfg, p, ValueOf(change)), decoded[d := change.value], target, s, rest);
        var (after, changes) := ReadAll(s, decoded[d := change.value], rest);
        assert ValuesOf([change] + changes)[0] == ValueOf(change)
               && ValuesOf([change] + changes)[1..] == ValuesOf(changes);
    }
  }

  lemma QueueKeepsAircraft(cfg: Config, p: Publisher.State, v: DecodedValue)
    ensures QueueValue(cfg, p, v).aircraft == p.aircraft
  {
  }

  // ----- sending a delta

  lemma {:induction false} PopHeadsAt(d: Dict<Identity, seq<DecodedValue>>, ids: seq<Identity>)
    requires d.Valid() && NoDuplicates(ids)
    requires forall k :: k in ids ==> k in d.at && d.at[k] != []
    ensures
      var after := PopHeads(d, ids);
      && after.Valid()
      && (forall k :: k in after.at <==> k in d.at && !(k in ids && |d.at[k]| == 1))
      && (forall k :: k in after.at ==> after.at[k] == if k in ids then d.at[k][1..] else d.at[k])
    decreases |ids|
  {
    if ids != [] {
      var id, rest := ids[0], ids[1..];
      NoDuplicatesTail(ids);
      RemoveKeepsValid(d, id);
      PutKeepsValid(d, id, d.at[id][1..]);
      PopHeadsAt(PopHead(d, id), rest);
      assert forall k :: k in ids <==> k == id || k in rest;
    }
  }

  lemma {:induction false} HeadsAreDistinct(ids: seq<Identity>, queues: Queues, catalog: map<Identity, CatalogEntry>)
    requires NoDuplicates(ids) && QueuesAreSound(queues, catalog)
    requires forall k :: k in ids ==> k in queues && queues[k] != []
    ensures DistinctValues(Heads(ids, queues)) && AllChecked(catalog, Heads(ids, queues))
    ensures forall v :: v in Heads(ids, queues) ==>
            v.available && v.value.Some? && v.identity in ids && v == queues[v.identity][0]
    ensures forall k :: k in ids ==> queues[k][0] in Heads(ids, queues)
  {
    var heads := Heads(ids, queues);
    DistinctPositions(ids);
    DistinctValuePositions(heads);
    forall i | 0 <= i < |ids| ensures heads[i] == queues[ids[i]][0] && heads[i].identity == ids[i] && heads[i].available
        && heads[i].value.Some? && ValueIsLegal(heads[i]) && Checked(catalog, heads[i])
    {
      assert ids[i] in ids && QueueIsSound(queues[ids[i]], ids[i], catalog) && queues[ids[i]][0] in queues[ids[i]];
    }
    forall k | k in ids ensures queues[k][0] in heads {
      var i :| 0 <= i < |ids| && ids[i] == k;
      assert heads[i] == queues[k][0];
    }
  }

  /** An accepted delta moves the heads of the queues to the backend and leaves the agreement as it was. */
  lemma {:induction false} DeltaKeepsLive(r: Registry, cfg: Config, p: Publisher.State,
                                          decoded: map<Definition, Reading>, target: Backend)
    requires Live(r, cfg, p, decoded, target)
    requires NextDelta(p).Some?
    ensures
      var (ids, delta) := NextDelta(p).value;
      var p' := p.(nextSequence := p.nextSequence + 1, pending := PopHeads(p.pending, ids));
      && Deliver(target, delta).Some?
      && Live(r, cfg, p', decoded, Deliver(target, delta).value)
  {
    var (ids, delta) := NextDelta(p).value;
    hide Deliver, Good, ReadyFor, QueuesAreSound, AllChecked, Agrees, SoundMetadata, IsLegal;
    SelectedAreQueued(p.pending.keys, p.pending.at, MAX_VALUES);
    var heads := Heads(ids, p.pending.at);
    HeadsAreDistinct(ids, p.pending.at, p.catalog);
    DeliverDelta(target, p.epoch.value, p.aircraft.value, p.nextSequence, p.catalog, heads);
    PopHeadsAt(p.pending, ids);
    var after := PopHeads(p.pending, ids);
    var target' := Deliver(target, delta).value;
    PopKeepsSound(p.pending.at, after.at, ids, p.catalog);
    PopKeepsAgreement(Active(r, p.aircraft), target.readings, p.pending.at, after.at, ids, decoded, p.catalog);
  }

  lemma {:induction false} PopKeepsSound(before: Queues, after: Queues, ids: seq<Identity>,
                                         catalog: map<Identity, CatalogEntry>)
    requires QueuesAreSound(before, catalog)
    requires forall k :: k in after <==> k in before && !(k in ids && |before[k]| == 1)
    requires forall k :: k in after ==> after[k] == if k in ids then before[k][1..] else before[k]
    ensures QueuesAreSound(after, catalog)
  {
    forall k | k in after ensures k in catalog && QueueIsSound(after[k], k, catalog) {
      assert QueueIsSound(before[k], k, catalog);
    }
  }

  lemma {:induction false} PopKeepsAgreement(controls: seq<Definition>, readings: map<Identity, Reading>,
                                             before: Queues, after: Queues,
                                            ids: seq<Identity>, decoded: map<Definition, Reading>,
                                            catalog: map<Identity, CatalogEntry>)
    requires Agrees(controls, readings, before, decoded)
    requires NoDuplicates(ids) && QueuesAreSound(before, catalog)
    requires forall k :: k in ids ==> k in before && before[k] != []
    requires forall k :: k in after <==> k in before && !(k in ids && |before[k]| == 1)
    requires forall k :: k in after ==> after[k] == if k in ids then before[k][1..] else before[k]
    ensures Agrees(controls, ApplyValues(readings, Heads(ids, before)), after, decoded)
  {
    forall d | d in controls
      ensures Expected(ApplyValues(readings, Heads(ids, before)), after, IdentityOf(d)) == Lookup(decoded, d)
    {
      PopKeepsExpected(readings, before, after, ids, IdentityOf(d), catalog);
      assert Expected(readings, before, IdentityOf(d)) == Lookup(decoded, d);
    }
  }

  lemma {:induction false} PopKeepsExpected(readings: map<Identity, Reading>, before: Queues, after: Queues,
                                           ids: seq<Identity>, id: Identity, catalog: map<Identity, CatalogEntry>)
    requires NoDuplicates(ids) && QueuesAreSound(before, catalog)
    requires forall k :: k in ids ==> k in before && before[k] != []
    requires id in after <==> id in before && !(id in ids && |before[id]| == 1)
    requires id in after ==> after[id] == if id in ids then before[id][1..] else before[id]
    ensures Expected(ApplyValues(readings, Heads(ids, before)), after, id) == Expected(readings, before, id)
  {
    hide NoDuplicates, ApplyValues, DistinctValues;
    var heads := Heads(ids, before);
    HeadsAreDistinct(ids, before, catalog);
    ApplyValuesAt(readings, heads, id);
    if id in before {
      HeadIsSound(before, id, catalog);
    }
    if id in ids {
      HeadOf(ids, before, id);
    }
    hide QueuesAreSound, Heads;
  }

  lemma HeadIsSound(queues: Queues, id: Identity, catalog: map<Identity, CatalogEntry>)
    requires QueuesAreSound(queues, catalog) && id in queues
    ensures queues[id] != []
    ensures forall v :: v in queues[id] ==> v.identity == id && v.available && v.value.Some?
  {
    assert QueueIsSound(queues[id], id, catalog);
  }

  lemma HeadOf(ids: seq<Identity>, queues: Queues, id: Identity)
    requires id in ids && forall k :: k in ids ==> k in queues && queues[k] != []
    ensures queues[id][0] in Heads(ids, queues)
  {
    var i :| 0 <= i < |ids| && ids[i] == id;
    assert Heads(ids, queues)[i] == queues[id][0];
  }
}
