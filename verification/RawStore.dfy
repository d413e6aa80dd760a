/**
  The backend's bounded store of decoded values (cloud/dcs_copilot_cloud/aircraft/raw.py) and what
  each telemetry batch does to it (apply_telemetry_batch in cloud/dcs_copilot_cloud/app.py).
 */
module RawStore {
  import opened Wrappers
  import opened InsertionDict
  import opened Wire
  import opened Ingress

  datatype RawEntry = RawEntry(value: Reading, receivedAt: real)

  datatype Raw = Raw(entries: Dict<Identity, RawEntry>, catalog: map<Identity, Option<int>>)

  function EmptyRaw(): Raw {
    Raw(Empty(), map[])
  }

  // ----- operations as functions

  /** A known key moves to the end; a new key in a full store evicts the oldest. */
  function Updated(d: Dict<Identity, RawEntry>, key: Identity, entry: RawEntry, capacity: nat): Dict<Identity, RawEntry>
    requires capacity > 0
  {
    if key in d.at then d.Remove(key).Put(key, entry)
    else if |d.keys| >= capacity then d.Remove(d.keys[0]).Put(key, entry)
    else d.Put(key, entry)
  }

  function Applied(d: Dict<Identity, RawEntry>, v: DecodedValue, now: real, capacity: nat): Dict<Identity, RawEntry>
    requires capacity > 0
  {
    if v.available && v.value.Some? then Updated(d, v.identity, RawEntry(v.value.value, now), capacity)
    else d.Remove(v.identity)
  }

  function AppliedAll(d: Dict<Identity, RawEntry>, values: seq<DecodedValue>, now: real, capacity: nat)
      : Dict<Identity, RawEntry>
    requires capacity > 0
    decreases |values|
  {
    if values == [] then d else AppliedAll(Applied(d, values[0], now, capacity), values[1..], now, capacity)
  }

  /** Err is the ValueError of a full catalog. */
  function Registered(catalog: map<Identity, Option<int>>, entry: CatalogEntry, capacity: nat)
      : Result<map<Identity, Option<int>>>
  {
    if entry.identity !in catalog then
      if |catalog| >= capacity then Err else Ok(catalog[entry.identity := entry.integerMax])
    else if entry.integerMax.Some? then Ok(catalog[entry.identity := entry.integerMax])
    else Ok(catalog)
  }

  /** Registers entries until one is refused; what was registered before it stays. */
  function RegisteredAll(catalog: map<Identity, Option<int>>, entries: seq<CatalogEntry>, capacity: nat)
    : (r: (map<Identity, Option<int>>, bool))
    decreases |entries|
  {
    if entries == [] then (catalog, true)
    else
      match Registered(catalog, entries[0], capacity)
      case Err => (catalog, false)
      case Ok(next) => RegisteredAll(next, entries[1..], capacity)
  }

  /** The store after a batch, and whether all of it was applied: a full catalog stops a snapshot before any value. */
  function ApplyBatch(raw: Raw, batch: Batch, now: real, capacity: nat): (r: (Raw, bool))
    requires capacity > 0
  {
    match batch
    case ResetBatch(_, _) => (EmptyRaw(), true)
    case DeltaBatch(_, _, values) => (raw.(entries := AppliedAll(raw.entries, values, now, capacity)), true)
    case SnapshotBatch(_, _, catalog, values) =>
      var (registered, complete) := RegisteredAll(raw.catalog, catalog, capacity);
      (Raw(if complete then AppliedAll(raw.entries, values, now, capacity) else raw.entries, registered), complete)
  }

  // ----- the store as a plain map

  function Readings(entries: map<Identity, RawEntry>): map<Identity, Reading> {
    map k | k in entries :: entries[k].value
  }

  lemma ReadingsPut(entries: map<Identity, RawEntry>, k: Identity, entry: RawEntry)
    ensures Readings(entries[k := entry]) == Readings(entries)[k := entry.value]
  {
  }

  lemma ReadingsRemove(entries: map<Identity, RawEntry>, k: Identity)
    ensures Readings(entries - {k}) == Readings(entries) - {k}
  {
  }

  function ApplyValue(m: map<Identity, Reading>, v: DecodedValue): map<Identity, Reading> {
    if v.available && v.value.Some? then m[v.identity := v.value.value] else m - {v.identity}
  }

  function ApplyValues(m: map<Identity, Reading>, values: seq<DecodedValue>): map<Identity, Reading>
    decreases |values|
  {
    if values == [] then m else ApplyValues(ApplyValue(m, values[0]), values[1..])
  }

  function BatchReadings(m: map<Identity, Reading>, batch: Batch): map<Identity, Reading> {
    match batch
    case ResetBatch(_, _) => map[]
    case SnapshotBatch(_, _, _, values) => ApplyValues(m, values)
    case DeltaBatch(_, _, values) => ApplyValues(m, values)
  }

  lemma {:induction false} UpdatedWithRoom(d: Dict<Identity, RawEntry>, k: Identity, entry: RawEntry, capacity: nat)
    requires capacity > 0 && d.Valid() && (k in d.at || |d.keys| < capacity)
    ensures Updated(d, k, entry, capacity).Valid()
    ensures Updated(d, k, entry, capacity).at == d.at[k := entry]
  {
    RemoveKeepsValid(d, k);
    PutKeepsValid(d.Remove(k), k, entry);
    PutKeepsValid(d, k, entry);
  }

  /** While every key comes from a set no larger than the capacity, nothing is evicted. */
  lemma {:induction false} AppliedKeepsReadings(d: Dict<Identity, RawEntry>, v: DecodedValue, now: real, capacity: nat,
                                                known: set<Identity>)
    requires capacity > 0 && |known| <= capacity
    requires d.Valid() && d.at.Keys <= known && v.identity in known
    ensures Applied(d, v, now, capacity).Valid()
    ensures Applied(d, v, now, capacity).at.Keys <= known
    ensures Readings(Applied(d, v, now, capacity).at) == ApplyValue(Readings(d.at), v)
  {
    if v.available && v.value.Some? {
      if v.identity !in d.at {
        RoomForOneMore(d, v.identity, capacity, known);
      }
      UpdatedWithRoom(d, v.identity, RawEntry(v.value.value, now), capacity);
      ReadingsPut(d.at, v.identity, RawEntry(v.value.value, now));
    } else {
      RemoveKeepsValid(d, v.identity);
      ReadingsRemove(d.at, v.identity);
    }
  }

  lemma RoomForOneMore(d: Dict<Identity, RawEntry>, k: Identity, capacity: nat, known: set<Identity>)
    requires |known| <= capacity
    requires d.Valid() && d.at.Keys <= known && k in known && k !in d.at
    ensures |d.keys| < capacity
  {
    SizeOfValid(d);
    SubsetSize(d.at.Keys + {k}, known);
  }

  lemma AppliedAllKeepsReadings(d: Dict<Identity, RawEntry>, values: seq<DecodedValue>, now: real, capacity: nat,
                                known: set<Identity>)
    requires capacity > 0 && |known| <= capacity
    requires d.Valid() && d.at.Keys <= known
    requires forall i :: 0 <= i < |values| ==> values[i].identity in known
    ensures AppliedAll(d, values, now, capacity).Valid()
    ensures AppliedAll(d, values, now, capacity).at.Keys <= known
    ensures Readings(AppliedAll(d, values, now, capacity).at) == ApplyValues(Readings(d.at), values)
    decreases |values|
  {
    if values != [] {
      AppliedKeepsReadings(d, values[0], now, capacity, known);
      AppliedAllKeepsReadings(Applied(d, values[0], now, capacity), values[1..], now, capacity, known);
    }
  }

  lemma RegisteredAllFits(catalog: map<Identity, Option<int>>, entries: seq<CatalogEntry>, capacity: nat,
                          known: set<Identity>)
    requires |known| <= capacity && catalog.Keys <= known
    requires forall i :: 0 <= i < |entries| ==> entries[i].identity in known
    ensures RegisteredAll(catalog, entries, capacity).1
    ensures RegisteredAll(catalog, entries, capacity).0.Keys <= known
    decreases |entries|
  {
    if entries != [] {
      if entries[0].identity !in catalog {
        SubsetSize(catalog.Keys + {entries[0].identity}, known);
      }
      RegisteredAllFits(Registered(catalog, entries[0], capacity).value, entries[1..], capacity, known);
    }
  }

  // ----- what a batch leaves for each control

  /** The newest of the values about a control. */
  function LastAbout(values: seq<DecodedValue>, k: Identity): Option<DecodedValue>
    decreases |values|
  {
    if values == [] then None
    else if LastAbout(values[1..], k).Some? then LastAbout(values[1..], k)
    else if values[0].identity == k then Some(values[0])
    else None
  }

  lemma LastAboutIsMember(values: seq<DecodedValue>, k: Identity)
    ensures LastAbout(values, k).Some? <==> exists v :: v in values && v.identity == k
    ensures LastAbout(values, k).Some? ==>
              LastAbout(values, k).value in values && LastAbout(values, k).value.identity == k
    decreases |values|
  {
    if values != [] {
      LastAboutIsMember(values[1..], k);
      assert forall v :: v in values <==> v == values[0] || v in values[1..];
    }
  }

  /**
    A batch within capacity decides each control by its newest value about it: stored as received now if it is
    available, gone if it is not; a control the batch does not mention keeps its entry.
   */
  lemma {:induction false} BatchEntries(d: Dict<Identity, RawEntry>, values: seq<DecodedValue>, now: real,
                                        capacity: nat, known: set<Identity>, k: Identity)
    requires capacity > 0 && |known| <= capacity
    requires d.Valid() && d.at.Keys <= known
    requires forall v :: v in values ==> v.identity in known
    ensures
      var after := AppliedAll(d, values, now, capacity).at;
      match LastAbout(values, k)
      case None => (k in after <==> k in d.at) && (k in d.at ==> after[k] == d.at[k])
      case Some(v) =>
        if v.available && v.value.Some? then k in after && after[k] == RawEntry(v.value.value, now) else k !in after
    decreases |values|
  {
    hide Applied, Readings, ApplyValue, NoDuplicates;
    if values != [] {
      OneEntry(d, values[0], now, capacity, known, k);
      AppliedKeepsReadings(d, values[0], now, capacity, known);
      BatchEntries(Applied(d, values[0], now, capacity), values[1..], now, capacity, known, k);
    }
  }

  lemma OneEntry(d: Dict<Identity, RawEntry>, v: DecodedValue, now: real, capacity: nat, known: set<Identity>,
                 k: Identity)
    requires capacity > 0 && |known| <= capacity
    requires d.Valid() && d.at.Keys <= known && v.identity in known
    ensures
      var after := Applied(d, v, now, capacity).at;
      if k != v.identity then (k in after <==> k in d.at) && (k in d.at ==> after[k] == d.at[k])
      else if v.available && v.value.Some? then k in after && after[k] == RawEntry(v.value.value, now)
      else k !in after
  {
    if v.available && v.value.Some? {
      if v.identity !in d.at {
        RoomForOneMore(d, v.identity, capacity, known);
      }
      UpdatedWithRoom(d, v.identity, RawEntry(v.value.value, now), capacity);
    } else {
      RemoveKeepsValid(d, v.identity);
    }
  }

  /**
    Whatever the capacity, an update puts the control last and keeps the newest that fit, in the order of their
    updates.
   */
  lemma UpdatedKeepsNewest(d: Dict<Identity, RawEntry>, k: Identity, entry: RawEntry, capacity: nat)
    requires capacity > 0 && d.Valid() && |d.keys| <= capacity
    ensures
      var after, order := Updated(d, k, entry, capacity), Without(d.keys, k) + [k];
      && after.Valid() && |after.keys| <= capacity
      && after.keys == (if |order| > capacity then order[1..] else order)
      && forall x :: x in after.keys ==> x in after.at && after.at[x] == if x == k then entry else d.at[x]
  {
    hide Without, NoDuplicates;
    WithoutSize(d.keys, k);
    if k in d.at {
      RemoveKeepsValid(d, k);
      PutKeepsValid(d.Remove(k), k, entry);
    } else if |d.keys| >= capacity {
      SizeOfValid(d);
      WithoutFirst(d.keys);
      FirstLeaves(d);
      PutKeepsValid(d.Remove(d.keys[0]), k, entry);
    } else {
      PutKeepsValid(d, k, entry);
    }
  }

  lemma FirstLeaves(d: Dict<Identity, RawEntry>)
    requires d.Valid() && d.keys != []
    ensures d.Remove(d.keys[0]).Valid() && d.Remove(d.keys[0]).keys == d.keys[1..]
    ensures d.Remove(d.keys[0]).at == d.at - {d.keys[0]}
  {
    hide Without;
    RemoveKeepsValid(d, d.keys[0]);
    WithoutFirst(d.keys);
  }

  lemma {:induction false} WithoutSize(keys: seq<Identity>, k: Identity)
    ensures |Without(keys, k)| <= |keys|
    ensures k !in keys ==> Without(keys, k) == keys
    ensures k in keys ==> |Without(keys, k)| < |keys|
    decreases |keys|
  {
    if keys != [] {
      WithoutSize(keys[..|keys| - 1], k);
      assert keys == keys[..|keys| - 1] + [keys[|keys| - 1]];
    }
  }

  lemma {:induction false} WithoutFirst(keys: seq<Identity>)
    requires keys != [] && NoDuplicates(keys)
    ensures Without(keys, keys[0]) == keys[1..]
    decreases |keys|
  {
    var front, last := keys[..|keys| - 1], keys[|keys| - 1];
    if front == [] {
      assert keys[1..] == [] && Without([], keys[0]) == [];
    } else {
      WithoutFirst(front);
      assert front[0] == keys[0] && last != keys[0];
      assert keys[1..] == front[1..] + [last];
    }
  }

  /** The newest maximum that the entries give for a control. */
  function LastMaximum(entries: seq<CatalogEntry>, k: Identity): Option<int>
    decreases |entries|
  {
    if entries == [] then None
    else if LastMaximum(entries[1..], k).Some? then LastMaximum(entries[1..], k)
    else if entries[0].identity == k then entries[0].integerMax
    else None
  }

  /** A catalog that fits holds the old and the new controls, each with the newest maximum it was given. */
  lemma {:induction false} CatalogMaxima(catalog: map<Identity, Option<int>>, entries: seq<CatalogEntry>,
                                         capacity: nat, k: Identity)
    requires RegisteredAll(catalog, entries, capacity).1
    ensures
      var after := RegisteredAll(catalog, entries, capacity).0;
      && (k in after <==> k in catalog || exists e :: e in entries && e.identity == k)
      && (k in after ==>
            after[k] == if LastMaximum(entries, k).Some? then LastMaximum(entries, k)
                        else if k in catalog then catalog[k] else None)
    decreases |entries|
  {
    if entries != [] {
      var next := Registered(catalog, entries[0], capacity).value;
      CatalogMaxima(next, entries[1..], capacity, k);
      assert forall e :: e in entries <==> e == entries[0] || e in entries[1..];
    }
  }

  /** A catalog that does not fit stops at the first new control it has no room for, and keeps the entries before it. */
  lemma {:induction false} FullCatalogStops(catalog: map<Identity, Option<int>>, entries: seq<CatalogEntry>,
                                            capacity: nat)
    requires !RegisteredAll(catalog, entries, capacity).1
    ensures
      var after := RegisteredAll(catalog, entries, capacity).0;
      exists n ::
        && 0 <= n < |entries| && RegisteredAll(catalog, entries[..n], capacity) == (after, true)
        && entries[n].identity !in after && |after| >= capacity
    decreases |entries|
  {
    match Registered(catalog, entries[0], capacity)
    case Err =>
      assert entries[..0] == [];
      assert RegisteredAll(catalog, entries[..0], capacity) == (catalog, true);
    case Ok(next) =>
      FullCatalogStops(next, entries[1..], capacity);
      var n :|
        && 0 <= n < |entries[1..]|
        && RegisteredAll(next, entries[1..][..n], capacity) == (RegisteredAll(catalog, entries, capacity).0, true)
        && entries[1..][n].identity !in RegisteredAll(catalog, entries, capacity).0
        && |RegisteredAll(catalog, entries, capacity).0| >= capacity;
      assert entries[..n + 1][0] == entries[0] && entries[..n + 1][1..] == entries[1..][..n];
      assert RegisteredAll(catalog, entries[..n + 1], capacity) == (RegisteredAll(catalog, entries, capacity).0, true);
      assert entries[n + 1] == entries[1..][n];
  }

  // ----- the backend: ingress and store together

  /** The store holds only controls of the ingress's current catalog. */
  ghost predicate Backed(s: Ingress.State, raw: Raw) {
    && raw.entries.Valid()
    && raw.entries.at.Keys <= s.catalog.at.Keys
    && raw.catalog.Keys <= s.catalog.at.Keys
  }

  /**
    Whatever message arrives, applying its batch to a store of 4096 controls never fails and never
    evicts: the store changes exactly as a plain map would.
   */
  lemma {:induction false} BatchNeverEvicts(s: Ingress.State, log: seq<Message>, m: Message, raw: Raw, now: real,
                                            capacity: nat)
    requires Stream(s, log) && Backed(s, raw) && capacity >= MAX_SESSION_CONTROLS
    ensures
      var (s', o) := Accept(s, m);
      if o.Emitted? then
        var applied := ApplyBatch(raw, o.batch, now, capacity);
        && applied.1 && Backed(s', applied.0)
        && Readings(applied.0.entries.at) == BatchReadings(Readings(raw.entries.at), o.batch)
      else Backed(s', raw)
  {
    CatalogGrows(s, log, m);
    var (s', o) := Accept(s, m);
    if o.Emitted? && !o.batch.ResetBatch? {
      EmittedValuesWereChecked(s, log, m);
      SizeOfValid(s.catalog);
      AppliedAllKeepsReadings(raw.entries, o.batch.values, now, capacity, s.catalog.at.Keys);
      if o.batch.SnapshotBatch? {
        RegisteredAllFits(raw.catalog, o.batch.catalog, capacity, s.catalog.at.Keys);
      }
    }
  }

  // ----- the mutable object

  class RawTelemetryStore {
    const maxControls: nat
    var entries: Dict<Identity, RawEntry>
    var catalog: map<Identity, Option<int>>

    function View(): Raw
      reads this
    {
      Raw(entries, catalog)
    }

    constructor (maxControls: nat)
      ensures View() == EmptyRaw() && this.maxControls == maxControls
    {
      this.maxControls := maxControls;
      entries, catalog := Empty(), map[];
    }

    /** Refused, leaving the catalog alone, when a new control meets a full catalog. */
    method CatalogRegister(entry: CatalogEntry) returns (ok: bool)
      modifies this
      ensures ok == Registered(old(catalog), entry, maxControls).Ok?
      ensures View() == old(View()).(catalog := if ok then Registered(old(catalog), entry, maxControls).value
                                                else old(catalog))
    {
      if entry.identity !in catalog {
        if |catalog| >= maxControls {
          return false;
        }
        catalog := catalog[entry.identity := entry.integerMax];
      } else if entry.integerMax.Some? {
        catalog := catalog[entry.identity := entry.integerMax];
      }
      return true;
    }

    method Update(key: Identity, value: Reading, receivedAt: real)
      requires maxControls > 0 && entries.Valid()
      modifies this
      ensures View() == old(View()).(entries := Updated(old(entries), key, RawEntry(value, receivedAt), maxControls))
      ensures entries.Valid()
    {
      UpdatedKeepsValid(entries, key, RawEntry(value, receivedAt), maxControls);
      if key in entries.at {
        entries := entries.Remove(key).Put(key, RawEntry(value, receivedAt));
        return;
      }
      if |entries.keys| >= maxControls {
        entries := entries.Remove(entries.keys[0]);
      }
      entries := entries.Put(key, RawEntry(value, receivedAt));
    }

    method MarkUnavailable(key: Identity)
      requires entries.Valid()
      modifies this
      ensures View() == old(View()).(entries := old(entries).Remove(key)) && entries.Valid()
    {
      RemoveKeepsValid(entries, key);
      entries := entries.Remove(key);
    }

    method Reset()
      modifies this
      ensures View() == EmptyRaw()
    {
      entries, catalog := Empty(), map[];
    }
  }

  lemma UpdatedKeepsValid(d: Dict<Identity, RawEntry>, key: Identity, entry: RawEntry, capacity: nat)
    requires capacity > 0 && d.Valid()
    ensures Updated(d, key, entry, capacity).Valid()
  {
    RemoveKeepsValid(d, key);
    PutKeepsValid(d.Remove(key), key, entry);
    PutKeepsValid(d, key, entry);
    if key !in d.at && |d.keys| >= capacity {
      RemoveKeepsValid(d, d.keys[0]);
      PutKeepsValid(d.Remove(d.keys[0]), key, entry);
    }
  }

  method RegisterCatalog(store: RawTelemetryStore, catalog: seq<CatalogEntry>) returns (ok: bool)
    modifies store
    ensures (store.catalog, ok) == RegisteredAll(old(store.catalog), catalog, store.maxControls)
    ensures store.entries == old(store.entries)
  {
    var i := 0;
    while i < |catalog|
      invariant 0 <= i <= |catalog| && store.entries == old(store.entries)
      invariant RegisteredAll(store.catalog, catalog[i..], store.maxControls) ==
                RegisteredAll(old(store.catalog), catalog, store.maxControls)
    {
      assert catalog[i..][1..] == catalog[i + 1..];
      ok := store.CatalogRegister(catalog[i]);
      if !ok {
        return;
      }
      i := i + 1;
    }
    return true;
  }

  method ApplyReadings(store: RawTelemetryStore, values: seq<DecodedValue>, now: real)
    requires store.maxControls > 0 && store.entries.Valid()
    modifies store
    ensures store.View() == old(store.View()).(entries :=
                                               AppliedAll(old(store.entries), values, now, store.maxControls))
    ensures store.entries.Valid()
  {
    var i := 0;
    while i < |values|
      invariant 0 <= i <= |values| && store.catalog == old(store.catalog) && store.entries.Valid()
      invariant AppliedAll(store.entries, values[i..], now, store.maxControls) ==
                AppliedAll(old(store.entries), values, now, store.maxControls)
    {
      assert values[i..][1..] == values[i + 1..];
      var v := values[i];
      if v.available && v.value.Some? {
        store.Update(v.identity, v.value.value, now);
      } else {
        store.MarkUnavailable(v.identity);
      }
      i := i + 1;
    }
  }

  /**
    What a batch does to the store. `stateUpdated` is false when the update of the aircraft state that a reset
    begins with raises, and then the reset does nothing; a full catalog stops a snapshot before any value.
   */
  method ApplyTelemetryBatch(store: RawTelemetryStore, batch: Batch, stateUpdated: bool, now: real) returns (ok: bool)
    requires store.maxControls > 0 && store.entries.Valid()
    modifies store
    ensures
      if batch.ResetBatch? && !stateUpdated then !ok && store.View() == old(store.View())
      else (store.View(), ok) == ApplyBatch(old(store.View()), batch, now, store.maxControls)
    ensures store.entries.Valid()
  {
    match batch
    case ResetBatch(_, _) =>
      if !stateUpdated {
        return false;
      }
      store.Reset();
      ok := true;
    case SnapshotBatch(_, _, catalog, values) =>
      ok := RegisterCatalog(store, catalog);
      if ok {
        ApplyReadings(store, values, now);
      }
    case DeltaBatch(_, _, values) =>
      ApplyReadings(store, values, now);
      ok := true;
  }
}
