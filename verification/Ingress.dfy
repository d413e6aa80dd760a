/**
  Strict assembly of one telemetry stream on the backend: a catalog, then one snapshot, then deltas
  (cloud/dcs_copilot_cloud/telemetry.py).
 */
module Ingress {
  import opened Wrappers
  import opened InsertionDict
  import opened Wire

  datatype Batch =
    | ResetBatch(epoch: nat, aircraft: string)
    | SnapshotBatch(epoch: nat, aircraft: string, catalog: seq<CatalogEntry>, values: seq<DecodedValue>)
    | DeltaBatch(epoch: nat, aircraft: string, values: seq<DecodedValue>)

  /** Rejected is the source's TelemetryIngressError; Quiet is acceptance without a batch. */
  datatype Outcome = Rejected | Quiet | Emitted(batch: Batch)

  datatype State = State(
    epoch: Option<nat>,
    aircraft: Option<string>,
    lastSequence: Option<nat>,
    ready: bool,
    catalogChunkCount: Option<nat>,
    catalogChunks: nat,
    catalog: Dict<Identity, CatalogEntry>,
    snapshotChunkCount: Option<nat>,
    snapshotChunks: nat,
    snapshot: Dict<Identity, DecodedValue>)

  function Cleared(): State {
    State(None, None, None, false, None, 0, Empty(), None, 0, Empty())
  }

  // ----- the accept handlers as functions

  predicate InContext(s: State, h: Header) {
    s.epoch == Some(h.epoch) && s.aircraft == Some(h.aircraft)
  }

  predicate NextInSequence(s: State, h: Header) {
    s.lastSequence.Some? && h.sequence == s.lastSequence.value + 1
  }

  predicate CatalogComplete(s: State) {
    s.catalogChunkCount == Some(s.catalogChunks)
  }

  /** An available value has its catalog entry's type and lies in that entry's range. */
  predicate Fits(v: DecodedValue, e: CatalogEntry) {
    v.available ==>
      match v.identity.outputType
      case IntegerOutput =>
        && v.value.Some? && v.value.value.Number?
        && e.integerMax.Some?
        && 0 <= v.value.value.n <= e.integerMax.value
      case StringOutput =>
        && v.value.Some? && v.value.value.Text?
        && e.stringLength.Some?
        && |v.value.value.s| <= e.stringLength.value
  }

  predicate Checked(catalog: map<Identity, CatalogEntry>, v: DecodedValue) {
    v.identity in catalog && Fits(v, catalog[v.identity])
  }

  /** Inserts entries until the first fault; what was inserted before it stays. */
  function InsertEntries(d: Dict<Identity, CatalogEntry>, entries: seq<CatalogEntry>)
    : (r: (Dict<Identity, CatalogEntry>, bool))
    decreases |entries|
  {
    if entries == [] then (d, true)
    else if entries[0].identity in d.at || |d.keys| >= MAX_SESSION_CONTROLS then (d, false)
    else InsertEntries(d.Put(entries[0].identity, entries[0]), entries[1..])
  }

  function InsertValues(d: Dict<Identity, DecodedValue>, catalog: map<Identity, CatalogEntry>,
                        values: seq<DecodedValue>)
    : (r: (Dict<Identity, DecodedValue>, bool))
    decreases |values|
  {
    if values == [] then (d, true)
    else if !Checked(catalog, values[0]) || values[0].identity in d.at || |d.keys| >= MAX_SESSION_CONTROLS then
      (d, false)
    else InsertValues(d.Put(values[0].identity, values[0]), catalog, values[1..])
  }

  function AcceptCatalog(s: State, h: Header, entries: seq<CatalogEntry>): (State, Outcome) {
    var newEpoch := s.epoch != Some(h.epoch);
    if newEpoch && (h.sequence != 0 || h.chunkIndex != 0) then (s, Rejected)
    else if !newEpoch && (!InContext(s, h) || !NextInSequence(s, h) || s.ready || s.snapshotChunkCount.Some?) then
      (s, Rejected)
    else
      var s0 := if newEpoch then Cleared().(epoch := Some(h.epoch), aircraft := Some(h.aircraft)) else s;
      if h.chunkIndex != s0.catalogChunks then (s0, Rejected)
      else if s0.catalogChunkCount.Some? && s0.catalogChunkCount.value != h.chunkCount then (s0, Rejected)
      else
        var (catalog, complete) := InsertEntries(s0.catalog, entries);
        var s1 := s0.(catalogChunkCount := Some(h.chunkCount), catalog := catalog);
        if !complete then (s1, Rejected)
        else
          (s1.(catalogChunks := s1.catalogChunks + 1, lastSequence := Some(h.sequence)),
           if newEpoch then Emitted(ResetBatch(h.epoch, h.aircraft)) else Quiet)
  }

  function AcceptSnapshot(s: State, h: Header, values: seq<DecodedValue>): (State, Outcome)
    requires s.catalog.Valid() && s.snapshot.Valid()
  {
    if !InContext(s, h) || !NextInSequence(s, h) || !CatalogComplete(s) || s.ready then (s, Rejected)
    else if h.chunkIndex != s.snapshotChunks then (s, Rejected)
    else if s.snapshotChunkCount.Some? && s.snapshotChunkCount.value != h.chunkCount then (s, Rejected)
    else
      var (snapshot, complete) := InsertValues(s.snapshot, s.catalog.at, values);
      InsertValuesValid(s.snapshot, s.catalog.at, values);
      var s1 := s.(snapshotChunkCount := Some(h.chunkCount), snapshot := snapshot);
      if !complete then (s1, Rejected)
      else
        var s2 := s1.(snapshotChunks := s1.snapshotChunks + 1, lastSequence := Some(h.sequence));
        if s2.snapshotChunks != h.chunkCount then (s2, Quiet)
        else
          (s2.(ready := true),
           Emitted(SnapshotBatch(h.epoch, h.aircraft, s.catalog.Values(), snapshot.Values())))
  }

  function AcceptDelta(s: State, h: Header, values: seq<DecodedValue>): (State, Outcome) {
    if !InContext(s, h) || !NextInSequence(s, h) || !s.ready then (s, Rejected)
    else if h.chunkIndex != 0 || h.chunkCount != 1 then (s, Rejected)
    else if exists i :: 0 <= i < |values| && !Checked(s.catalog.at, values[i]) then (s, Rejected)
    else (s.(lastSequence := Some(h.sequence)), Emitted(DeltaBatch(h.epoch, h.aircraft, values)))
  }

  function Accept(s: State, m: Message): (State, Outcome)
    requires s.catalog.Valid() && s.snapshot.Valid()
  {
    if !IsLegal(m) then (s, Rejected)
    else
      match m
      case Catalog(h, entries) => AcceptCatalog(s, h, entries)
      case Snapshot(h, values) => AcceptSnapshot(s, h, values)
      case Delta(h, values) => AcceptDelta(s, h, values)
  }

  // ----- the dictionaries stay well formed and bounded

  ghost predicate Keyed(d: Dict<Identity, CatalogEntry>) {
    forall k :: k in d.at ==> d.at[k].identity == k
  }

  lemma InsertEntriesValid(d: Dict<Identity, CatalogEntry>, entries: seq<CatalogEntry>)
    requires d.Valid() && Keyed(d) && |d.keys| <= MAX_SESSION_CONTROLS
    ensures Keyed(InsertEntries(d, entries).0)
    ensures InsertEntries(d, entries).0.Valid()
    ensures |InsertEntries(d, entries).0.keys| <= MAX_SESSION_CONTROLS
    ensures forall k :: k in d.at ==> k in InsertEntries(d, entries).0.at
    decreases |entries|
  {
  }

  lemma InsertValuesValid(d: Dict<Identity, DecodedValue>, catalog: map<Identity, CatalogEntry>,
                          values: seq<DecodedValue>)
    requires d.Valid()
    ensures InsertValues(d, catalog, values).0.Valid()
    ensures |d.keys| <= MAX_SESSION_CONTROLS ==> |InsertValues(d, catalog, values).0.keys| <= MAX_SESSION_CONTROLS
    decreases |values|
  {
  }

  /** Every stored snapshot value was checked against the catalog. */
  ghost predicate SnapshotChecked(d: Dict<Identity, DecodedValue>, catalog: map<Identity, CatalogEntry>) {
    forall k :: k in d.at ==> d.at[k].identity == k && Checked(catalog, d.at[k])
  }

  lemma InsertValuesChecked(d: Dict<Identity, DecodedValue>, catalog: map<Identity, CatalogEntry>,
                            values: seq<DecodedValue>)
    requires SnapshotChecked(d, catalog)
    ensures SnapshotChecked(InsertValues(d, catalog, values).0, catalog)
    decreases |values|
  {
  }

  // ----- safety under arbitrary messages

  /** The messages accepted since the last reset batch. */
  function Log(log: seq<Message>, m: Message, o: Outcome): seq<Message> {
    match o
    case Rejected => log
    case Quiet => log + [m]
    case Emitted(ResetBatch(_, _)) => [m]
    case Emitted(_) => log + [m]
  }

  /**
    The accepted messages are numbered 0, 1, 2, ... without gap or repeat and read as catalog chunks,
    snapshot chunks, deltas; the session never holds more than 4096 controls, and every stored
    snapshot value was checked.
   */
  ghost predicate Stream(s: State, log: seq<Message>) {
    Holdings(s) && Place(s, log) && Shape(log, s.catalogChunks, s.snapshotChunks)
  }

  ghost predicate Holdings(s: State) {
    && s.catalog.Valid() && s.snapshot.Valid()
    && |s.catalog.keys| <= MAX_SESSION_CONTROLS
    && |s.snapshot.keys| <= MAX_SESSION_CONTROLS
    && Keyed(s.catalog)
    && SnapshotChecked(s.snapshot, s.catalog.at)
    && (s.snapshotChunkCount.None? ==> s.snapshot == Empty())
  }

  /** last sequence + 1 = catalog chunks + snapshot chunks + accepted deltas (see Shape). */
  ghost predicate Place(s: State, log: seq<Message>) {
    && (s.epoch.None? ==> s == Cleared())
    && (s.epoch.Some? <==> log != [])
    && s.lastSequence == (if log == [] then None else Some(|log| - 1))
    && (forall i :: 0 <= i < |log| ==> InContext(s, log[i].header))
    && (s.catalogChunkCount.Some? ==> s.catalogChunks <= s.catalogChunkCount.value)
    && (s.snapshotChunkCount.Some? ==> CatalogComplete(s) && s.snapshotChunks <= s.snapshotChunkCount.value)
    && (s.snapshotChunks > 0 ==> s.snapshotChunkCount.Some?)
    && (s.ready <==> s.snapshotChunks > 0 && s.snapshotChunkCount == Some(s.snapshotChunks))
    && (|log| > s.catalogChunks + s.snapshotChunks ==> s.ready)
  }

  ghost predicate Shape(log: seq<Message>, catalogs: nat, snapshots: nat) {
    && catalogs + snapshots <= |log|
    && (forall i :: 0 <= i < |log| ==> log[i].header.sequence == i)
    && (forall i :: 0 <= i < catalogs ==> log[i].Catalog? && log[i].header.chunkIndex == i)
    && (forall i :: catalogs <= i < catalogs + snapshots ==>
        log[i].Snapshot? && log[i].header.chunkIndex == i - catalogs)
    && (forall i :: catalogs + snapshots <= i < |log| ==> log[i].Delta?)
  }

  /** What reaches the ingress: a message from the peer, or the end of the connection. */
  datatype Input = Receive(message: Message) | Disconnect

  /**
    Any run, from any reachable point, stays a stream: the state reached and the messages accepted since the last
    reset.
   */
  function Run(s: State, log: seq<Message>, inputs: seq<Input>): (r: (State, seq<Message>))
    requires Stream(s, log)
    ensures Stream(r.0, r.1)
    decreases |inputs|
  {
    if inputs == [] then (s, log)
    else
      match inputs[0]
      case Disconnect => Run(Cleared(), [], inputs[1..])
      case Receive(m) =>
        var (s', o) := Accept(s, m);
        AcceptKeepsStream(s, log, m);
        Run(s', Log(log, m, o), inputs[1..])
  }

  lemma {:induction false} AcceptKeepsStream(s: State, log: seq<Message>, m: Message)
    requires Stream(s, log)
    ensures Stream(Accept(s, m).0, Log(log, m, Accept(s, m).1))
  {
    StreamIsWellFormed(s, log);
    hide Stream, IsLegal, AcceptCatalog, AcceptSnapshot, AcceptDelta;
    if IsLegal(m) {
      match m
      case Catalog(h, entries) => CatalogKeepsStream(s, log, h, entries);
      case Snapshot(h, values) => SnapshotKeepsStream(s, log, h, values);
      case Delta(h, values) => DeltaKeepsStream(s, log, h, values);
    }
  }

  lemma StreamIsWellFormed(s: State, log: seq<Message>)
    requires Stream(s, log)
    ensures s.catalog.Valid() && s.snapshot.Valid()
  {
  }

  lemma {:induction false} DeltaKeepsStream(s: State, log: seq<Message>, h: Header, values: seq<DecodedValue>)
    requires Stream(s, log)
    ensures Stream(AcceptDelta(s, h, values).0, Log(log, Delta(h, values), AcceptDelta(s, h, values).1))
  {
    hide NoDuplicates, SnapshotChecked, Checked, Shape;
    if NextInSequence(s, h) {
      ShapeBounds(log, s.catalogChunks, s.snapshotChunks);
      AppendKeepsShape(log, Delta(h, values), s.catalogChunks, s.snapshotChunks);
    }
  }

  lemma {:induction false} AppendKeepsShape(log: seq<Message>, m: Message, catalogs: nat, snapshots: nat)
    requires Shape(log, catalogs, snapshots) && m.header.sequence == |log|
    ensures m.Delta? ==> Shape(log + [m], catalogs, snapshots)
    ensures m.Snapshot? && |log| == catalogs + snapshots && m.header.chunkIndex == snapshots ==>
              Shape(log + [m], catalogs, snapshots + 1)
    ensures m.Catalog? && |log| == catalogs && m.header.chunkIndex == catalogs ==>
              Shape(log + [m], catalogs + 1, 0)
  {
  }

  lemma {:induction false} CatalogKeepsStream(s: State, log: seq<Message>, h: Header, entries: seq<CatalogEntry>)
    requires Stream(s, log) && IsLegal(Catalog(h, entries))
    ensures Stream(AcceptCatalog(s, h, entries).0, Log(log, Catalog(h, entries), AcceptCatalog(s, h, entries).1))
  {
    if s.epoch != Some(h.epoch) {
      if h.sequence == 0 && h.chunkIndex == 0 {
        FirstChunkStartsStream(s, h, entries);
      }
    } else if InContext(s, h) && NextInSequence(s, h) && !s.ready && s.snapshotChunkCount.None? {
      LaterChunkKeepsStream(s, log, h, entries);
    }
  }

  lemma {:induction false} LaterChunkKeepsStream(s: State, log: seq<Message>, h: Header, entries: seq<CatalogEntry>)
    requires Stream(s, log) && IsLegal(Catalog(h, entries)) && InContext(s, h) && NextInSequence(s, h)
    requires !s.ready && s.snapshotChunkCount.None?
    ensures Stream(AcceptCatalog(s, h, entries).0, Log(log, Catalog(h, entries), AcceptCatalog(s, h, entries).1))
  {
    hide IsLegal, NoDuplicates, InsertEntries, Shape;
    LegalHeader(Catalog(h, entries));
    InsertEntriesValid(s.catalog, entries);
    ShapeBounds(log, s.catalogChunks, s.snapshotChunks);
    AppendKeepsShape(log, Catalog(h, entries), s.catalogChunks, s.snapshotChunks);
  }

  lemma {:induction false} FirstChunkStartsStream(s: State, h: Header, entries: seq<CatalogEntry>)
    requires IsLegal(Catalog(h, entries)) && s.epoch != Some(h.epoch) && h.sequence == h.chunkIndex == 0
    ensures AcceptCatalog(s, h, entries).1 == Emitted(ResetBatch(h.epoch, h.aircraft))
    ensures Stream(AcceptCatalog(s, h, entries).0, [Catalog(h, entries)])
  {
    InsertEntriesValid(Empty(), entries);
    FirstChunkInserts(Empty(), entries);
    AppendKeepsShape([], Catalog(h, entries), 0, 0);
    assert [] + [Catalog(h, entries)] == [Catalog(h, entries)];
  }

  lemma {:induction false} SnapshotKeepsStream(s: State, log: seq<Message>, h: Header, values: seq<DecodedValue>)
    requires Stream(s, log) && IsLegal(Snapshot(h, values))
    ensures Stream(AcceptSnapshot(s, h, values).0, Log(log, Snapshot(h, values), AcceptSnapshot(s, h, values).1))
  {
    SnapshotKeepsHoldings(s, h, values);
    SnapshotKeepsPlace(s, log, h, values);
  }

  lemma {:induction false} SnapshotKeepsHoldings(s: State, h: Header, values: seq<DecodedValue>)
    requires Holdings(s)
    ensures Holdings(AcceptSnapshot(s, h, values).0)
  {
    hide NoDuplicates, SnapshotChecked, InsertValues, Checked;
    InsertValuesValid(s.snapshot, s.catalog.at, values);
    InsertValuesChecked(s.snapshot, s.catalog.at, values);
  }

  lemma {:induction false} SnapshotKeepsPlace(s: State, log: seq<Message>, h: Header, values: seq<DecodedValue>)
    requires Stream(s, log) && IsLegal(Snapshot(h, values))
    ensures
      var (s', o) := AcceptSnapshot(s, h, values);
      Place(s', Log(log, Snapshot(h, values), o))
          && Shape(Log(log, Snapshot(h, values), o), s'.catalogChunks, s'.snapshotChunks)
  {
    hide NoDuplicates, SnapshotChecked, Keyed, InsertValues, Checked, Shape, IsLegal;
    if NextInSequence(s, h) {
      AppendKeepsShape(log, Snapshot(h, values), s.catalogChunks, s.snapshotChunks);
      ShapeBounds(log, s.catalogChunks, s.snapshotChunks);
      LegalHeader(Snapshot(h, values));
    }
  }

  lemma ShapeBounds(log: seq<Message>, catalogs: nat, snapshots: nat)
    requires Shape(log, catalogs, snapshots)
    ensures catalogs + snapshots <= |log|
  {
  }

  lemma LegalHeader(m: Message)
    requires IsLegal(m)
    ensures HeaderIsLegal(m.header)
  {
  }

  /** The first chunk of an epoch cannot fault: its identities differ and 256 entries are far below the bound. */
  lemma {:induction false} FirstChunkInserts(d: Dict<Identity, CatalogEntry>, entries: seq<CatalogEntry>)
    requires DistinctEntries(entries) && |d.keys| + |entries| <= MAX_SESSION_CONTROLS
    requires forall e :: e in entries ==> e.identity !in d.at
    ensures InsertEntries(d, entries).1
    decreases |entries|
  {
    if entries != [] {
      assert entries == [entries[0]] + entries[1..];
      DistinctEntrySplit([entries[0]], entries[1..]);
      FirstChunkInserts(d.Put(entries[0].identity, entries[0]), entries[1..]);
    }
  }

  /** Every emitted value was checked against an entry of the epoch's catalog. */
  lemma {:induction false} EmittedValuesWereChecked(s: State, log: seq<Message>, m: Message)
    requires Stream(s, log)
    ensures
      var (s', o) := Accept(s, m);
      o.Emitted? && !o.batch.ResetBatch? ==>
        && s'.catalog == s.catalog
        && forall i :: 0 <= i < |o.batch.values| ==> Checked(s.catalog.at, o.batch.values[i])
  {
    var (s', o) := Accept(s, m);
    if o.Emitted? && o.batch.SnapshotBatch? {
      InsertValuesChecked(s.snapshot, s.catalog.at, m.values);
      InsertValuesValid(s.snapshot, s.catalog.at, m.values);
    }
  }

  /** One snapshot batch per epoch, at the step that makes the stream ready; deltas come only after it. */
  lemma {:induction false} OneSnapshotPerEpoch(s: State, log: seq<Message>, m: Message)
    requires Stream(s, log)
    ensures
      var (s', o) := Accept(s, m);
      && (o.Emitted? && o.batch.SnapshotBatch? <==> !s.ready && s'.ready)
      && (o.Emitted? && o.batch.DeltaBatch? ==> s.ready && s'.ready)
      && (s.ready && !s'.ready ==> o.Emitted? && o.batch.ResetBatch?)
  {
    AcceptKeepsStream(s, log, m);
  }

  /** Only the start of an epoch drops catalog entries, and that always emits a reset batch. */
  lemma {:induction false} CatalogGrows(s: State, log: seq<Message>, m: Message)
    requires Stream(s, log)
    ensures
      var (s', o) := Accept(s, m);
      (o.Emitted? && o.batch.ResetBatch?) || s.catalog.at.Keys <= s'.catalog.at.Keys
  {
    if IsLegal(m) && m.Catalog? {
      if s.epoch != Some(m.header.epoch) {
        FirstChunkInserts(Empty(), m.entries);
      } else {
        InsertEntriesValid(s.catalog, m.entries);
      }
    }
  }

  /** A rejected delta changes nothing; a rejected chunk keeps its place in the stream. */
  lemma {:induction false} RejectionKeepsPlace(s: State, log: seq<Message>, m: Message)
    requires Stream(s, log)
    requires Accept(s, m).1.Rejected?
    ensures
      var s' := Accept(s, m).0;
      && (m.Delta? ==> s' == s)
      && s'.lastSequence == s.lastSequence
      && s'.catalogChunks == s.catalogChunks && s'.snapshotChunks == s.snapshotChunks
      && s'.ready == s.ready
  {
    if IsLegal(m) && m.Catalog? && s.epoch != Some(m.header.epoch) {
      FirstChunkInserts(Empty(), m.entries);
    }
  }

  // ----- the mutable object

  class TelemetryIngress {
    var epoch: Option<nat>
    var aircraft: Option<string>
    var lastSequence: Option<nat>
    var ready: bool
    var catalogChunkCount: Option<nat>
    var catalogChunks: nat
    var catalog: Dict<Identity, CatalogEntry>
    var snapshotChunkCount: Option<nat>
    var snapshotChunks: nat
    var snapshot: Dict<Identity, DecodedValue>

    ghost predicate Valid()
      reads this
    {
      catalog.Valid() && snapshot.Valid()
    }

    function View(): State
      reads this
    {
      State(epoch, aircraft, lastSequence, ready, catalogChunkCount, catalogChunks, catalog,
            snapshotChunkCount, snapshotChunks, snapshot)
    }

    constructor ()
      ensures Valid() && View() == Cleared()
    {
      epoch, aircraft, lastSequence, ready := None, None, None, false;
      catalogChunkCount, catalogChunks, catalog := None, 0, Empty();
      snapshotChunkCount, snapshotChunks, snapshot := None, 0, Empty();
    }

    method Clear()
      modifies this
      ensures Valid() && View() == Cleared()
    {
      epoch, aircraft, lastSequence, ready := None, None, None, false;
      catalogChunkCount, catalogChunks, catalog := None, 0, Empty();
      snapshotChunkCount, snapshotChunks, snapshot := None, 0, Empty();
    }

    method AcceptMessage(m: Message) returns (o: Outcome)
      requires Valid()
      modifies this
      ensures Valid() && (View(), o) == Accept(old(View()), m)
    {
      if !IsLegal(m) {
        return Rejected;
      }
      match m
      case Catalog(h, entries) => o := TakeCatalog(h, entries);
      case Snapshot(h, values) => o := TakeSnapshot(h, values);
      case Delta(h, values) => o := TakeDelta(h, values);
    }

    /** Entries before the first fault stay. */
    method InsertCatalog(entries: seq<CatalogEntry>) returns (complete: bool)
      requires catalog.Valid()
      modifies this`catalog
      ensures catalog.Valid() && (catalog, complete) == InsertEntries(old(catalog), entries)
    {
      for i := 0 to |entries|
        invariant catalog.Valid() && InsertEntries(old(catalog), entries) == InsertEntries(catalog, entries[i..])
      {
        if entries[i].identity in catalog.at || |catalog.keys| >= MAX_SESSION_CONTROLS {
          return false;
        }
        PutKeepsValid(catalog, entries[i].identity, entries[i]);
        catalog := catalog.Put(entries[i].identity, entries[i]);
        assert entries[i..][1..] == entries[i + 1..];
      }
      return true;
    }

    method InsertSnapshot(values: seq<DecodedValue>) returns (complete: bool)
      requires snapshot.Valid()
      modifies this`snapshot
      ensures snapshot.Valid() && (snapshot, complete) == InsertValues(old(snapshot), catalog.at, values)
    {
      for i := 0 to |values|
        invariant snapshot.Valid() && InsertValues(old(snapshot), catalog.at, values) ==
                  InsertValues(snapshot, catalog.at, values[i..])
      {
        if !Checked(catalog.at, values[i]) || values[i].identity in snapshot.at
            || |snapshot.keys| >= MAX_SESSION_CONTROLS {
          return false;
        }
        PutKeepsValid(snapshot, values[i].identity, values[i]);
        snapshot := snapshot.Put(values[i].identity, values[i]);
        assert values[i..][1..] == values[i + 1..];
      }
      return true;
    }

    method TakeCatalog(h: Header, entries: seq<CatalogEntry>) returns (o: Outcome)
      requires Valid()
      modifies this
      ensures Valid() && (View(), o) == AcceptCatalog(old(View()), h, entries)
    {
      var newEpoch := epoch != Some(h.epoch);
      if newEpoch {
        if h.sequence != 0 || h.chunkIndex != 0 {
          return Rejected;
        }
        Clear();
        epoch, aircraft := Some(h.epoch), Some(h.aircraft);
      } else if !InContext(View(), h) || !NextInSequence(View(), h) || ready || snapshotChunkCount.Some? {
        return Rejected;
      }
      if h.chunkIndex != catalogChunks {
        return Rejected;
      }
      if catalogChunkCount.None? {
        catalogChunkCount := Some(h.chunkCount);
      } else if h.chunkCount != catalogChunkCount.value {
        return Rejected;
      }
      var complete := InsertCatalog(entries);
      if !complete {
        return Rejected;
      }
      catalogChunks := catalogChunks + 1;
      lastSequence := Some(h.sequence);
      return if newEpoch then Emitted(ResetBatch(h.epoch, h.aircraft)) else Quiet;
    }

    method TakeSnapshot(h: Header, values: seq<DecodedValue>) returns (o: Outcome)
      requires Valid()
      modifies this
      ensures Valid() && (View(), o) == AcceptSnapshot(old(View()), h, values)
    {
      if !InContext(View(), h) || !NextInSequence(View(), h) || !CatalogComplete(View()) || ready {
        return Rejected;
      }
      if h.chunkIndex != snapshotChunks {
        return Rejected;
      }
      if snapshotChunkCount.None? {
        snapshotChunkCount := Some(h.chunkCount);
      } else if h.chunkCount != snapshotChunkCount.value {
        return Rejected;
      }
      var complete := InsertSnapshot(values);
      if !complete {
        return Rejected;
      }
      snapshotChunks := snapshotChunks + 1;
      lastSequence := Some(h.sequence);
      if snapshotChunks != h.chunkCount {
        return Quiet;
      }
      ready := true;
      return Emitted(SnapshotBatch(h.epoch, h.aircraft, catalog.Values(), snapshot.Values()));
    }

    method TakeDelta(h: Header, values: seq<DecodedValue>) returns (o: Outcome)
      requires Valid()
      modifies this
      ensures Valid() && (View(), o) == AcceptDelta(old(View()), h, values)
    {
      if !InContext(View(), h) || !NextInSequence(View(), h) || !ready {
        return Rejected;
      }
      if h.chunkIndex != 0 || h.chunkCount != 1 {
        return Rejected;
      }
      for i := 0 to |values|
        invariant forall j :: 0 <= j < i ==> Checked(catalog.at, values[j])
      {
        if !Checked(catalog.at, values[i]) {
          return Rejected;
        }
      }
      lastSequence := Some(h.sequence);
      return Emitted(DeltaBatch(h.epoch, h.aircraft, values));
    }
  }
}
