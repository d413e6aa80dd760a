/**
  What the ingress accepts (cloud/dcs_copilot_cloud/telemetry.py), decided for every run by the messages accepted so
  far and the controls held, and what each acceptance adds and emits.
 */
module Acceptance {
  import opened Wrappers
  import opened InsertionDict
  import opened Wire
  import opened Ingress

  // ----- what a message is

  /** The bounds of a message: its numbers, its aircraft's name, its chunk and its distinct, well typed contents. */
  lemma LegalExactly(m: Message)
    ensures
      IsLegal(m) <==>
      && m.header.sequence < 0x20_0000_0000_0000 && 1 <= |m.header.aircraft| <= 64
      && m.header.chunkIndex < m.header.chunkCount <= 64
      && if m.Catalog? then
           && |m.entries| <= 256
           && (forall i, j :: 0 <= i < j < |m.entries| ==> m.entries[i].identity != m.entries[j].identity)
           && (forall e :: e in m.entries ==>
                 if e.identity.outputType == IntegerOutput then
                   e.stringLength == None && exists n: nat :: e.integerMax == Some(n)
                 else e.integerMax == None && exists n: nat :: e.stringLength == Some(n) && 1 <= n <= 256)
         else
           && |m.values| <= 1024 && (m.Delta? ==> m.values != [])
           && (forall i, j :: 0 <= i < j < |m.values| ==> m.values[i].identity != m.values[j].identity)
           && (forall v :: v in m.values ==>
                 if !v.available then v.value == None
                 else if v.identity.outputType == IntegerOutput then exists n :: v.value == Some(Number(n))
                 else exists t :: v.value == Some(Text(t)) && |t| <= 256)
  {
    if m.Catalog? {
      DistinctEntryPositions(m.entries);
      forall e | e in m.entries ensures EntryIsLegal(e) <==>
                 if e.identity.outputType == IntegerOutput then
                   e.stringLength == None && exists n: nat :: e.integerMax == Some(n)
                 else e.integerMax == None && exists n: nat :: e.stringLength == Some(n) && 1 <= n <= 256
      {
        EntryExactly(e);
      }
    } else {
      DistinctValuePositions(m.values);
      forall v | v in m.values ensures ValueIsLegal(v) <==>
                 if !v.available then v.value == None
                 else if v.identity.outputType == IntegerOutput then exists n :: v.value == Some(Number(n))
                 else exists t :: v.value == Some(Text(t)) && |t| <= 256
      {
        ValueExactly(v);
      }
    }
    hide EntryIsLegal, ValueIsLegal, DistinctEntries, DistinctValues;
  }

  lemma EntryExactly(e: CatalogEntry)
    ensures EntryIsLegal(e) <==>
            if e.identity.outputType == IntegerOutput then
              e.stringLength == None && exists n: nat :: e.integerMax == Some(n)
            else e.integerMax == None && exists n: nat :: e.stringLength == Some(n) && 1 <= n <= 256
  {
    if EntryIsLegal(e) {
      assert e.integerMax.Some? ==> e.integerMax == Some(e.integerMax.value);
      assert e.stringLength.Some? ==> e.stringLength == Some(e.stringLength.value);
    }
  }

  lemma ValueExactly(v: DecodedValue)
    ensures ValueIsLegal(v) <==>
            if !v.available then v.value == None
            else if v.identity.outputType == IntegerOutput then exists n :: v.value == Some(Number(n))
            else exists t :: v.value == Some(Text(t)) && |t| <= 256
  {
    if ValueIsLegal(v) && v.available {
      assert v.identity.outputType == IntegerOutput ==> v.value == Some(Number(v.value.value.n));
      assert v.identity.outputType == StringOutput ==> v.value == Some(Text(v.value.value.s));
    }
  }

  /** The entry allows the value: an absent one always, a number up to the maximum, a text up to the length. */
  ghost predicate Allows(e: CatalogEntry, v: DecodedValue) {
    || !v.available
    || (v.identity.outputType == IntegerOutput
        && exists n, max :: v.value == Some(Number(n)) && e.integerMax == Some(max) && 0 <= n <= max)
    || (v.identity.outputType == StringOutput
        && exists t, max :: v.value == Some(Text(t)) && e.stringLength == Some(max) && |t| <= max)
  }

  ghost predicate Declared(catalog: map<Identity, CatalogEntry>, v: DecodedValue) {
    v.identity in catalog && Allows(catalog[v.identity], v)
  }

  lemma CheckedExactly(catalog: map<Identity, CatalogEntry>, v: DecodedValue)
    ensures Checked(catalog, v) <==> Declared(catalog, v)
  {
    if Checked(catalog, v) && v.available {
      var e := catalog[v.identity];
      assert v.identity.outputType == IntegerOutput ==>
          v.value == Some(Number(v.value.value.n)) && e.integerMax == Some(e.integerMax.value);
      assert v.identity.outputType == StringOutput ==>
          v.value == Some(Text(v.value.value.s)) && e.stringLength == Some(e.stringLength.value);
    }
  }

  // ----- inserting

  lemma ValuesPut<K(!new), V>(d: Dict<K, V>, k: K, v: V)
    requires d.Valid() && k !in d.at
    ensures d.Put(k, v).Valid() && d.Put(k, v).Values() == d.Values() + [v] && |d.Put(k, v).keys| == |d.keys| + 1
  {
    PutKeepsValid(d, k, v);
  }

  /** Entries are inserted up to the first one that is known already or finds the session full. */
  ghost predicate EntriesTaken(d: Dict<Identity, CatalogEntry>, entries: seq<CatalogEntry>, n: nat)
    requires d.Valid()
  {
    var (after, complete) := InsertEntries(d, entries);
    && n <= |entries| && (complete <==> n == |entries|)
    && after.Valid() && |after.keys| == |d.keys| + n
    && after.Values() == d.Values() + entries[..n]
    && (forall i :: 0 <= i < n ==> entries[i].identity !in d.at)
    && (n < |entries| ==> entries[n].identity in d.at || |d.keys| + n >= 4096)
    && (n > 0 ==> |d.keys| + n <= 4096)
  }

  lemma {:induction false} InsertsPrefix(d: Dict<Identity, CatalogEntry>, entries: seq<CatalogEntry>) returns (n: nat)
    requires d.Valid() && DistinctEntries(entries)
    ensures d.Valid() && EntriesTaken(d, entries, n)
    decreases |entries|
  {
    hide EntriesTaken, DistinctEntries, NoDuplicates;
    if entries == [] || entries[0].identity in d.at || |d.keys| >= MAX_SESSION_CONTROLS {
      n := 0;
      NoEntryTaken(d, entries);
    } else {
      ValuesPut(d, entries[0].identity, entries[0]);
      DistinctEntriesRest(entries);
      var rest := InsertsPrefix(d.Put(entries[0].identity, entries[0]), entries[1..]);
      n := rest + 1;
      OneMoreEntry(d, entries, rest);
    }
  }

  lemma NoEntryTaken(d: Dict<Identity, CatalogEntry>, entries: seq<CatalogEntry>)
    requires d.Valid()
    requires entries == [] || entries[0].identity in d.at || |d.keys| >= MAX_SESSION_CONTROLS
    ensures EntriesTaken(d, entries, 0)
  {
    assert entries[..0] == [];
    hide NoDuplicates;
  }

  lemma DistinctEntriesRest(entries: seq<CatalogEntry>)
    requires DistinctEntries(entries) && entries != []
    ensures DistinctEntries(entries[1..]) && forall i :: 0 < i < |entries| ==>
            entries[i].identity != entries[0].identity
  {
    DistinctEntryPositions(entries);
    DistinctEntryPositions(entries[1..]);
  }

  lemma {:induction false} OneMoreEntry(d: Dict<Identity, CatalogEntry>, entries: seq<CatalogEntry>, rest: nat)
    requires d.Valid() && entries != [] && entries[0].identity !in d.at && |d.keys| < MAX_SESSION_CONTROLS
    requires forall i :: 0 < i < |entries| ==> entries[i].identity != entries[0].identity
    requires EntriesTaken(d.Put(entries[0].identity, entries[0]), entries[1..], rest)
    ensures EntriesTaken(d, entries, rest + 1)
  {
    hide NoDuplicates;
    ValuesPut(d, entries[0].identity, entries[0]);
    var next := d.Put(entries[0].identity, entries[0]);
    assert InsertEntries(d, entries) == InsertEntries(next, entries[1..]);
    hide InsertEntries;
    assert entries[..rest + 1] == [entries[0]] + entries[1..][..rest];
    forall i | 0 <= i < rest + 1 ensures entries[i].identity !in d.at {
      if i > 0 {
        assert entries[i] == entries[1..][i - 1];
      }
    }
    if rest + 1 < |entries| {
      assert entries[rest + 1] == entries[1..][rest];
    }
  }

  /** A snapshot chunk never finds the session full: what is held and what is added are controls of the catalog. */
  lemma RoomForDeclared(d: Dict<Identity, DecodedValue>, catalog: map<Identity, CatalogEntry>, id: Identity)
    requires d.Valid() && SnapshotChecked(d, catalog) && |catalog| <= 4096 && id in catalog && id !in d.at
    ensures |d.keys| < 4096
  {
    SizeOfValid(d);
    SubsetSize(d.at.Keys + {id}, catalog.Keys);
  }

  /** Values are inserted up to the first one that the catalog does not allow or that is held already. */
  ghost predicate ValuesTaken(d: Dict<Identity, DecodedValue>, catalog: map<Identity, CatalogEntry>,
                              values: seq<DecodedValue>, n: nat)
    requires d.Valid()
  {
    var (after, complete) := InsertValues(d, catalog, values);
    && n <= |values| && (complete <==> n == |values|)
    && after.Valid() && after.Values() == d.Values() + values[..n]
    && (forall i :: 0 <= i < n ==> Declared(catalog, values[i]) && values[i].identity !in d.at)
    && (n < |values| ==> !Declared(catalog, values[n]) || values[n].identity in d.at)
  }

  lemma {:induction false} ValuesPrefix(d: Dict<Identity, DecodedValue>, catalog: map<Identity, CatalogEntry>,
                                        values: seq<DecodedValue>)
    returns (n: nat)
    requires d.Valid() && SnapshotChecked(d, catalog) && |catalog| <= 4096 && DistinctValues(values)
    ensures ValuesTaken(d, catalog, values, n)
    decreases |values|
  {
    hide ValuesTaken, Declared, Checked, DistinctValues, NoDuplicates;
    if values == [] || !Checked(catalog, values[0]) || values[0].identity in d.at {
      n := 0;
      NoValueTaken(d, catalog, values);
    } else {
      CheckedIsIn(catalog, values[0]);
      RoomForDeclared(d, catalog, values[0].identity);
      ValuesPut(d, values[0].identity, values[0]);
      DistinctRest(values);
      var rest := ValuesPrefix(d.Put(values[0].identity, values[0]), catalog, values[1..]);
      n := rest + 1;
      OneMoreValue(d, catalog, values, rest);
    }
  }

  lemma NoValueTaken(d: Dict<Identity, DecodedValue>, catalog: map<Identity, CatalogEntry>, values: seq<DecodedValue>)
    requires d.Valid() && (values == [] || !Checked(catalog, values[0]) || values[0].identity in d.at)
    ensures ValuesTaken(d, catalog, values, 0)
  {
    hide NoDuplicates, Declared, Checked;
    assert values[..0] == [];
    if values != [] {
      CheckedExactly(catalog, values[0]);
    }
  }

  lemma {:induction false} OneMoreValue(d: Dict<Identity, DecodedValue>, catalog: map<Identity, CatalogEntry>,
                                        values: seq<DecodedValue>, rest: nat)
    requires d.Valid() && values != [] && Checked(catalog, values[0]) && values[0].identity !in d.at
    requires |d.keys| < MAX_SESSION_CONTROLS && forall v :: v in values[1..] ==> v.identity != values[0].identity
    requires ValuesTaken(d.Put(values[0].identity, values[0]), catalog, values[1..], rest)
    ensures ValuesTaken(d, catalog, values, rest + 1)
  {
    hide NoDuplicates, Declared, Checked;
    CheckedExactly(catalog, values[0]);
    ValuesPut(d, values[0].identity, values[0]);
    var next := d.Put(values[0].identity, values[0]);
    assert InsertValues(d, catalog, values) == InsertValues(next, catalog, values[1..]);
    hide InsertValues;
    assert values[..rest + 1] == [values[0]] + values[1..][..rest];
    forall i | 0 <= i < rest + 1 ensures Declared(catalog, values[i]) && values[i].identity !in d.at {
      if i > 0 {
        assert values[i] == values[1..][i - 1] && values[i] in values[1..];
      }
    }
    if rest + 1 < |values| {
      assert values[rest + 1] == values[1..][rest] && values[rest + 1] in values[1..];
    }
  }

  lemma CheckedIsIn(catalog: map<Identity, CatalogEntry>, v: DecodedValue)
    ensures Checked(catalog, v) ==> v.identity in catalog
  {
  }

  lemma DistinctRest(values: seq<DecodedValue>)
    requires DistinctValues(values) && values != []
    ensures DistinctValues(values[1..]) && forall v :: v in values[1..] ==> v.identity != values[0].identity
  {
    DistinctValuePositions(values);
    DistinctValuePositions(values[1..]);
    forall v | v in values[1..] ensures v.identity != values[0].identity {
      var i :| 0 <= i < |values[1..]| && values[1..][i] == v;
      assert values[i + 1] == v;
    }
  }

  // ----- the counts that were declared

  /** The counts in force are those of the chunks accepted. */
  ghost predicate CountsFit(s: State, log: seq<Message>) {
    && (log != [] ==> s.catalogChunkCount == Some(log[0].header.chunkCount))
    && (forall m :: m in log && m.Catalog? ==> s.catalogChunkCount == Some(m.header.chunkCount))
    && (forall m :: m in log && m.Snapshot? ==> s.snapshotChunkCount == Some(m.header.chunkCount))
    && (s.snapshotChunkCount.Some? ==> s.snapshotChunkCount.value > 0)
  }

  lemma {:induction false} AcceptKeepsCounts(s: State, log: seq<Message>, m: Message)
    requires Stream(s, log) && CountsFit(s, log)
    ensures CountsFit(Accept(s, m).0, Log(log, m, Accept(s, m).1))
  {
    hide InsertEntries, InsertValues, NoDuplicates, Shape, SnapshotChecked, Keyed, DistinctValues, DistinctEntries;
    if m.Catalog? && s.epoch != Some(m.header.epoch) && IsLegal(m) {
      FirstChunkInserts(Empty(), m.entries);
    }
  }

  /** What any run of messages and disconnects leads to. */
  ghost function Reached(inputs: seq<Input>): (r: (State, seq<Message>))
    ensures Stream(r.0, r.1)
  {
    StartIsStream();
    Run(Cleared(), [], inputs)
  }

  lemma StartIsStream()
    ensures Stream(Cleared(), [])
  {
  }

  lemma {:induction false} RunKeepsCounts(s: State, log: seq<Message>, inputs: seq<Input>)
    requires Stream(s, log) && CountsFit(s, log)
    ensures CountsFit(Run(s, log, inputs).0, Run(s, log, inputs).1)
    decreases |inputs|
  {
    hide CountsFit, Accept, Place, Shape, NoDuplicates;
    if inputs != [] {
      match inputs[0]
      case Disconnect =>
        StartFits();
        RunKeepsCounts(Cleared(), [], inputs[1..]);
      case Receive(m) =>
        AcceptKeepsStream(s, log, m);
        AcceptKeepsCounts(s, log, m);
        RunKeepsCounts(Accept(s, m).0, Log(log, m, Accept(s, m).1), inputs[1..]);
    }
  }

  lemma StartFits()
    ensures Stream(Cleared(), []) && CountsFit(Cleared(), [])
  {
  }

  lemma {:induction false} ReachedFits(inputs: seq<Input>)
    ensures CountsFit(Reached(inputs).0, Reached(inputs).1)
  {
    hide CountsFit, Run;
    StartFits();
    RunKeepsCounts(Cleared(), [], inputs);
  }

  // ----- what is accepted

  /** The message carries the stream on: the epoch and the aircraft it opened with, and the next number. */
  ghost predicate Continues(log: seq<Message>, h: Header) {
    log != [] && h.epoch == log[0].header.epoch && h.aircraft == log[0].header.aircraft && h.sequence == |log|
  }

  ghost predicate Opens(log: seq<Message>, h: Header) {
    log == [] || h.epoch != log[0].header.epoch
  }

  /**
    A catalog chunk is accepted if and only if it is the first of another epoch, or the next of the
    catalog being sent and holds only new controls for which there is room.
   */
  lemma {:induction false} CatalogAcceptedExactly(inputs: seq<Input>, h: Header, entries: seq<CatalogEntry>)
    requires IsLegal(Catalog(h, entries))
    ensures
      var (s, log) := Reached(inputs);
      var (after, o) := Accept(s, Catalog(h, entries));
      var held := if Opens(log, h) then [] else s.catalog.Values();
      && (o != Rejected <==>
          if Opens(log, h) then h.sequence == 0 && h.chunkIndex == 0
          else
            && Continues(log, h) && (forall m :: m in log ==> m.Catalog?)
            && h.chunkIndex == |log| && h.chunkCount == log[0].header.chunkCount
            && (forall e :: e in entries ==> e.identity !in s.catalog.at) && |s.catalog.keys| + |entries| <= 4096)
      && (o != Rejected ==>
            && o == (if Opens(log, h) then Emitted(ResetBatch(h.epoch, h.aircraft)) else Quiet)
            && after.catalog.Valid() && after.catalog.Values() == held + entries
            && after.snapshot.keys == [] && !after.ready)
  {
    hide Run, CountsFit, Stream;
    var (s, log) := Reached(inputs);
    ReachedFits(inputs);
    if Opens(log, h) {
      OpeningExactly(s, log, h, entries);
    } else {
      NextChunkExactly(s, log, h, entries);
    }
  }

  lemma {:induction false} OpeningExactly(s: State, log: seq<Message>, h: Header, entries: seq<CatalogEntry>)
    requires Stream(s, log) && Opens(log, h) && IsLegal(Catalog(h, entries))
    ensures
      var (after, o) := Accept(s, Catalog(h, entries));
      && (o != Rejected <==> h.sequence == 0 && h.chunkIndex == 0)
      && (o != Rejected ==>
            && o == Emitted(ResetBatch(h.epoch, h.aircraft))
            && after.catalog.Valid() && after.catalog.Values() == entries && after.snapshot.keys == [] && !after.ready)
  {
    hide InsertEntries, NoDuplicates, SnapshotChecked, Keyed, DistinctEntries, EntryIsLegal, Shape;
    EmptyHasNoValues();
    var n := InsertsPrefix(Empty(), entries);
    FirstChunkInserts(Empty(), entries);
  }

  lemma EmptyHasNoValues()
    ensures Empty<Identity, CatalogEntry>().Valid() && Empty<Identity, CatalogEntry>().Values() == []
  {
  }

  lemma {:induction false} NextChunkExactly(s: State, log: seq<Message>, h: Header, entries: seq<CatalogEntry>)
    requires Stream(s, log) && CountsFit(s, log) && !Opens(log, h) && IsLegal(Catalog(h, entries))
    ensures
      var (after, o) := Accept(s, Catalog(h, entries));
      && (o != Rejected <==>
            && Continues(log, h) && (forall m :: m in log ==> m.Catalog?)
            && h.chunkIndex == |log| && h.chunkCount == log[0].header.chunkCount
            && (forall e :: e in entries ==> e.identity !in s.catalog.at) && |s.catalog.keys| + |entries| <= 4096)
      && (o != Rejected ==>
            && o == Quiet && after.catalog.Valid() && after.catalog.Values() == s.catalog.Values() + entries
            && after.snapshot.keys == [] && !after.ready)
  {
    hide InsertEntries, NoDuplicates, SnapshotChecked, Keyed, DistinctEntries, EntryIsLegal;
    var n := InsertsPrefix(s.catalog, entries);
    OnlyCatalogs(s, log);
    assert s.snapshotChunkCount.None? ==> s.snapshot == Empty();
  }

  /** Only catalog chunks so far. */
  lemma {:induction false} OnlyCatalogs(s: State, log: seq<Message>)
    requires Stream(s, log)
    ensures (forall m :: m in log ==> m.Catalog?) <==> |log| == s.catalogChunks
    ensures (forall m :: m in log ==> m.Catalog?) ==> !s.ready && s.snapshotChunks == 0
  {
    hide NoDuplicates, SnapshotChecked, Keyed;
    if |log| > s.catalogChunks {
      assert !log[s.catalogChunks].Catalog? && log[s.catalogChunks] in log;
    } else {
      forall m | m in log ensures m.Catalog? {
        var i :| 0 <= i < |log| && log[i] == m;
      }
    }
  }

  /** The chunks of the snapshot accepted so far follow a whole catalog and are numbered alike. */
  ghost predicate InSnapshot(log: seq<Message>, h: Header) {
    log != [] &&
    (var c := log[0].header.chunkCount;
     && c <= |log| && h.chunkIndex == |log| - c
     && (forall i :: c <= i < |log| ==> log[i].Snapshot? && log[i].header.chunkCount == h.chunkCount))
  }

  /**
    A snapshot chunk is accepted if and only if it is the next one after a whole catalog, of as many
    chunks as announced before, and holds only new values that the catalog allows. The last chunk emits the
    whole catalog with all values.
   */
  lemma {:induction false} SnapshotAcceptedExactly(inputs: seq<Input>, h: Header, values: seq<DecodedValue>)
    requires IsLegal(Snapshot(h, values))
    ensures
      var (s, log) := Reached(inputs);
      var (after, o) := Accept(s, Snapshot(h, values));
      && (o != Rejected <==>
            && Continues(log, h) && InSnapshot(log, h) && s.snapshotChunkCount in {None, Some(h.chunkCount)}
            && (forall v :: v in values ==> Declared(s.catalog.at, v) && v.identity !in s.snapshot.at))
      && (o != Rejected ==>
            && o == (if h.chunkIndex + 1 < h.chunkCount then Quiet
                     else Emitted(SnapshotBatch(h.epoch, h.aircraft, s.catalog.Values(), s.snapshot.Values() + values)))
            && after.snapshot.Valid() && after.snapshot.Values() == s.snapshot.Values() + values
            && after.catalog == s.catalog)
  {
    hide Run, CountsFit, Stream;
    var (s, log) := Reached(inputs);
    ReachedFits(inputs);
    ChunkExactly(s, log, h, values);
  }

  lemma {:induction false} ChunkExactly(s: State, log: seq<Message>, h: Header, values: seq<DecodedValue>)
    requires Stream(s, log) && CountsFit(s, log) && IsLegal(Snapshot(h, values))
    ensures
      var (after, o) := Accept(s, Snapshot(h, values));
      && (o != Rejected <==>
            && Continues(log, h) && InSnapshot(log, h) && s.snapshotChunkCount in {None, Some(h.chunkCount)}
            && (forall v :: v in values ==> Declared(s.catalog.at, v) && v.identity !in s.snapshot.at))
      && (o != Rejected ==>
            && o == (if h.chunkIndex + 1 < h.chunkCount then Quiet
                     else Emitted(SnapshotBatch(h.epoch, h.aircraft, s.catalog.Values(), s.snapshot.Values() + values)))
            && after.snapshot.Valid() && after.snapshot.Values() == s.snapshot.Values() + values
            && after.catalog == s.catalog)
  {
    hide InsertValues, NoDuplicates, Keyed, DistinctValues, ValueIsLegal, Declared, SnapshotChecked;
    CatalogIsBounded(s, log);
    var n := ValuesPrefix(s.snapshot, s.catalog.at, values);
    assert values[..|values|] == values;
    PlaceInSnapshot(s, log, h);
    hide Shape, InSnapshot, Place;
  }

  lemma CatalogIsBounded(s: State, log: seq<Message>)
    requires Stream(s, log)
    ensures |s.catalog.at| <= 4096
  {
    SizeOfValid(s.catalog);
  }

  /** Where the log puts the next snapshot chunk is where the state puts it. */
  lemma {:induction false} PlaceInSnapshot(s: State, log: seq<Message>, h: Header)
    requires Stream(s, log) && CountsFit(s, log) && h.chunkIndex < h.chunkCount
    ensures InContext(s, h) && NextInSequence(s, h) <==> Continues(log, h)
    ensures Continues(log, h) && s.snapshotChunkCount in {None, Some(h.chunkCount)} ==>
              (InSnapshot(log, h) <==> CatalogComplete(s) && !s.ready && h.chunkIndex == s.snapshotChunks)
  {
    hide NoDuplicates, Keyed, SnapshotChecked;
    assert log != [] ==> InContext(s, log[0].header);
    if Continues(log, h) {
      var c := log[0].header.chunkCount;
      if InSnapshot(log, h) && |log| > c {
        assert log[|log| - 1].Snapshot?;
      }
    }
  }

  /** The whole snapshot is among the accepted messages. */
  ghost predicate IsWhole(log: seq<Message>) {
    exists m :: m in log && m.Snapshot? && m.header.chunkIndex + 1 == m.header.chunkCount
  }

  /**
    A delta is accepted if and only if it is the next message after a whole snapshot, in one chunk, and the
    catalog allows each of its values; it is emitted as it is.
   */
  lemma {:induction false} DeltaAcceptedExactly(inputs: seq<Input>, h: Header, values: seq<DecodedValue>)
    requires IsLegal(Delta(h, values))
    ensures
      var (s, log) := Reached(inputs);
      var (after, o) := Accept(s, Delta(h, values));
      && (o != Rejected <==>
            && Continues(log, h) && IsWhole(log) && h.chunkIndex == 0 && h.chunkCount == 1
            && (forall v :: v in values ==> Declared(s.catalog.at, v)))
      && (o != Rejected ==> o == Emitted(DeltaBatch(h.epoch, h.aircraft, values)) && after.catalog == s.catalog)
  {
    hide Run, CountsFit, Stream, Shape, NoDuplicates, Keyed, SnapshotChecked, ValueIsLegal, DistinctValues, Declared,
      Checked;
    var (s, log) := Reached(inputs);
    ReachedFits(inputs);
    WholeMeansReady(s, log);
    PlaceOfDelta(s, log, h);
    forall v ensures Checked(s.catalog.at, v) <==> Declared(s.catalog.at, v) {
      CheckedExactly(s.catalog.at, v);
    }
  }

  lemma PlaceOfDelta(s: State, log: seq<Message>, h: Header)
    requires Stream(s, log)
    ensures InContext(s, h) && NextInSequence(s, h) <==> Continues(log, h)
  {
    hide NoDuplicates, Keyed, SnapshotChecked, Shape;
    assert log != [] ==> InContext(s, log[0].header);
  }

  lemma {:induction false} WholeMeansReady(s: State, log: seq<Message>)
    requires Stream(s, log) && CountsFit(s, log)
    ensures s.ready <==> IsWhole(log)
  {
    hide NoDuplicates, Keyed, SnapshotChecked;
    if s.ready {
      var last := log[s.catalogChunks + s.snapshotChunks - 1];
      assert last in log && last.Snapshot?;
    }
    if IsWhole(log) {
      var m :| m in log && m.Snapshot? && m.header.chunkIndex + 1 == m.header.chunkCount;
      var i :| 0 <= i < |log| && log[i] == m;
      assert s.catalogChunks <= i < s.catalogChunks + s.snapshotChunks;
    }
  }
}
