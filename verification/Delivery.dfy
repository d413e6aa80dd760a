/**
  What a sequence of telemetry messages does to the backend: ingress and store seen as a map. An
  opening (catalog and snapshot chunks) delivered to any backend of another epoch makes it ready and
  equal to the snapshot.

  `Deliver` is one message, `DeliverAll` a sequence of them; neither has a value once a message is rejected.
 */
module Delivery {
  import opened Wrappers
  import opened InsertionDict
  import opened Wire
  import opened Ingress
  import opened RawStore
  import opened Publisher

  /** The ingress, the messages it accepted since the last reset, and the readings the store holds. */
  datatype Backend = Backend(ingress: Ingress.State, log: seq<Message>, readings: map<Identity, Reading>)

  ghost predicate Good(b: Backend) {
    Stream(b.ingress, b.log)
  }

  /** None when the ingress rejects the message. */
  function Deliver(b: Backend, m: Message): (r: Option<Backend>)
    requires Good(b)
    ensures r.Some? ==> Good(r.value)
  {
    var (s, o) := Accept(b.ingress, m);
    AcceptKeepsStream(b.ingress, b.log, m);
    match o
    case Rejected => None
    case Quiet => Some(Backend(s, Log(b.log, m, o), b.readings))
    case Emitted(batch) => Some(Backend(s, Log(b.log, m, o), BatchReadings(b.readings, batch)))
  }

  function DeliverAll(b: Backend, messages: seq<Message>): (r: Option<Backend>)
    requires Good(b)
    ensures r.Some? ==> Good(r.value)
    decreases |messages|
  {
    if messages == [] then Some(b)
    else
      match Deliver(b, messages[0])
      case None => None
      case Some(next) => DeliverAll(next, messages[1..])
  }

  lemma {:induction false} DeliverCons(b: Backend, m: Message, rest: seq<Message>)
    requires Good(b) && Deliver(b, m).Some?
    ensures DeliverAll(b, [m] + rest) == DeliverAll(Deliver(b, m).value, rest)
  {
    assert ([m] + rest)[1..] == rest;
  }

  lemma {:induction false} DeliverConcat(b: Backend, xs: seq<Message>, ys: seq<Message>)
    requires Good(b)
    ensures DeliverAll(b, xs + ys) ==
      match DeliverAll(b, xs)
      case None => None
      case Some(next) => DeliverAll(next, ys)
    decreases |xs|
  {
    if xs == [] {
      assert xs + ys == ys;
    } else {
      assert (xs + ys)[0] == xs[0] && (xs + ys)[1..] == xs[1..] + ys;
      if Deliver(b, xs[0]).Some? {
        DeliverConcat(Deliver(b, xs[0]).value, xs[1..], ys);
      }
    }
  }

  /** Everything a backend has seen or is about to see belongs to epochs below `limit`. */
  ghost predicate EpochsBelow(b: Backend, messages: seq<Message>, limit: nat) {
    && (b.ingress.epoch.Some? ==> b.ingress.epoch.value < limit)
    && forall m :: m in messages ==> m.header.epoch < limit
  }

  lemma {:induction false} DeliverKeepsEpochsBelow(b: Backend, messages: seq<Message>, limit: nat)
    requires Good(b) && EpochsBelow(b, messages, limit)
    ensures DeliverAll(b, messages).Some? ==> EpochsBelow(DeliverAll(b, messages).value, [], limit)
    decreases |messages|
  {
    if messages != [] && Deliver(b, messages[0]).Some? {
      var next := Deliver(b, messages[0]).value;
      assert messages[0] in messages;
      assert next.ingress.epoch == Some(messages[0].header.epoch);
      DeliverKeepsEpochsBelow(next, messages[1..], limit);
    }
  }

  // ----- chunks

  function Flatten<T>(chunks: seq<seq<T>>): seq<T>
    decreases |chunks|
  {
    if chunks == [] then [] else chunks[0] + Flatten(chunks[1..])
  }

  ghost predicate ChunksWithin<T>(chunks: seq<seq<T>>, size: nat) {
    forall i :: 0 <= i < |chunks| ==> |chunks[i]| <= size
  }

  /** Chunking loses and reorders nothing and keeps every chunk within its size. */
  lemma {:induction false} ChunksPartition<T>(values: seq<T>, size: nat)
    requires size > 0
    ensures Flatten(Chunks(values, size)) == values
    ensures ChunksWithin(Chunks(values, size), size)
    decreases |values|
  {
    if values == [] {
    } else if |values| <= size {
      assert [values][1..] == [] && values + [] == values;
    } else {
      ChunksPartition(values[size..], size);
      assert values == values[..size] + values[size..];
    }
  }

  lemma {:induction false} ChunkCount<T>(values: seq<T>, size: nat, most: nat)
    requires size > 0 && |values| <= most * size
    ensures |Chunks(values, size)| <= most
    decreases |values|
  {
    if |values| > size {
      assert most >= 1 && |values[size..]| <= (most - 1) * size;
      ChunkCount(values[size..], size, most - 1);
    } else if values != [] {
      assert most >= 1;
    }
  }

  lemma OpeningChunks<T>(values: seq<T>, size: nat)
    requires size >= MAX_ENTRIES && |values| <= MAX_SESSION_CONTROLS
    ensures Flatten(ChunksToSend(values, size)) == values
    ensures ChunksWithin(ChunksToSend(values, size), size)
    ensures 1 <= |ChunksToSend(values, size)| <= MAX_CHUNK_COUNT
  {
    if values == [] {
      var none: seq<T> := [];
      assert ChunksToSend(values, size) == [none] && [none][1..] == [] && none + none == none;
    } else {
      ChunksPartition(values, size);
      ChunkCount(values, size, 16);
      assert Chunks(values, size) != [];
    }
  }

  // ----- inserting many

  lemma {:induction false} InsertEntriesConcat(d: Dict<Identity, CatalogEntry>, xs: seq<CatalogEntry>,
                                               ys: seq<CatalogEntry>)
    ensures InsertEntries(d, xs + ys) ==
            if InsertEntries(d, xs).1 then InsertEntries(InsertEntries(d, xs).0, ys) else InsertEntries(d, xs)
    decreases |xs|
  {
    if xs == [] {
      assert xs + ys == ys;
    } else {
      assert (xs + ys)[0] == xs[0] && (xs + ys)[1..] == xs[1..] + ys;
      InsertEntriesConcat(d.Put(xs[0].identity, xs[0]), xs[1..], ys);
    }
  }

  lemma {:induction false} InsertValuesConcat(d: Dict<Identity, DecodedValue>, catalog: map<Identity, CatalogEntry>,
                                             xs: seq<DecodedValue>, ys: seq<DecodedValue>)
    ensures InsertValues(d, catalog, xs + ys) ==
            if InsertValues(d, catalog, xs).1 then InsertValues(InsertValues(d, catalog, xs).0, catalog, ys)
            else InsertValues(d, catalog, xs)
    decreases |xs|
  {
    if xs == [] {
      assert xs + ys == ys;
    } else {
      assert (xs + ys)[0] == xs[0] && (xs + ys)[1..] == xs[1..] + ys;
      InsertValuesConcat(d.Put(xs[0].identity, xs[0]), catalog, xs[1..], ys);
    }
  }

  lemma {:induction false} CatalogKeys(entries: seq<CatalogEntry>, k: Identity)
    requires forall e :: e in entries ==> e.identity != k
    ensures k !in CatalogOf(entries)
    decreases |entries|
  {
    if entries != [] {
      CatalogKeys(entries[..|entries| - 1], k);
    }
  }

  /** Distinct entries within the session bound are all inserted, and are then what the dictionary holds. */
  lemma {:induction false} DistinctEntriesInsert(entries: seq<CatalogEntry>)
    requires DistinctEntries(entries) && |entries| <= MAX_SESSION_CONTROLS
    ensures
      var (d, complete) := InsertEntries(Empty(), entries);
      complete && d.Valid() && d.at == CatalogOf(entries) && |d.keys| == |entries|
    decreases |entries|
  {
    if entries != [] {
      var front, last := entries[..|entries| - 1], entries[|entries| - 1];
      assert entries == front + [last];
      DistinctEntriesInsert(front);
      CatalogKeys(front, last.identity);
      InsertEntriesConcat(Empty(), front, [last]);
      var d := InsertEntries(Empty(), front).0;
      assert last.identity !in d.at;
      assert InsertEntries(d, [last]) == InsertEntries(d.Put(last.identity, last), []);
      PutKeepsValid(d, last.identity, last);
    }
  }

  lemma CatalogIsInserted(entries: seq<CatalogEntry>)
    requires DistinctEntries(entries) && |entries| <= MAX_SESSION_CONTROLS
    ensures InsertEntries(Empty(), entries).1 && InsertEntries(Empty(), entries).0.at == CatalogOf(entries)
  {
    DistinctEntriesInsert(entries);
  }

  lemma {:induction false} DistinctValuesInsert(d: Dict<Identity, DecodedValue>, catalog: map<Identity, CatalogEntry>,
                                                values: seq<DecodedValue>)
    requires DistinctValues(values) && |d.keys| + |values| <= MAX_SESSION_CONTROLS
    requires forall v :: v in values ==> Checked(catalog, v) && v.identity !in d.at
    ensures InsertValues(d, catalog, values).1
    decreases |values|
  {
    if values != [] {
      assert values == [values[0]] + values[1..];
      DistinctValueSplit([values[0]], values[1..]);
      DistinctValuesInsert(d.Put(values[0].identity, values[0]), catalog, values[1..]);
    }
  }

  /** The dictionary lists inserted values in the order of their insertion. */
  lemma {:induction false} InsertedValues(d: Dict<Identity, DecodedValue>, catalog: map<Identity, CatalogEntry>,
                                          values: seq<DecodedValue>)
    requires d.Valid() && InsertValues(d, catalog, values).1
    ensures InsertValues(d, catalog, values).0.Valid()
    ensures InsertValues(d, catalog, values).0.Values() == d.Values() + values
    decreases |values|
  {
    if values != [] {
      var v := values[0];
      PutKeepsValid(d, v.identity, v);
      PutValues(d, v.identity, v);
      InsertedValues(d.Put(v.identity, v), catalog, values[1..]);
      assert d.Values() + values == (d.Values() + [v]) + values[1..];
    }
  }

  lemma PutValues<K(!new), V>(d: Dict<K, V>, k: K, v: V)
    requires d.Valid() && k !in d.at && d.Put(k, v).Valid()
    ensures d.Put(k, v).Values() == d.Values() + [v]
  {
    assert forall i :: 0 <= i < |d.keys| ==> d.Put(k, v).keys[i] == d.keys[i];
  }

  // ----- the opening of an epoch

  /** What the publisher may open an epoch with: distinct legal controls and distinct values in their ranges. */
  ghost predicate Publishable(aircraft: string, entries: seq<CatalogEntry>, values: seq<DecodedValue>) {
    && 0 < |aircraft| <= 64
    && |entries| <= MAX_SESSION_CONTROLS && DistinctEntries(entries)
    && (forall e :: e in entries ==> EntryIsLegal(e))
    && |values| <= MAX_SESSION_CONTROLS && DistinctValues(values)
    && AllChecked(CatalogOf(entries), values)
  }

  ghost predicate AllChecked(catalog: map<Identity, CatalogEntry>, values: seq<DecodedValue>) {
    forall v :: v in values ==> ValueIsLegal(v) && Checked(catalog, v)
  }

  predicate LegalEntries(chunk: seq<CatalogEntry>) {
    |chunk| <= MAX_ENTRIES && DistinctEntries(chunk) && forall e :: e in chunk ==> EntryIsLegal(e)
  }

  predicate LegalValues(chunk: seq<DecodedValue>) {
    |chunk| <= MAX_VALUES && DistinctValues(chunk) && forall v :: v in chunk ==> ValueIsLegal(v)
  }

  lemma {:induction false} EntryChunksAreLegal(chunks: seq<seq<CatalogEntry>>)
    requires ChunksWithin(chunks, MAX_ENTRIES) && DistinctEntries(Flatten(chunks))
    requires forall e :: e in Flatten(chunks) ==> EntryIsLegal(e)
    ensures forall i :: 0 <= i < |chunks| ==> LegalEntries(chunks[i])
    decreases |chunks|
  {
    if chunks != [] {
      var first, rest := chunks[0], Flatten(chunks[1..]);
      DistinctEntrySplit(first, rest);
      EntryChunksAreLegal(chunks[1..]);
    }
  }

  lemma {:induction false} ValueChunksAreLegal(chunks: seq<seq<DecodedValue>>)
    requires ChunksWithin(chunks, MAX_VALUES) && DistinctValues(Flatten(chunks))
    requires forall v :: v in Flatten(chunks) ==> ValueIsLegal(v)
    ensures forall i :: 0 <= i < |chunks| ==> LegalValues(chunks[i])
    decreases |chunks|
  {
    if chunks != [] {
      var first, rest := chunks[0], Flatten(chunks[1..]);
      DistinctValueSplit(first, rest);
      ValueChunksAreLegal(chunks[1..]);
    }
  }

  /** The ingress after `chunks` catalog chunks that together held `done`. */
  ghost function AfterCatalog(epoch: nat, aircraft: string, count: nat, chunks: nat, done: seq<CatalogEntry>)
      : Ingress.State
    requires chunks > 0
  {
    Ingress.State(Some(epoch), Some(aircraft), Some(chunks - 1), false, Some(count), chunks,
                  InsertEntries(Empty(), done).0, None, 0, Empty())
  }

  /** The ingress after `chunks` snapshot chunks that together held `done`. */
  ghost function AfterSnapshot(base: Ingress.State, count: nat, chunks: nat, done: seq<DecodedValue>): Ingress.State
    requires base.lastSequence.Some?
  {
    base.(lastSequence := Some(base.lastSequence.value + chunks),
          snapshotChunkCount := if chunks == 0 then None else Some(count),
          snapshotChunks := chunks,
          snapshot := InsertValues(Empty(), base.catalog.at, done).0,
          ready := chunks == count)
  }

  /** The first catalog chunk resets whatever backend of another epoch it reaches. */
  lemma {:induction false} DeliverFirstChunk(b: Backend, m: Message)
    requires m.Catalog? && IsLegal(m) && m.header.sequence == m.header.chunkIndex == 0
    requires Good(b) && b.ingress.epoch != Some(m.header.epoch)
    ensures Deliver(b, m) == Some(Backend(AfterCatalog(m.header.epoch, m.header.aircraft, m.header.chunkCount, 1,
                                                       m.entries), [m], map[]))
  {
    CatalogIsInserted(m.entries);
  }

  lemma {:induction false} DeliverNextCatalogChunk(b: Backend, m: Message, done: seq<CatalogEntry>)
    requires m.Catalog? && IsLegal(m) && 0 < m.header.chunkIndex == m.header.sequence
    requires Good(b)
    requires b.ingress == AfterCatalog(m.header.epoch, m.header.aircraft, m.header.chunkCount, m.header.chunkIndex,
                                       done)
    requires InsertEntries(Empty(), done + m.entries).1
    ensures
      var r := Deliver(b, m);
      && r.Some? && r.value.readings == b.readings
      && r.value.ingress == AfterCatalog(m.header.epoch, m.header.aircraft, m.header.chunkCount,
                                         m.header.chunkIndex + 1, done + m.entries)
  {
    InsertEntriesConcat(Empty(), done, m.entries);
  }

  lemma {:induction false} DeliverCatalogChunks(b: Backend, epoch: nat, aircraft: string, count: nat, index: nat,
                                               done: seq<CatalogEntry>, chunks: seq<seq<CatalogEntry>>)
    requires 0 < index && index + |chunks| == count <= MAX_CHUNK_COUNT && 0 < |aircraft| <= 64
    requires Good(b) && b.ingress == AfterCatalog(epoch, aircraft, count, index, done)
    requires forall i :: 0 <= i < |chunks| ==> LegalEntries(chunks[i])
    requires InsertEntries(Empty(), done + Flatten(chunks)).1
    ensures
      var r := DeliverAll(b, CatalogMessages(epoch, aircraft, index, chunks, index, count));
      && r.Some? && r.value.readings == b.readings
      && r.value.ingress == AfterCatalog(epoch, aircraft, count, count, done + Flatten(chunks))
    decreases |chunks|
  {
    if chunks == [] {
      assert done + Flatten(chunks) == done;
    } else {
      var chunk, rest := chunks[0], chunks[1..];
      var m := Catalog(Header(epoch, index, aircraft, index, count), chunk);
      assert done + Flatten(chunks) == (done + chunk) + Flatten(rest);
      InsertEntriesConcat(Empty(), done + chunk, Flatten(rest));
      DeliverNextCatalogChunk(b, m, done);
      DeliverCatalogChunks(Deliver(b, m).value, epoch, aircraft, count, index + 1, done + chunk, rest);
      DeliverCons(b, m, CatalogMessages(epoch, aircraft, index + 1, rest, index + 1, count));
    }
  }

  /** A catalog that is complete and waits for its snapshot. */
  ghost predicate AwaitsSnapshot(base: Ingress.State, epoch: nat, aircraft: string) {
    && base.epoch == Some(epoch) && base.aircraft == Some(aircraft) && base.lastSequence.Some?
    && CatalogComplete(base) && !base.ready
    && base.snapshotChunkCount.None? && base.snapshotChunks == 0 && base.snapshot == Empty()
  }

  lemma {:induction false} DeliverNextSnapshotChunk(b: Backend, base: Ingress.State, m: Message,
                                                    done: seq<DecodedValue>)
    requires m.Snapshot? && IsLegal(m)
    requires AwaitsSnapshot(base, m.header.epoch, m.header.aircraft)
    requires m.header.sequence == base.lastSequence.value + m.header.chunkIndex + 1
    requires Good(b) && b.ingress == AfterSnapshot(base, m.header.chunkCount, m.header.chunkIndex, done)
    requires InsertValues(Empty(), base.catalog.at, done + m.values).1
    ensures
      var r := Deliver(b, m);
      var last := m.header.chunkIndex + 1 == m.header.chunkCount;
      && r.Some?
      && r.value.ingress == AfterSnapshot(base, m.header.chunkCount, m.header.chunkIndex + 1, done + m.values)
      && r.value.readings == if last then ApplyValues(b.readings, done + m.values) else b.readings
  {
    GoodIsWellFormed(b);
    hide Good, IsLegal, AcceptSnapshot, AfterSnapshot, AwaitsSnapshot, InsertValues;
    NextSnapshotChunk(b.ingress, base, m.header, m.values, done);
  }

  lemma GoodIsWellFormed(b: Backend)
    requires Good(b)
    ensures b.ingress.catalog.Valid() && b.ingress.snapshot.Valid()
  {
  }

  lemma {:induction false} NextSnapshotChunk(s: Ingress.State, base: Ingress.State, h: Header,
                                             values: seq<DecodedValue>, done: seq<DecodedValue>)
    requires s.catalog.Valid() && s.snapshot.Valid()
    requires h.chunkIndex < h.chunkCount && AwaitsSnapshot(base, h.epoch, h.aircraft)
    requires h.sequence == base.lastSequence.value + h.chunkIndex + 1
    requires s == AfterSnapshot(base, h.chunkCount, h.chunkIndex, done)
    requires InsertValues(Empty(), base.catalog.at, done + values).1
    ensures
      AcceptSnapshot(s, h, values) ==
      (AfterSnapshot(base, h.chunkCount, h.chunkIndex + 1, done + values),
       if h.chunkIndex + 1 == h.chunkCount then
         Emitted(SnapshotBatch(h.epoch, h.aircraft, s.catalog.Values(), done + values)) else Quiet)
  {
    hide NoDuplicates, Checked;
    InsertValuesConcat(Empty(), base.catalog.at, done, values);
    InsertedValues(Empty(), base.catalog.at, done + values);
    var nothing: Dict<Identity, DecodedValue> := Empty();
    assert nothing.Values() + (done + values) == done + values;
    hide InsertValues;
  }

  lemma {:induction false} DeliverSnapshotChunks(b: Backend, base: Ingress.State, epoch: nat, aircraft: string,
                                                 count: nat, index: nat,
                                                done: seq<DecodedValue>, chunks: seq<seq<DecodedValue>>)
    requires index < count == index + |chunks| <= MAX_CHUNK_COUNT && 0 < |aircraft| <= 64
    requires AwaitsSnapshot(base, epoch, aircraft) && base.lastSequence.value + count <= MAX_SEQUENCE
    requires Good(b) && b.ingress == AfterSnapshot(base, count, index, done)
    requires forall i :: 0 <= i < |chunks| ==> LegalValues(chunks[i])
    requires InsertValues(Empty(), base.catalog.at, done + Flatten(chunks)).1
    ensures
      var r := DeliverAll(b, SnapshotMessages(epoch, aircraft, base.lastSequence.value + index + 1, chunks, index,
                                              count));
      && r.Some?
      && r.value.ingress == AfterSnapshot(base, count, count, done + Flatten(chunks))
      && r.value.readings == ApplyValues(b.readings, done + Flatten(chunks))
    decreases |chunks|
  {
    hide Deliver, Good, LegalValues;
    var done', rest := done + chunks[0], chunks[1..];
    assert done' + Flatten(rest) == done + Flatten(chunks);
    InsertValuesConcat(Empty(), base.catalog.at, done', Flatten(rest));
    var next := DeliverOneSnapshotChunk(b, base, epoch, aircraft, count, index, done, chunks);
    if rest == [] {
      assert done' + Flatten(rest) == done';
    } else {
      DeliverSnapshotChunks(next, base, epoch, aircraft, count, index + 1, done', rest);
    }
  }

  lemma {:induction false} DeliverOneSnapshotChunk(b: Backend, base: Ingress.State, epoch: nat, aircraft: string,
                                                   count: nat, index: nat,
                                                  done: seq<DecodedValue>, chunks: seq<seq<DecodedValue>>)
                                                      returns (next: Backend)
    requires index < count == index + |chunks| <= MAX_CHUNK_COUNT && 0 < |aircraft| <= 64
    requires AwaitsSnapshot(base, epoch, aircraft) && base.lastSequence.value + count <= MAX_SEQUENCE
    requires Good(b) && b.ingress == AfterSnapshot(base, count, index, done)
    requires LegalValues(chunks[0])
    requires InsertValues(Empty(), base.catalog.at, done + chunks[0]).1
    ensures Good(next)
    ensures
      var sequence := base.lastSequence.value + index + 1;
      DeliverAll(b, SnapshotMessages(epoch, aircraft, sequence, chunks, index, count))
      == DeliverAll(next, SnapshotMessages(epoch, aircraft, sequence + 1, chunks[1..], index + 1, count))
    ensures next.ingress == AfterSnapshot(base, count, index + 1, done + chunks[0])
    ensures next.readings == if chunks[1..] == [] then ApplyValues(b.readings, done + chunks[0]) else b.readings
  {
    hide Good, Deliver, AfterSnapshot, InsertValues;
    var chunk, rest := chunks[0], chunks[1..];
    var sequence := base.lastSequence.value + index + 1;
    var m := Snapshot(Header(epoch, sequence, aircraft, index, count), chunk);
    DeliverNextSnapshotChunk(b, base, m, done);
    next := Deliver(b, m).value;
    DeliverCons(b, m, SnapshotMessages(epoch, aircraft, sequence + 1, rest, index + 1, count));
  }

  /** The ingress is ready for the delta numbered `sequence`. */
  ghost predicate ReadyFor(s: Ingress.State, epoch: nat, aircraft: string, sequence: nat,
                           catalog: map<Identity, CatalogEntry>)
  {
    && s.epoch == Some(epoch) && s.aircraft == Some(aircraft)
    && s.ready && sequence > 0 && s.lastSequence == Some(sequence - 1)
    && s.catalog.at == catalog
  }

  lemma {:induction false} DeliverCatalog(b: Backend, epoch: nat, aircraft: string, catalogs: seq<seq<CatalogEntry>>)
    requires Good(b) && b.ingress.epoch != Some(epoch) && 0 < |aircraft| <= 64
    requires 0 < |catalogs| <= MAX_CHUNK_COUNT
    requires forall i :: 0 <= i < |catalogs| ==> LegalEntries(catalogs[i])
    requires InsertEntries(Empty(), Flatten(catalogs)).1
    ensures
      var n := |catalogs|;
      var r := DeliverAll(b, CatalogMessages(epoch, aircraft, 0, catalogs, 0, n));
      && r.Some? && r.value.readings == map[]
      && r.value.ingress == AfterCatalog(epoch, aircraft, n, n, Flatten(catalogs))
  {
    var n, first, rest := |catalogs|, catalogs[0], catalogs[1..];
    var m := Catalog(Header(epoch, 0, aircraft, 0, n), first);
    DeliverFirstChunk(b, m);
    DeliverCatalogChunks(Deliver(b, m).value, epoch, aircraft, n, 1, first, rest);
    DeliverCons(b, m, CatalogMessages(epoch, aircraft, 1, rest, 1, n));
  }

  lemma SnapshotStart(base: Ingress.State, epoch: nat, aircraft: string, count: nat)
    requires AwaitsSnapshot(base, epoch, aircraft) && count > 0
    ensures AfterSnapshot(base, count, 0, []) == base
  {
  }

  lemma {:induction false} DeliverSnapshot(b: Backend, epoch: nat, aircraft: string, snapshots: seq<seq<DecodedValue>>)
    requires Good(b) && AwaitsSnapshot(b.ingress, epoch, aircraft) && 0 < |aircraft| <= 64
    requires 0 < |snapshots| <= MAX_CHUNK_COUNT && b.ingress.lastSequence.value + |snapshots| <= MAX_SEQUENCE
    requires forall i :: 0 <= i < |snapshots| ==> LegalValues(snapshots[i])
    requires InsertValues(Empty(), b.ingress.catalog.at, Flatten(snapshots)).1
    ensures
      var k := |snapshots|;
      var r := DeliverAll(b, SnapshotMessages(epoch, aircraft, b.ingress.lastSequence.value + 1, snapshots, 0, k));
      && r.Some? && r.value.readings == ApplyValues(b.readings, Flatten(snapshots))
      && r.value.ingress == AfterSnapshot(b.ingress, k, k, Flatten(snapshots))
  {
    hide Good, Deliver, DeliverAll, LegalValues, AfterSnapshot, AwaitsSnapshot, InsertValues, SnapshotMessages, Flatten;
    SnapshotStart(b.ingress, epoch, aircraft, |snapshots|);
    assert [] + Flatten(snapshots) == Flatten(snapshots);
    DeliverSnapshotChunks(b, b.ingress, epoch, aircraft, |snapshots|, 0, [], snapshots);
  }

  /**
    Delivering an epoch's opening to any backend of another epoch is never rejected; it makes the
    ingress ready for the first delta and the store exactly the snapshot.
   */
  lemma {:induction false} DeliverOpening(b: Backend, epoch: nat, aircraft: string, entries: seq<CatalogEntry>,
                                          values: seq<DecodedValue>)
    requires Good(b) && b.ingress.epoch != Some(epoch)
    requires Publishable(aircraft, entries, values)
    ensures
      var r := DeliverAll(b, Opening(epoch, aircraft, entries, values));
      var sequence := |ChunksToSend(entries, MAX_ENTRIES)| + |ChunksToSend(values, MAX_VALUES)|;
      && r.Some?
      && ReadyFor(r.value.ingress, epoch, aircraft, sequence, CatalogOf(entries))
      && r.value.readings == ApplyValues(map[], values)
  {
    hide Good, Deliver, AwaitsSnapshot, ReadyFor, Checked, ChunksToSend, CatalogMessages, SnapshotMessages;
    var catalogs, snapshots := ChunksToSend(entries, MAX_ENTRIES), ChunksToSend(values, MAX_VALUES);
    var catalogMessages := CatalogMessages(epoch, aircraft, 0, catalogs, 0, |catalogs|);
    DeliverPublishedCatalog(b, epoch, aircraft, entries);
    var b2 := DeliverAll(b, catalogMessages).value;
    DeliverPublishedSnapshot(b2, epoch, aircraft, values);
    DeliverConcat(b, catalogMessages, SnapshotMessages(epoch, aircraft, |catalogs|, snapshots, 0, |snapshots|));
  }

  lemma {:induction false} DeliverPublishedCatalog(b: Backend, epoch: nat, aircraft: string, entries: seq<CatalogEntry>)
    requires Good(b) && b.ingress.epoch != Some(epoch)
    requires 0 < |aircraft| <= 64 && |entries| <= MAX_SESSION_CONTROLS && DistinctEntries(entries)
    requires forall e :: e in entries ==> EntryIsLegal(e)
    ensures
      var catalogs := ChunksToSend(entries, MAX_ENTRIES);
      var r := DeliverAll(b, CatalogMessages(epoch, aircraft, 0, catalogs, 0, |catalogs|));
      && r.Some? && r.value.readings == map[]
      && AwaitsSnapshot(r.value.ingress, epoch, aircraft)
      && r.value.ingress.catalog.at == CatalogOf(entries)
      && r.value.ingress.lastSequence == Some(|catalogs| - 1) && 1 <= |catalogs| <= MAX_CHUNK_COUNT
  {
    var catalogs := ChunksToSend(entries, MAX_ENTRIES);
    OpeningChunks(entries, MAX_ENTRIES);
    EntryChunksAreLegal(catalogs);
    CatalogIsInserted(entries);
    DeliverCatalog(b, epoch, aircraft, catalogs);
  }

  lemma {:induction false} DeliverPublishedSnapshot(b: Backend, epoch: nat, aircraft: string, values: seq<DecodedValue>)
    requires Good(b) && AwaitsSnapshot(b.ingress, epoch, aircraft) && 0 < |aircraft| <= 64
    requires b.ingress.lastSequence.value < MAX_CHUNK_COUNT && b.readings == map[]
    requires |values| <= MAX_SESSION_CONTROLS && DistinctValues(values) && AllChecked(b.ingress.catalog.at, values)
    ensures
      var n := b.ingress.lastSequence.value + 1;
      var snapshots := ChunksToSend(values, MAX_VALUES);
      var r := DeliverAll(b, SnapshotMessages(epoch, aircraft, n, snapshots, 0, |snapshots|));
      && r.Some? && r.value.readings == ApplyValues(map[], values)
      && ReadyFor(r.value.ingress, epoch, aircraft, n + |snapshots|, b.ingress.catalog.at)
  {
    hide Good, Deliver, DeliverAll, Flatten, InsertValues, SnapshotMessages, Checked, ChunksToSend;
    var snapshots := ChunksToSend(values, MAX_VALUES);
    OpeningChunks(values, MAX_VALUES);
    ValueChunksAreLegal(snapshots);
    DistinctValuesInsert(Empty(), b.ingress.catalog.at, values);
    DeliverSnapshot(b, epoch, aircraft, snapshots);
  }

  // ----- what is not checked is rejected

  lemma {:induction false} InsertedWereChecked(d: Dict<Identity, DecodedValue>, catalog: map<Identity, CatalogEntry>,
                                              values: seq<DecodedValue>)
    requires InsertValues(d, catalog, values).1
    ensures forall v :: v in values ==> Checked(catalog, v)
    decreases |values|
  {
    hide Checked;
    if values != [] {
      InsertedWereChecked(d.Put(values[0].identity, values[0]), catalog, values[1..]);
      assert values == [values[0]] + values[1..];
    }
  }

  lemma {:induction false} FaultyChunkIsRejected(b: Backend, base: Ingress.State, m: Message, done: seq<DecodedValue>)
    requires m.Snapshot? && base.lastSequence.Some?
    requires Good(b) && b.ingress == AfterSnapshot(base, m.header.chunkCount, m.header.chunkIndex, done)
    requires InsertValues(Empty(), base.catalog.at, done).1
             && !InsertValues(Empty(), base.catalog.at, done + m.values).1
    ensures Deliver(b, m).None?
  {
    GoodIsWellFormed(b);
    InsertValuesConcat(Empty(), base.catalog.at, done, m.values);
    hide Good, IsLegal, InsertValues, InContext, NextInSequence, CatalogComplete;
  }

  lemma {:induction false} FaultySnapshotIsRejected(b: Backend, base: Ingress.State, epoch: nat, aircraft: string,
                                                    count: nat, index: nat,
                                                   done: seq<DecodedValue>, chunks: seq<seq<DecodedValue>>)
    requires index < count == index + |chunks| <= MAX_CHUNK_COUNT && 0 < |aircraft| <= 64
    requires AwaitsSnapshot(base, epoch, aircraft) && base.lastSequence.value + count <= MAX_SEQUENCE
    requires Good(b) && b.ingress == AfterSnapshot(base, count, index, done)
    requires forall i :: 0 <= i < |chunks| ==> LegalValues(chunks[i])
    requires InsertValues(Empty(), base.catalog.at, done).1
    requires !InsertValues(Empty(), base.catalog.at, done + Flatten(chunks)).1
    ensures DeliverAll(b, SnapshotMessages(epoch, aircraft, base.lastSequence.value + index + 1, chunks, index,
                                           count)).None?
    decreases |chunks|
  {
    hide Deliver, DeliverAll, Good, LegalValues, AfterSnapshot, AwaitsSnapshot, InsertValues, SnapshotMessages, Flatten;
    AwaitsHasSequence(base, epoch, aircraft);
    var rest := chunks[1..];
    FlattenStep(done, chunks);
    if InsertValues(Empty(), base.catalog.at, done + chunks[0]).1 {
      var next := DeliverOneSnapshotChunk(b, base, epoch, aircraft, count, index, done, chunks);
      FaultySnapshotIsRejected(next, base, epoch, aircraft, count, index + 1, done + chunks[0], rest);
    } else {
      FaultyFirstChunk(b, base, epoch, aircraft, count, index, done, chunks);
    }
  }

  lemma AwaitsHasSequence(base: Ingress.State, epoch: nat, aircraft: string)
    requires AwaitsSnapshot(base, epoch, aircraft)
    ensures base.lastSequence.Some?
  {
  }

  lemma FlattenStep<T>(done: seq<T>, chunks: seq<seq<T>>)
    requires chunks != []
    ensures done + Flatten(chunks) == (done + chunks[0]) + Flatten(chunks[1..])
    ensures chunks[1..] == [] ==> done + Flatten(chunks) == done + chunks[0]
  {
  }

  lemma {:induction false} FaultyFirstChunk(b: Backend, base: Ingress.State, epoch: nat, aircraft: string, count: nat,
                                            index: nat,
                                           done: seq<DecodedValue>, chunks: seq<seq<DecodedValue>>)
    requires chunks != [] && base.lastSequence.Some?
    requires Good(b) && b.ingress == AfterSnapshot(base, count, index, done)
    requires InsertValues(Empty(), base.catalog.at, done).1
             && !InsertValues(Empty(), base.catalog.at, done + chunks[0]).1
    ensures DeliverAll(b, SnapshotMessages(epoch, aircraft, base.lastSequence.value + index + 1, chunks, index,
                                           count)).None?
  {
    hide Deliver, Good, AfterSnapshot, InsertValues;
    var m := Snapshot(Header(epoch, base.lastSequence.value + index + 1, aircraft, index, count), chunks[0]);
    FaultyChunkIsRejected(b, base, m, done);
  }

  /**
    The backend takes an epoch's opening, whatever the backend's state, if and only if every value of the
    snapshot passes the check against the catalog sent before it.
   */
  lemma {:induction false} OpeningAcceptedExactly(b: Backend, epoch: nat, aircraft: string, entries: seq<CatalogEntry>,
                                                 values: seq<DecodedValue>)
    requires Good(b) && b.ingress.epoch != Some(epoch) && 0 < |aircraft| <= 64
    requires |entries| <= MAX_SESSION_CONTROLS && DistinctEntries(entries) && forall e :: e in entries ==>
             EntryIsLegal(e)
    requires |values| <= MAX_SESSION_CONTROLS && DistinctValues(values) && forall v :: v in values ==> ValueIsLegal(v)
    ensures
      DeliverAll(b, Opening(epoch, aircraft, entries, values)).Some? <==>
      forall v :: v in values ==> Checked(CatalogOf(entries), v)
  {
    hide Good, Deliver, AwaitsSnapshot, Checked, ChunksToSend, CatalogMessages, SnapshotMessages, DeliverAll,
      DistinctEntries,
      DistinctValues, ValueIsLegal, EntryIsLegal, ReadyFor;
    if forall v :: v in values ==> Checked(CatalogOf(entries), v) {
      DeliverOpening(b, epoch, aircraft, entries, values);
    } else {
      var catalogs, snapshots := ChunksToSend(entries, MAX_ENTRIES), ChunksToSend(values, MAX_VALUES);
      var catalogMessages := CatalogMessages(epoch, aircraft, 0, catalogs, 0, |catalogs|);
      DeliverPublishedCatalog(b, epoch, aircraft, entries);
      var b2 := DeliverAll(b, catalogMessages).value;
      FaultyPublishedSnapshot(b2, epoch, aircraft, values);
      DeliverConcat(b, catalogMessages, SnapshotMessages(epoch, aircraft, |catalogs|, snapshots, 0, |snapshots|));
    }
  }

  lemma {:induction false} FaultyPublishedSnapshot(b: Backend, epoch: nat, aircraft: string, values: seq<DecodedValue>)
    requires Good(b) && AwaitsSnapshot(b.ingress, epoch, aircraft) && 0 < |aircraft| <= 64
    requires b.ingress.lastSequence.value < MAX_CHUNK_COUNT
    requires |values| <= MAX_SESSION_CONTROLS && DistinctValues(values) && forall v :: v in values ==> ValueIsLegal(v)
    requires exists v :: v in values && !Checked(b.ingress.catalog.at, v)
    ensures
      var n := b.ingress.lastSequence.value + 1;
      var snapshots := ChunksToSend(values, MAX_VALUES);
      DeliverAll(b, SnapshotMessages(epoch, aircraft, n, snapshots, 0, |snapshots|)).None?
  {
    hide Good, Deliver, DeliverAll, Flatten, InsertValues, SnapshotMessages, Checked, ChunksToSend;
    var snapshots := ChunksToSend(values, MAX_VALUES);
    OpeningChunks(values, MAX_VALUES);
    ValueChunksAreLegal(snapshots);
    SnapshotStart(b.ingress, epoch, aircraft, |snapshots|);
    if InsertValues(Empty(), b.ingress.catalog.at, values).1 {
      InsertedWereChecked(Empty(), b.ingress.catalog.at, values);
    }
    NothingInserts(b.ingress.catalog.at);
    assert [] + Flatten(snapshots) == Flatten(snapshots);
    FaultySnapshotIsRejected(b, b.ingress, epoch, aircraft, |snapshots|, 0, [], snapshots);
  }

  lemma NothingInserts(catalog: map<Identity, CatalogEntry>)
    ensures InsertValues(Empty(), catalog, []).1
  {
  }

  /** A delta of checked values is accepted by a ready ingress and applied to the store. */
  lemma {:induction false} DeliverDelta(b: Backend, epoch: nat, aircraft: string, sequence: nat,
                                        catalog: map<Identity, CatalogEntry>, values: seq<DecodedValue>)
    requires Good(b) && ReadyFor(b.ingress, epoch, aircraft, sequence, catalog)
    requires 0 < |aircraft| <= 64 && sequence <= MAX_SEQUENCE
    requires 0 < |values| <= MAX_VALUES && DistinctValues(values) && AllChecked(catalog, values)
    ensures
      var r := Deliver(b, Delta(Header(epoch, sequence, aircraft, 0, 1), values));
      && r.Some?
      && ReadyFor(r.value.ingress, epoch, aircraft, sequence + 1, catalog)
      && r.value.readings == ApplyValues(b.readings, values)
  {
  }

  // ----- applying distinct values

  lemma {:induction false} ApplyValuesAt(m: map<Identity, Reading>, values: seq<DecodedValue>, id: Identity)
    requires DistinctValues(values)
    requires forall v :: v in values ==> v.available && v.value.Some?
    ensures
      var after := ApplyValues(m, values);
      && (forall v :: v in values && v.identity == id ==> id in after && after[id] == v.value.value)
      && ((forall v :: v in values ==> v.identity != id) ==>
            (id in after <==> id in m) && (id in m ==> after[id] == m[id]))
    decreases |values|
  {
    if values != [] {
      var first, rest := [values[0]], values[1..];
      assert values == first + rest;
      DistinctValueSplit(first, rest);
      assert forall v :: v in values <==> v == values[0] || v in rest;
      ApplyValuesAt(ApplyValue(m, values[0]), rest, id);
    }
  }
}
