/**
  The typed messages of telemetry protocol v2 and the bounds its constructors enforce.
  JSON, UUID syntax and the 256 KiB envelope are not part of this model; an epoch is a number.
 */
module Wire {
  import opened Wrappers

  const MAX_ENTRIES := 256
  const MAX_VALUES := 1024
  const MAX_CHUNK_COUNT := 64
  const MAX_SEQUENCE := 0x20_0000_0000_0000 - 1
  const MAX_STRING_LENGTH := 256
  const MAX_SESSION_CONTROLS := 4096

  datatype OutputType = IntegerOutput | StringOutput

  datatype Identity = Identity(moduleName: string, identifier: string, outputType: OutputType, outputIndex: nat)

  datatype Reading = Number(n: int) | Text(s: string)

  datatype CatalogEntry = CatalogEntry(identity: Identity, integerMax: Option<int>, stringLength: Option<nat>)

  datatype DecodedValue = DecodedValue(identity: Identity, available: bool, value: Option<Reading>, observedAtMs: nat)

  datatype Header = Header(epoch: nat, sequence: nat, aircraft: string, chunkIndex: nat, chunkCount: nat)

  datatype Message =
    | Catalog(header: Header, entries: seq<CatalogEntry>)
    | Snapshot(header: Header, values: seq<DecodedValue>)
    | Delta(header: Header, values: seq<DecodedValue>)

  predicate EntryIsLegal(e: CatalogEntry) {
    match e.identity.outputType
    case IntegerOutput => e.integerMax.Some? && e.integerMax.value >= 0 && e.stringLength.None?
    case StringOutput =>
      e.stringLength.Some? && 0 < e.stringLength.value <= MAX_STRING_LENGTH && e.integerMax.None?
  }

  predicate ValueIsLegal(v: DecodedValue) {
    if !v.available then v.value.None?
    else
      match v.identity.outputType
      case IntegerOutput => v.value.Some? && v.value.value.Number?
      case StringOutput => v.value.Some? && v.value.value.Text? && |v.value.value.s| <= MAX_STRING_LENGTH
  }

  predicate HeaderIsLegal(h: Header) {
    && h.sequence <= MAX_SEQUENCE
    && 0 < |h.aircraft| <= 64
    && h.chunkIndex < h.chunkCount <= MAX_CHUNK_COUNT
  }

  predicate DistinctEntries(entries: seq<CatalogEntry>)
    decreases |entries|
  {
    entries == [] ||
    (var front, last := entries[..|entries| - 1], entries[|entries| - 1];
     DistinctEntries(front) && forall e :: e in front ==> e.identity != last.identity)
  }

  predicate DistinctValues(values: seq<DecodedValue>)
    decreases |values|
  {
    values == [] ||
    (var front, last := values[..|values| - 1], values[|values| - 1];
     DistinctValues(front) && forall v :: v in front ==> v.identity != last.identity)
  }

  lemma {:induction false} DistinctEntryPositions(entries: seq<CatalogEntry>)
    ensures DistinctEntries(entries) <==> forall i, j :: 0 <= i < j < |entries| ==>
            entries[i].identity != entries[j].identity
    decreases |entries|
  {
    if entries != [] {
      var front := entries[..|entries| - 1];
      DistinctEntryPositions(front);
      assert forall i :: 0 <= i < |front| ==> front[i] == entries[i] && entries[i] in front;
    }
  }

  lemma {:induction false} DistinctValuePositions(values: seq<DecodedValue>)
    ensures DistinctValues(values) <==> forall i, j :: 0 <= i < j < |values| ==>
            values[i].identity != values[j].identity
    decreases |values|
  {
    if values != [] {
      var front := values[..|values| - 1];
      DistinctValuePositions(front);
      assert forall i :: 0 <= i < |front| ==> front[i] == values[i] && values[i] in front;
    }
  }

  lemma DistinctEntrySplit(a: seq<CatalogEntry>, b: seq<CatalogEntry>)
    requires DistinctEntries(a + b)
    ensures DistinctEntries(a) && DistinctEntries(b)
    ensures forall x, y :: x in a && y in b ==> x.identity != y.identity
  {
    DistinctEntryPositions(a + b);
    DistinctEntryPositions(a);
    DistinctEntryPositions(b);
    assert forall i :: 0 <= i < |a| ==> a[i] == (a + b)[i];
    assert forall i :: 0 <= i < |b| ==> b[i] == (a + b)[|a| + i];
  }

  lemma DistinctValueSplit(a: seq<DecodedValue>, b: seq<DecodedValue>)
    requires DistinctValues(a + b)
    ensures DistinctValues(a) && DistinctValues(b)
    ensures forall x, y :: x in a && y in b ==> x.identity != y.identity
  {
    DistinctValuePositions(a + b);
    DistinctValuePositions(a);
    DistinctValuePositions(b);
    assert forall i :: 0 <= i < |a| ==> a[i] == (a + b)[i];
    assert forall i :: 0 <= i < |b| ==> b[i] == (a + b)[|a| + i];
  }

  /** What `from_control` checks before a message reaches the ingress. */
  predicate IsLegal(m: Message) {
    && HeaderIsLegal(m.header)
    && match m
       case Catalog(_, entries) =>
         |entries| <= MAX_ENTRIES && DistinctEntries(entries) && forall e :: e in entries ==> EntryIsLegal(e)
       case Snapshot(_, values) =>
         |values| <= MAX_VALUES && DistinctValues(values) && forall v :: v in values ==> ValueIsLegal(v)
       case Delta(_, values) =>
         0 < |values| <= MAX_VALUES && DistinctValues(values) && forall v :: v in values ==> ValueIsLegal(v)
  }
}
