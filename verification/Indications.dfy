/**
  Reassembly of indication packets (IndicationPacketAssembler in client/dcs_copilot/dcs/indications.py).
  A datagram is its parsed header and payload; the text of the header and the UTF-8 decoding of the
  assembled bytes are not part of this model.
 */
module Indications {
  import opened Wrappers

  const MAX_INDICATORS := 256
  const MAX_CHUNKS := 128
  const MAX_ASSEMBLED_BYTES := 4 * 1024 * 1024
  const MAX_AGE := 5.0

  datatype Chunk = Chunk(
    sequence: int, indicator: int, index: int, count: int, observedAt: real, failed: bool, length: int,
    payload: seq<byte>)

  /** What `feed` is given: text it cannot parse, another reader's packet, or a chunk. */
  datatype Datagram = Unparsable | OtherToken | Packet(chunk: Chunk)

  datatype Pending = Pending(
    indicator: int, observedAt: real, failed: bool, count: nat, chunks: map<nat, seq<byte>>, receivedAt: real,
    size: nat)

  type Pendings = map<int, Pending>

  datatype State = State(indicator: int, failed: bool, content: seq<byte>, observedAt: real, receivedAt: real,
                         sequence: int)

  datatype Outcome = Waiting | Refused | Assembled(state: State)

  // ----- feeding one datagram

  predicate ChunkIsLegal(c: Chunk) {
    && 0 <= c.indicator < MAX_INDICATORS
    && 1 <= c.count <= MAX_CHUNKS && 0 <= c.index < c.count
    && c.length == |c.payload|
  }

  function Joined(chunks: map<nat, seq<byte>>, n: nat): seq<byte> {
    if n == 0 then [] else Joined(chunks, n - 1) + if n - 1 in chunks then chunks[n - 1] else []
  }

  function WithoutStale(pending: Pendings, now: real): Pendings {
    map s | s in pending && now - pending[s].receivedAt <= MAX_AGE :: pending[s]
  }

  function Opened(c: Chunk, arrival: real): Pending
    requires ChunkIsLegal(c)
  {
    Pending(c.indicator, c.observedAt, c.failed, c.count, map[], arrival, 0)
  }

  function WithChunk(p: Pending, index: nat, payload: seq<byte>): Pending {
    if index in p.chunks then p else p.(chunks := p.chunks[index := payload], size := p.size + |payload|)
  }

  function FeedChunk(pending: Pendings, c: Chunk, arrival: real): (Pendings, Outcome)
    requires ChunkIsLegal(c)
  {
    var known := c.sequence in pending;
    if known && (pending[c.sequence].indicator != c.indicator || pending[c.sequence].count != c.count
                 || pending[c.sequence].failed != c.failed) then
      (pending - {c.sequence}, Refused)
    else
      var p := WithChunk(if known then pending[c.sequence] else Opened(c, arrival), c.index, c.payload);
      if p.size > MAX_ASSEMBLED_BYTES then (pending - {c.sequence}, Refused)
      else if |p.chunks| != p.count then (WithoutStale(pending[c.sequence := p], arrival), Waiting)
      else
        (pending - {c.sequence},
         Assembled(State(c.indicator, c.failed, Joined(p.chunks, p.count), c.observedAt, p.receivedAt, c.sequence)))
  }

  function Feed(pending: Pendings, d: Datagram, arrival: real): (Pendings, Outcome) {
    match d
    case Unparsable => (pending, Refused)
    case OtherToken => (pending, Waiting)
    case Packet(c) => if ChunkIsLegal(c) then FeedChunk(pending, c, arrival) else (pending, Refused)
  }

  // ----- what every state keeps

  /** The lengths of the chunks stored below `n`, added up. */
  function StoredSize(chunks: map<nat, seq<byte>>, n: nat): nat {
    if n == 0 then 0 else StoredSize(chunks, n - 1) + if n - 1 in chunks then |chunks[n - 1]| else 0
  }

  /** A pending packet's size is the sum of its chunks, it is within bounds and still lacks a chunk. */
  ghost predicate Sound(p: Pending) {
    && p.count <= MAX_CHUNKS && (forall i :: i in p.chunks ==> i < p.count)
    && p.size == StoredSize(p.chunks, p.count) && p.size <= MAX_ASSEMBLED_BYTES
    && |p.chunks| < p.count
  }

  ghost predicate AllSound(pending: Pendings) {
    forall s :: s in pending ==> Sound(pending[s])
  }

  lemma {:induction false} StoredSizeAdds(chunks: map<nat, seq<byte>>, index: nat, payload: seq<byte>, n: nat)
    requires index !in chunks
    ensures StoredSize(chunks[index := payload], n) == StoredSize(chunks, n) + if index < n then |payload| else 0
    decreases n
  {
    if n > 0 {
      StoredSizeAdds(chunks, index, payload, n - 1);
    }
  }

  lemma {:induction false} StoredNothing(n: nat)
    ensures StoredSize(map[], n) == 0
    decreases n
  {
    if n > 0 {
      StoredNothing(n - 1);
    }
  }

  lemma {:induction false} IndexSet(n: nat) returns (all: set<nat>)
    ensures |all| == n && forall i: nat :: i in all <==> i < n
    decreases n
  {
    if n == 0 {
      all := {};
    } else {
      var fewer := IndexSet(n - 1);
      all := fewer + {n - 1};
    }
  }

  lemma Subset(a: set<nat>, b: set<nat>)
    requires a <= b
    ensures |a| <= |b| && (|a| == |b| ==> a == b)
  {
    assert b == a + (b - a);
  }

  /** All of `n` chunks are there exactly when every index below `n` is. */
  lemma FullMeansEveryIndex(chunks: map<nat, seq<byte>>, n: nat)
    requires forall i :: i in chunks ==> i < n
    ensures |chunks| <= n
    ensures |chunks| == n <==> forall i :: 0 <= i < n ==> i in chunks
  {
    var all := IndexSet(n);
    Subset(chunks.Keys, all);
    assert |chunks| == |chunks.Keys|;
    if forall i :: 0 <= i < n ==> i in chunks {
      assert chunks.Keys == all;
    }
  }

  /** Whatever arrives, each pending packet's size equals the sum of its stored chunks' lengths. */
  lemma {:induction false} FeedKeepsSound(pending: Pendings, d: Datagram, arrival: real)
    requires AllSound(pending)
    ensures AllSound(Feed(pending, d, arrival).0)
  {
    if d.Packet? && ChunkIsLegal(d.chunk) {
      var c := d.chunk;
      var before := if c.sequence in pending then pending[c.sequence] else Opened(c, arrival);
      StoredNothing(c.count);
      if c.index !in before.chunks {
        StoredSizeAdds(before.chunks, c.index, c.payload, before.count);
      }
      if before.count == c.count {
        FullMeansEveryIndex(WithChunk(before, c.index, c.payload).chunks, c.count);
      }
      hide StoredSize;
    }
  }

  /** What a legal chunk is added to contradicts it, or would grow beyond the limit with it. */
  ghost predicate Contradicts(pending: Pendings, c: Chunk) {
    if c.sequence !in pending then |c.payload| > MAX_ASSEMBLED_BYTES
    else
      var p := pending[c.sequence];
      || (p.indicator, p.count, p.failed) != (c.indicator, c.count, c.failed)
      || (c.index !in p.chunks && StoredSize(p.chunks, p.count) + |c.payload| > MAX_ASSEMBLED_BYTES)
  }

  /** The packet of a chunk that is waited for, and what is left of the others. */
  ghost predicate GoesOn(pending: Pendings, c: Chunk, arrival: real, after: Pendings) {
    var since := if c.sequence in pending then pending[c.sequence].receivedAt else arrival;
    && (forall s :: s != c.sequence ==>
          && (s in after <==> s in pending && arrival - pending[s].receivedAt <= 5.0)
          && (s in after ==> after[s] == pending[s]))
    && (c.sequence in after <==> arrival - since <= 5.0)
    && (c.sequence in after ==>
          && after[c.sequence].receivedAt == since
          && after[c.sequence].chunks == if c.sequence !in pending then map[c.index := c.payload]
                                         else map[c.index := c.payload] + pending[c.sequence].chunks)
  }

  /**
    A chunk outside the bounds changes nothing. Any other is refused exactly when it contradicts its packet,
    which is then given up. Other packets never change, but while a chunk is waited for, those older than five
    seconds are dropped.
   */
  lemma {:induction false} FeedExactly(pending: Pendings, c: Chunk, arrival: real)
    requires AllSound(pending)
    ensures
      var (after, outcome) := Feed(pending, Packet(c), arrival);
      if !(0 <= c.indicator < 256 && 0 <= c.index < c.count <= 128 && c.length == |c.payload|) then
        outcome == Refused && after == pending
      else
        && (outcome == Refused <==> Contradicts(pending, c))
        && (outcome != Waiting ==> after == pending - {c.sequence})
        && (outcome == Waiting ==> GoesOn(pending, c, arrival, after))
  {
    if ChunkIsLegal(c) {
      RefusesExactly(pending, c, arrival);
      WaitsExactly(pending, c, arrival);
    }
    hide FeedChunk, Contradicts, GoesOn;
  }

  lemma RefusesExactly(pending: Pendings, c: Chunk, arrival: real)
    requires AllSound(pending) && ChunkIsLegal(c)
    ensures
      var (after, outcome) := FeedChunk(pending, c, arrival);
      (outcome == Refused <==> Contradicts(pending, c)) && (outcome != Waiting ==> after == pending - {c.sequence})
  {
    StoredNothing(c.count);
    hide StoredSize, Joined;
  }

  lemma WaitsExactly(pending: Pendings, c: Chunk, arrival: real)
    requires ChunkIsLegal(c)
    ensures
      var (after, outcome) := FeedChunk(pending, c, arrival);
      outcome == Waiting ==> GoesOn(pending, c, arrival, after)
  {
    hide Joined;
    var p := Extended(pending, c, arrival);
    assert p.chunks == if c.sequence !in pending then map[c.index := c.payload]
                       else map[c.index := c.payload] + pending[c.sequence].chunks;
  }

  // ----- a message and the run that carries it

  datatype Message = Message(sequence: int, indicator: int, failed: bool, parts: seq<seq<byte>>)

  datatype Arrival = Arrival(datagram: Datagram, at: real)

  predicate Carries(m: Message, a: Arrival) {
    a.datagram.Packet? && ChunkIsLegal(a.datagram.chunk) && a.datagram.chunk.sequence == m.sequence
  }

  /** The indices of the message that have arrived. */
  function Seen(m: Message, run: seq<Arrival>): (r: set<nat>)
    decreases |run|
  {
    if run == [] then {}
    else
      var last := run[|run| - 1];
      Seen(m, run[..|run| - 1]) + if Carries(m, last) then {last.datagram.chunk.index} else {}
  }

  function FirstAt(m: Message, run: seq<Arrival>): Option<real>
    decreases |run|
  {
    if run == [] then None
    else
      var earlier := FirstAt(m, run[..|run| - 1]);
      if earlier.None? && Carries(m, run[|run| - 1]) then Some(run[|run| - 1].at) else earlier
  }

  ghost predicate MessageIsLegal(m: Message) {
    && 0 <= m.indicator < MAX_INDICATORS && 1 <= |m.parts| <= MAX_CHUNKS
    && TotalSize(m.parts) <= MAX_ASSEMBLED_BYTES
  }

  function TotalSize(parts: seq<seq<byte>>): nat
    decreases |parts|
  {
    if parts == [] then 0 else TotalSize(parts[..|parts| - 1]) + |parts[|parts| - 1]|
  }

  function Concat(parts: seq<seq<byte>>): seq<byte>
    decreases |parts|
  {
    if parts == [] then [] else Concat(parts[..|parts| - 1]) + parts[|parts| - 1]
  }

  /** An arrival that is not a chunk of this message, or a true one. */
  predicate Honest(m: Message, a: Arrival) {
    Carries(m, a) ==>
      var c := a.datagram.chunk;
      c.indicator == m.indicator && c.failed == m.failed && c.count == |m.parts| && c.payload == m.parts[c.index]
  }

  /**
    Chunks of the message in any order, repeated and interleaved with anything else, all within five seconds of its
    first.
   */
  ghost predicate Timely(m: Message, run: seq<Arrival>)
    decreases |run|
  {
    run == [] ||
    (var front, last := run[..|run| - 1], run[|run| - 1];
     && Timely(m, front) && Honest(m, last)
     && (FirstAt(m, front).Some? ==> last.at - FirstAt(m, front).value <= MAX_AGE))
  }

  function After(run: seq<Arrival>): Pendings
    decreases |run|
  {
    if run == [] then map[] else Feed(After(run[..|run| - 1]), run[|run| - 1].datagram, run[|run| - 1].at).0
  }

  /** Nothing of the message is stored before its first chunk; from then on exactly the parts seen so far. */
  ghost predicate Collected(m: Message, pending: Pendings, seen: set<nat>, first: Option<real>) {
    if first.None? then seen == {} && m.sequence !in pending
    else
      && seen != {} && m.sequence in pending && Holds(m, pending[m.sequence], seen, first.value)
  }

  lemma {:induction false} StoredAtMost(parts: seq<seq<byte>>, chunks: map<nat, seq<byte>>, n: nat)
    requires n <= |parts| && forall i :: i in chunks && i < |parts| ==> chunks[i] == parts[i]
    ensures StoredSize(chunks, n) <= TotalSize(parts[..n])
    decreases n
  {
    if n > 0 {
      assert parts[..n][..n - 1] == parts[..n - 1];
      StoredAtMost(parts, chunks, n - 1);
    }
  }

  lemma {:induction false} JoinedIsConcat(parts: seq<seq<byte>>, chunks: map<nat, seq<byte>>, n: nat)
    requires n <= |parts| && forall i :: 0 <= i < n ==> i in chunks && chunks[i] == parts[i]
    ensures Joined(chunks, n) == Concat(parts[..n])
    decreases n
  {
    if n > 0 {
      assert parts[..n][..n - 1] == parts[..n - 1];
      JoinedIsConcat(parts, chunks, n - 1);
    }
  }

  /** The packet a chunk is added to, with it. */
  function Extended(pending: Pendings, c: Chunk, arrival: real): Pending
    requires ChunkIsLegal(c)
  {
    WithChunk(if c.sequence in pending then pending[c.sequence] else Opened(c, arrival), c.index, c.payload)
  }

  /** The packet holds exactly the parts seen. */
  ghost predicate Holds(m: Message, p: Pending, seen: set<nat>, first: real) {
    && (forall i :: i in seen ==> i < |m.parts|)
    && p.indicator == m.indicator && p.failed == m.failed && p.count == |m.parts| && p.receivedAt == first
    && p.chunks == (map i | i in seen :: m.parts[i])
    && p.size == StoredSize(p.chunks, p.count)
  }

  lemma {:induction false} ChunkIsAdded(m: Message, p: Pending, seen: set<nat>, first: real, index: nat)
    requires index < |m.parts| && Holds(m, p, seen, first)
    ensures Holds(m, WithChunk(p, index, m.parts[index]), seen + {index}, first)
  {
    if index !in p.chunks {
      StoredSizeAdds(p.chunks, index, m.parts[index], p.count);
    }
    assert WithChunk(p, index, m.parts[index]).chunks == map i | i in seen + {index} :: m.parts[i];
    hide StoredSize;
  }

  lemma {:induction false} OpenedHoldsNothing(m: Message, c: Chunk, at: real)
    requires ChunkIsLegal(c) && Carries(m, Arrival(Packet(c), at)) && Honest(m, Arrival(Packet(c), at))
    ensures Holds(m, Opened(c, at), {}, at)
  {
    StoredNothing(c.count);
    hide StoredSize;
  }

  /** A held packet is within the size limit, and full exactly when every part was seen. */
  lemma {:induction false} HeldPacket(m: Message, p: Pending, seen: set<nat>, first: real)
    requires MessageIsLegal(m) && Holds(m, p, seen, first)
    ensures p.size <= MAX_ASSEMBLED_BYTES
    ensures |p.chunks| == p.count <==> forall i :: 0 <= i < |m.parts| ==> i in seen
    ensures |p.chunks| == p.count ==> Joined(p.chunks, p.count) == Concat(m.parts)
  {
    assert forall i :: i in p.chunks <==> i in seen;
    FullMeansEveryIndex(p.chunks, |m.parts|);
    StoredAtMost(m.parts, p.chunks, |m.parts|);
    assert m.parts[..|m.parts|] == m.parts;
    if |p.chunks| == p.count {
      JoinedIsConcat(m.parts, p.chunks, |m.parts|);
    }
    hide StoredSize, Joined, Concat, TotalSize;
  }

  /** One true chunk of the message: assembled exactly when it is the last one missing. */
  lemma {:induction false} ChunkCollects(m: Message, pending: Pendings, seen: set<nat>, first: Option<real>, c: Chunk,
                                         at: real)
    requires MessageIsLegal(m) && Collected(m, pending, seen, first)
    requires ChunkIsLegal(c) && c.sequence == m.sequence && Honest(m, Arrival(Packet(c), at))
    requires first.Some? ==> at - first.value <= MAX_AGE
    ensures
      var (after, outcome) := FeedChunk(pending, c, at);
      var seen', first' := seen + {c.index}, if first.None? then Some(at) else first;
      if forall i :: 0 <= i < |m.parts| ==> i in seen' then
        outcome == Assembled(State(m.indicator, m.failed, Concat(m.parts), c.observedAt, first'.value, m.sequence))
      else outcome == Waiting && Collected(m, after, seen', first')
  {
    hide StoredSize, Joined, Concat, TotalSize;
    var start := if first.None? then at else first.value;
    OpenedHoldsNothing(m, c, at);
    var before := if c.sequence in pending then pending[c.sequence] else Opened(c, at);
    ChunkIsAdded(m, before, seen, start, c.index);
    HeldPacket(m, Extended(pending, c, at), seen + {c.index}, start);
    hide MessageIsLegal;
  }

  /** Anything that is not a chunk of the message leaves what was collected. */
  lemma {:induction false} OthersLeaveCollected(m: Message, pending: Pendings, seen: set<nat>, first: Option<real>,
                                                d: Datagram, at: real)
    requires Collected(m, pending, seen, first) && !Carries(m, Arrival(d, at))
    requires first.Some? ==> at - first.value <= MAX_AGE
    ensures Collected(m, Feed(pending, d, at).0, seen, first)
  {
    hide StoredSize, Joined;
  }

  /**
    Reassembly does not depend on order: however a message's chunks are permuted, repeated and interleaved,
    as long as some are missing nothing is assembled, and the state appears exactly with the last missing
    chunk and holds the parts in order.
   */
  lemma {:induction false} ReassemblyIsOrderIndependent(m: Message, run: seq<Arrival>, last: Arrival)
    requires MessageIsLegal(m) && Timely(m, run + [last]) && Carries(m, last)
    requires exists i :: 0 <= i < |m.parts| && i !in Seen(m, run)
    ensures
      var outcome := Feed(After(run), last.datagram, last.at).1;
      if forall i :: 0 <= i < |m.parts| ==> i in Seen(m, run + [last]) then
        && outcome.Assembled? && outcome.state.content == Concat(m.parts)
        && outcome.state.indicator == m.indicator && outcome.state.failed == m.failed
           && outcome.state.sequence == m.sequence
        && outcome.state.observedAt == last.datagram.chunk.observedAt
        && Some(outcome.state.receivedAt) == FirstAt(m, run + [last])
      else outcome == Waiting
  {
    assert (run + [last])[..|run|] == run;
    assert Timely(m, run) && Honest(m, last) && Honest(m, Arrival(Packet(last.datagram.chunk), last.at));
    assert FirstAt(m, run).Some? ==> last.at - FirstAt(m, run).value <= MAX_AGE;
    assert Seen(m, run + [last]) == Seen(m, run) + {last.datagram.chunk.index};
    assert FirstAt(m, run + [last]) == if FirstAt(m, run).None? then Some(last.at) else FirstAt(m, run);
    RunCollects(m, run);
    hide FeedChunk, Collected, After, MessageIsLegal, Timely, Honest, Seen, FirstAt, Concat;
    ChunkCollects(m, After(run), Seen(m, run), FirstAt(m, run), last.datagram.chunk, last.at);
  }

  lemma {:induction false} SeenGrows(m: Message, run: seq<Arrival>, i: nat)
    requires run != [] && i !in Seen(m, run)
    ensures i !in Seen(m, run[..|run| - 1])
  {
  }

  lemma {:induction false} RunCollects(m: Message, run: seq<Arrival>)
    requires MessageIsLegal(m) && Timely(m, run)
    requires exists i :: 0 <= i < |m.parts| && i !in Seen(m, run)
    ensures Collected(m, After(run), Seen(m, run), FirstAt(m, run))
    decreases |run|
  {
    if run != [] {
      var front, last := run[..|run| - 1], run[|run| - 1];
      var i :| 0 <= i < |m.parts| && i !in Seen(m, run);
      SeenGrows(m, run, i);
      RunCollects(m, front);
      if Carries(m, last) {
        ChunkCollects(m, After(front), Seen(m, front), FirstAt(m, front), last.datagram.chunk, last.at);
      } else {
        OthersLeaveCollected(m, After(front), Seen(m, front), FirstAt(m, front), last.datagram, last.at);
      }
      hide Collected, FeedChunk;
    }
  }

  // ----- the mutable object

  lemma NoMemberMeansEmpty(s: set<int>)
    ensures s == {} <==> forall x :: x !in s
  {
    if forall x :: x !in s {
      assert s == {};
    }
  }

  lemma SameEntries(a: Pendings, b: Pendings)
    ensures (forall s :: s in a <==> s in b) && (forall s :: s in a && s in b ==> a[s] == b[s]) ==> a == b
  {
    if (forall s :: s in a <==> s in b) && (forall s :: s in a && s in b ==> a[s] == b[s]) {
      assert a == b;
    }
  }

  class IndicationPacketAssembler {
    var pending: Pendings

    ghost predicate Valid()
      reads this
    {
      AllSound(pending)
    }

    constructor ()
      ensures Valid() && pending == map[]
    {
      pending := map[];
    }

    method FeedDatagram(d: Datagram, arrival: real) returns (outcome: Outcome)
      requires Valid()
      modifies this
      ensures Valid() && (pending, outcome) == Feed(old(pending), d, arrival)
    {
      FeedKeepsSound(pending, d, arrival);
      if d.Unparsable? {
        return Refused;
      }
      if d.OtherToken? {
        return Waiting;
      }
      var c := d.chunk;
      if !ChunkIsLegal(c) {
        return Refused;
      }
      outcome := TakeChunk(c, arrival);
    }

    method TakeChunk(c: Chunk, arrival: real) returns (outcome: Outcome)
      requires ChunkIsLegal(c)
      modifies this
      ensures (pending, outcome) == FeedChunk(old(pending), c, arrival)
    {
      var p;
      if c.sequence !in pending {
        p := Pending(c.indicator, c.observedAt, c.failed, c.count, map[], arrival, 0);
      } else {
        p := pending[c.sequence];
        if p.indicator != c.indicator || p.count != c.count || p.failed != c.failed {
          pending := pending - {c.sequence};
          return Refused;
        }
      }
      if c.index !in p.chunks {
        p := p.(chunks := p.chunks[c.index := c.payload], size := p.size + |c.payload|);
      }
      if p.size > MAX_ASSEMBLED_BYTES {
        pending := pending - {c.sequence};
        return Refused;
      }
      if |p.chunks| != p.count {
        pending := pending[c.sequence := p];
        DiscardStale(arrival);
        return Waiting;
      }
      var content := [];
      for i := 0 to p.count
        invariant content == Joined(p.chunks, i)
      {
        content := content + if i in p.chunks then p.chunks[i] else [];
      }
      pending := pending - {c.sequence};
      return Assembled(State(c.indicator, c.failed, content, c.observedAt, p.receivedAt, c.sequence));
    }

    method DiscardStale(now: real)
      modifies this
      ensures pending == WithoutStale(old(pending), now)
    {
      var rest := pending.Keys;
      while rest != {}
        invariant rest <= old(pending).Keys
        invariant forall s :: s in pending <==>
                  s in old(pending) && (s in rest || now - old(pending)[s].receivedAt <= MAX_AGE)
        invariant forall s :: s in pending ==> pending[s] == old(pending)[s]
        decreases |rest|
      {
        NoMemberMeansEmpty(rest);
        var s :| s in rest;
        if now - pending[s].receivedAt > MAX_AGE {
          pending := pending - {s};
        }
        rest := rest - {s};
      }
      NoMemberMeansEmpty(rest);
      SameEntries(pending, WithoutStale(old(pending), now));
    }
  }
}
