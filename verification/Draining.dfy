/**
  Progress of the pipeline: a flush that gets a message into the queue lowers the backlog, and repeated
  flushes of a quiet cockpit empty it, leaving the backend with the values the client reported.

  A round is one flush, after which the writer empties the queue and the backend receives everything on the
  wire. The backlog is what the source calls `pending_count`: opening messages and queued values together.
 */
module Draining {
  import opened Wrappers
  import opened InsertionDict
  import opened Wire
  import opened BiosProtocol
  import opened Ingress
  import opened RawStore
  import opened BiosRegistry
  import opened BiosClient
  import opened Connection
  import opened Publisher
  import opened Delivery
  import opened Mirror
  import opened Pipeline
  import opened PipelineSafety
  import opened PipelineRuns

  // ----- counting what is queued

  lemma {:induction false} TotalIgnoresOthers(keys: seq<Identity>, at: map<Identity, seq<DecodedValue>>,
                                              other: map<Identity, seq<DecodedValue>>)
    requires forall k :: k in keys ==> k in at && k in other && at[k] == other[k]
    ensures Total(keys, at) == Total(keys, other)
    decreases |keys|
  {
    if keys != [] {
      TotalIgnoresOthers(keys[..|keys| - 1], at, other);
    }
  }

  lemma {:induction false} TotalPut(keys: seq<Identity>, at: map<Identity, seq<DecodedValue>>, k: Identity,
                                    queue: seq<DecodedValue>)
    requires NoDuplicates(keys) && k in keys && forall x :: x in keys ==> x in at
    ensures Total(keys, at[k := queue]) == Total(keys, at) - |at[k]| + |queue|
    decreases |keys|
  {
    var front, last := keys[..|keys| - 1], keys[|keys| - 1];
    assert keys == front + [last];
    if last == k {
      TotalIgnoresOthers(front, at, at[k := queue]);
    } else {
      TotalPut(front, at, k, queue);
    }
  }

  lemma {:induction false} TotalWithout(keys: seq<Identity>, at: map<Identity, seq<DecodedValue>>, k: Identity)
    requires NoDuplicates(keys) && k in keys && forall x :: x in keys ==> x in at
    ensures Total(Without(keys, k), at - {k}) == Total(keys, at) - |at[k]|
    decreases |keys|
  {
    var front, last := keys[..|keys| - 1], keys[|keys| - 1];
    assert keys == front + [last];
    if last == k {
      WithoutAbsent(front, k);
      TotalIgnoresOthers(front, at, at - {k});
    } else {
      TotalWithout(front, at, k);
      var rest := Without(front, k);
      assert Without(keys, k) == rest + [last] && (rest + [last])[..|rest|] == rest;
    }
  }

  lemma {:induction false} WithoutAbsent<T(!new)>(s: seq<T>, k: T)
    requires k !in s
    ensures Without(s, k) == s
    decreases |s|
  {
    if s != [] {
      WithoutAbsent(s[..|s| - 1], k);
      assert s == s[..|s| - 1] + [s[|s| - 1]];
    }
  }

  lemma {:induction false} PopHeadTotal(d: Dict<Identity, seq<DecodedValue>>, id: Identity)
    requires d.Valid() && id in d.at && d.at[id] != []
    ensures PopHead(d, id).Valid()
    ensures Total(PopHead(d, id).keys, PopHead(d, id).at) == Total(d.keys, d.at) - 1
  {
    RemoveKeepsValid(d, id);
    PutKeepsValid(d, id, d.at[id][1..]);
    if |d.at[id]| <= 1 {
      TotalWithout(d.keys, d.at, id);
    } else {
      TotalPut(d.keys, d.at, id, d.at[id][1..]);
    }
  }

  lemma {:induction false} PopHeadsTotal(d: Dict<Identity, seq<DecodedValue>>, ids: seq<Identity>)
    requires d.Valid() && NoDuplicates(ids)
    requires forall k :: k in ids ==> k in d.at && d.at[k] != []
    ensures PopHeads(d, ids).Valid()
    ensures Total(PopHeads(d, ids).keys, PopHeads(d, ids).at) == Total(d.keys, d.at) - |ids|
    decreases |ids|
  {
    if ids != [] {
      NoDuplicatesTail(ids);
      PopHeadTotal(d, ids[0]);
      PopHeadsTotal(PopHead(d, ids[0]), ids[1..]);
    }
  }

  lemma {:induction false} SelectedFindsOne(keys: seq<Identity>, at: map<Identity, seq<DecodedValue>>, room: nat)
    requires room > 0 && forall k :: k in keys ==> k in at && at[k] != []
    ensures Selected(keys, at, room) == [] <==> keys == []
  {
  }

  lemma {:induction false} TotalIsZero(keys: seq<Identity>, at: map<Identity, seq<DecodedValue>>)
    requires forall k :: k in keys ==> k in at && at[k] != []
    ensures Total(keys, at) == 0 <==> keys == []
  {
  }

  lemma {:induction false} SendInitialCounts(initial: seq<Message>, link: Link)
    ensures
      var (rest, after) := SendInitial(initial, link);
      && |rest| + |after.outbound| == |initial| + |link.outbound|
      && (rest != [] <==> initial != [] && !(link.ready && |link.outbound| + |initial| <= link.limit))
      && (initial != [] ==> (|rest| < |initial| <==> link.ready && |link.outbound| < link.limit))
    decreases |initial|
  {
    if initial != [] {
      var (next, queued) := Send(link, TelemetryFrame(initial[0]));
      if queued {
        SendInitialCounts(initial[1..], next);
      }
    }
  }

  // ----- one flush

  /** One delta takes the head of each chosen queue, and is sent whenever it can be. */
  lemma {:induction false} DeltaCounts(p: Publisher.State, link: Link)
    requires p.pending.Valid() && p.epoch.Some? && p.initial == []
    requires forall k :: k in p.pending.keys ==> k in p.pending.at && p.pending.at[k] != []
    ensures
      var (after, link') := FlushPending(p, link);
      && after == p.(pending := after.pending, nextSequence := after.nextSequence)
      && link' == link.(outbound := link'.outbound)
      && |link'.outbound| >= |link.outbound|
      && PendingCount(after) + (|link'.outbound| - |link.outbound|) <= PendingCount(p)
      && after.nextSequence + PendingCount(after) <= p.nextSequence + PendingCount(p)
      && (PendingCount(after) < PendingCount(p) <==>
            PendingCount(p) > 0 && link.ready && |link.outbound| < link.limit && p.nextSequence <= MAX_SEQUENCE)
  {
    var ids := Selected(p.pending.keys, p.pending.at, MAX_VALUES);
    SelectedAreQueued(p.pending.keys, p.pending.at, MAX_VALUES);
    SelectedFindsOne(p.pending.keys, p.pending.at, MAX_VALUES);
    TotalIsZero(p.pending.keys, p.pending.at);
    PopHeadsTotal(p.pending, ids);
  }

  /** A flush of a backlog lowers it by at least the number of messages it queues, and queues one whenever it can. */
  lemma {:induction false} FlushLowersBacklog(env: Env, sys: System, now: real)
    requires Inv(env, sys) && sys.publisher.epoch.Some? && !RefreshDue(sys.publisher, now)
    ensures
      var after := FlushNow(env, sys, now);
      && after == sys.(publisher := after.publisher, link := sys.link.(outbound := after.link.outbound))
      && after.publisher == sys.publisher.(initial := after.publisher.initial, pending := after.publisher.pending,
                                           nextSequence := after.publisher.nextSequence)
      && PendingCount(after.publisher) + (|after.link.outbound| - |sys.link.outbound|) <= PendingCount(sys.publisher)
      && |after.link.outbound| >= |sys.link.outbound|
      && after.publisher.nextSequence + PendingCount(after.publisher) <= sys.publisher.nextSequence
         + PendingCount(sys.publisher)
      && (PendingCount(after.publisher) < PendingCount(sys.publisher) <==>
            && PendingCount(sys.publisher) > 0 && sys.link.ready && |sys.link.outbound| < sys.link.limit
            && (sys.publisher.initial != [] || sys.publisher.nextSequence <= MAX_SEQUENCE))
  {
    InvIsWellFormed(env, sys);
    InvLive(env, sys);
    LiveQueues(env, sys);
    hide Inv;
    FlushIsStaged(env, sys, now);
    SendInitialCounts(sys.publisher.initial, sys.link);
    SendInitialMoves(sys.publisher.initial, sys.link);
    var sent := InitialSent(sys);
    if sent.publisher.initial == [] {
      DeltaCounts(sent.publisher, sent.link);
      assert FlushNow(env, sys, now) == PendingSent(sent);
    }
    hide FlushNow, Refreshed, FlushPending, Total;
  }

  lemma LiveQueues(env: Env, sys: System)
    requires Inv(env, sys) && sys.publisher.epoch.Some?
    ensures forall k :: k in sys.publisher.pending.keys ==>
            k in sys.publisher.pending.at && sys.publisher.pending.at[k] != []
  {
    hide Deliver, Good, ReadyFor, SoundMetadata;
    forall k | k in sys.publisher.pending.keys ensures sys.publisher.pending.at[k] != [] {
      assert QueueIsSound(sys.publisher.pending.at[k], k, sys.publisher.catalog);
    }
  }

  // ----- a round: flush, let the writer empty the queue, let the backend receive everything

  function WriteAll(sys: System): System
    decreases |sys.link.outbound|
  {
    if sys.link.outbound == [] then sys else WriteAll(WriterTurn(sys))
  }

  lemma {:induction false} WriteAllMoves(sys: System)
    ensures WriteAll(sys) == sys.(link := sys.link.(outbound := []), wire := WriteAll(sys).wire)
    decreases |sys.link.outbound|
  {
    if sys.link.outbound != [] {
      WriteAllMoves(WriterTurn(sys));
    }
  }

  lemma {:induction false} WriteAllKeepsInv(env: Env, sys: System)
    requires Inv(env, sys)
    ensures Inv(env, WriteAll(sys))
    decreases |sys.link.outbound|
  {
    hide Inv;
    WriterTurnKeepsInv(env, sys);
    if sys.link.outbound != [] {
      WriteAllKeepsInv(env, WriterTurn(sys));
    }
  }

  ghost function ReceiveAll(env: Env, sys: System, now: real): System
    requires env.capacity > 0 && Good(BackendOf(sys))
    decreases |sys.wire|
  {
    if sys.wire == [] then sys
    else
      AcceptKeepsStream(sys.ingress, sys.log, sys.wire[0]);
      ReceiveAll(env, BackendReceives(env, sys, now), now)
  }

  lemma {:induction false} ReceiveAllMoves(env: Env, sys: System, now: real)
    requires env.capacity > 0 && Good(BackendOf(sys))
    ensures
      var after := ReceiveAll(env, sys, now);
      after == sys.(wire := [], ingress := after.ingress, log := after.log, raw := after.raw) && Good(BackendOf(after))
    decreases |sys.wire|
  {
    if sys.wire != [] {
      AcceptKeepsStream(sys.ingress, sys.log, sys.wire[0]);
      ReceiveAllMoves(env, BackendReceives(env, sys, now), now);
      hide Accept, ApplyBatch, Stream;
    }
  }

  lemma {:induction false} ReceiveAllKeepsInv(env: Env, sys: System, now: real)
    requires Inv(env, sys)
    ensures Sane(env, sys) && Inv(env, ReceiveAll(env, sys, now))
    decreases |sys.wire|
  {
    hide Inv, BackendReceives, Good, WellFormed, ValidParser;
    InvIsWellFormed(env, sys);
    if sys.wire != [] {
      ReceiveKeepsInv(env, sys, now);
      ReceiveDelivers(env, sys, now);
      ReceiveAllKeepsInv(env, BackendReceives(env, sys, now), now);
    }
  }

  ghost function Round(env: Env, sys: System, now: real): (after: System)
    requires Sane(env, sys)
    ensures Sane(env, after)
  {
    hide WellFormed, ValidParser, Stream, NoDuplicates, FlushNow;
    var flushed := FlushNow(env, sys, now);
    FlushKeepsSane(env, sys, now);
    WriteAllMoves(flushed);
    ReceiveAllMoves(env, WriteAll(flushed), now);
    ReceiveAll(env, WriteAll(flushed), now)
  }

  ghost function Rounds(env: Env, sys: System, now: real, n: nat): (after: System)
    requires Sane(env, sys)
    ensures Sane(env, after)
    decreases n
  {
    hide Sane;
    if n == 0 then sys else Rounds(env, Round(env, sys, now), now, n - 1)
  }

  lemma {:induction false} RoundKeepsInv(env: Env, sys: System, now: real)
    requires Inv(env, sys)
    ensures Sane(env, sys) && Inv(env, Round(env, sys, now))
  {
    hide Inv, FlushNow, Sane;
    InvIsWellFormed(env, sys);
    FlushNowKeepsInv(env, sys, now);
    WriteAllKeepsInv(env, FlushNow(env, sys, now));
    ReceiveAllKeepsInv(env, WriteAll(FlushNow(env, sys, now)), now);
  }

  /** A live epoch with a ready connection, no refresh due and sequence numbers left for the whole backlog. */
  ghost predicate Drainable(sys: System, now: real) {
    && sys.publisher.epoch.Some? && !RefreshDue(sys.publisher, now)
    && sys.link.ready && sys.link.limit > 0
    && sys.publisher.nextSequence + PendingCount(sys.publisher) <= MAX_SEQUENCE + 1
  }

  /**
    A round leaves queue and wire empty; it never raises the backlog, and lowers it when the queue was empty
    before.
   */
  lemma {:induction false} RoundLowersBacklog(env: Env, sys: System, now: real)
    requires Inv(env, sys) && Sane(env, sys) && Drainable(sys, now)
    ensures
      var after := Round(env, sys, now);
      && Drainable(after, now)
      && after.client == sys.client && after.publisher.epoch == sys.publisher.epoch
      && after.link.outbound == [] && after.wire == []
      && PendingCount(after.publisher) <= PendingCount(sys.publisher)
      && (sys.link.outbound == [] && PendingCount(sys.publisher) > 0 ==>
          PendingCount(after.publisher) < PendingCount(sys.publisher))
  {
    hide Inv, FlushNow, Sane, WriteAll, ReceiveAll, PendingCount;
    InvIsWellFormed(env, sys);
    FlushLowersBacklog(env, sys, now);
    WriteAllMoves(FlushNow(env, sys, now));
    FlushedIsSane(env, sys, now);
    ReceiveAllMoves(env, WriteAll(FlushNow(env, sys, now)), now);
  }

  lemma FlushedIsSane(env: Env, sys: System, now: real)
    requires Sane(env, sys)
    ensures env.capacity > 0 && Good(BackendOf(WriteAll(FlushNow(env, sys, now))))
  {
    hide FlushNow, Stream, WellFormed, ValidParser, NoDuplicates, WriteAll;
    FlushKeepsSane(env, sys, now);
    WriteAllMoves(FlushNow(env, sys, now));
  }

  lemma {:induction false} EmptyMeansQuiet(env: Env, sys: System)
    requires Inv(env, sys) && sys.publisher.epoch.Some?
    requires PendingCount(sys.publisher) == 0 && sys.link.outbound == [] && sys.wire == []
    ensures SidesEqual(env, sys)
  {
    InvIsWellFormed(env, sys);
    LiveQueues(env, sys);
    hide Inv;
    TotalIsZero(sys.publisher.pending.keys, sys.publisher.pending.at);
    assert sys.publisher.pending.at == map[];
    QuietMeansEqual(env, sys);
  }

  /** Nothing is queued, under way or to be sent, and the backend's store equals the client's reported values. */
  ghost predicate Drained(env: Env, sys: System) {
    PendingCount(sys.publisher) == 0 && sys.link.outbound == [] && sys.wire == [] && SidesEqual(env, sys)
  }

  lemma {:induction false} EmptyQueueDrains(env: Env, sys: System, now: real, n: nat)
    requires Inv(env, sys) && Sane(env, sys) && Drainable(sys, now)
    requires sys.link.outbound == [] && sys.wire == [] && PendingCount(sys.publisher) <= n
    ensures
      var after := Rounds(env, sys, now, n);
      Drained(env, after) && after.client == sys.client && after.publisher.epoch == sys.publisher.epoch
    decreases n
  {
    hide Inv, Sane, Round, PendingCount, SidesEqual;
    if n == 0 {
      EmptyMeansQuiet(env, sys);
    } else {
      RoundLowersBacklog(env, sys, now);
      RoundKeepsInv(env, sys, now);
      EmptyQueueDrains(env, Round(env, sys, now), now, n - 1);
    }
  }
}
