/**
  The client's bounded outbound queue (client/dcs_copilot/network/connection.py). Handshake, sockets
  and the writer task's scheduling are not part of this model: the writer is the step `TakeNext`.
 */
module Connection {
  import opened Wrappers
  import opened Wire

  const CONTROL_RESERVE := 16

  datatype Frame = TelemetryFrame(message: Message) | CoachFrame | AudioFrame | ControlFrame

  predicate IsStream(f: Frame) {
    !f.ControlFrame?
  }

  datatype Link = Link(ready: bool, limit: nat, outbound: seq<Frame>, droppedAudio: nat)

  // ----- the queue operations as functions

  function Refused(l: Link, f: Frame): Link {
    if f.AudioFrame? then l.(droppedAudio := l.droppedAudio + 1) else l
  }

  function Enqueue(l: Link, f: Frame): (Link, bool) {
    if IsStream(f) && |l.outbound| >= l.limit then (Refused(l, f), false)
    else if |l.outbound| >= l.limit + CONTROL_RESERVE then (l, false)
    else (l.(outbound := l.outbound + [f]), true)
  }

  function Send(l: Link, f: Frame): (Link, bool) {
    if !l.ready then (l, false) else Enqueue(l, f)
  }

  function TakeNext(l: Link): (Link, Option<Frame>) {
    if l.outbound == [] then (l, None) else (l.(outbound := l.outbound[1..]), Some(l.outbound[0]))
  }

  function Disconnected(l: Link): Link {
    l.(ready := false, outbound := [])
  }

  // ----- the bound

  function StreamFrames(frames: seq<Frame>): (n: nat)
    ensures n <= |frames|
  {
    if frames == [] then 0 else (if IsStream(frames[|frames| - 1]) then 1 else 0) + StreamFrames(frames[..|frames| - 1])
  }

  ghost predicate Bounded(l: Link) {
    StreamFrames(l.outbound) <= l.limit && |l.outbound| <= l.limit + CONTROL_RESERVE
  }

  lemma {:induction false} StreamFramesTail(frames: seq<Frame>)
    requires frames != []
    ensures StreamFrames(frames) == (if IsStream(frames[0]) then 1 else 0) + StreamFrames(frames[1..])
    decreases |frames|
  {
    var front := frames[..|frames| - 1];
    if front == [] {
      assert frames[1..] == [];
    } else {
      StreamFramesTail(front);
      assert front[1..] == frames[1..][..|frames| - 2];
    }
  }

  /** Every queue operation keeps at most `limit` stream frames waiting. */
  lemma OperationsKeepBound(l: Link, f: Frame)
    requires Bounded(l)
    ensures Bounded(Send(l, f).0) && Bounded(TakeNext(l).0) && Bounded(Disconnected(l))
  {
    assert (l.outbound + [f])[..|l.outbound|] == l.outbound;
    if l.outbound != [] {
      StreamFramesTail(l.outbound);
    }
  }

  /** A ready queue refuses a control frame only while sixteen control frames already wait. */
  lemma ControlRefusal(l: Link)
    requires Bounded(l) && l.ready
    ensures !Send(l, ControlFrame).1 ==> |l.outbound| - StreamFrames(l.outbound) >= CONTROL_RESERVE
    ensures Send(l, ControlFrame).1 <==> |l.outbound| < l.limit + CONTROL_RESERVE
  {
  }

  /** A run of queue operations. */
  datatype Operation = SendFrame(frame: Frame) | Take | Drop | Connect

  function Perform(l: Link, op: Operation): Link {
    match op
    case SendFrame(f) => Send(l, f).0
    case Take => TakeNext(l).0
    case Drop => Disconnected(l)
    case Connect => l.(ready := true)
  }

  function PerformAll(l: Link, ops: seq<Operation>): Link
    decreases |ops|
  {
    if ops == [] then l else PerformAll(Perform(l, ops[0]), ops[1..])
  }

  /** A stream frame is queued exactly while fewer than `limit` frames wait. */
  lemma StreamRefusal(l: Link, f: Frame)
    requires IsStream(f)
    ensures Send(l, f).1 <==> l.ready && |l.outbound| < l.limit
    ensures Send(l, f).0 == if Send(l, f).1 then l.(outbound := l.outbound + [f])
                            else if l.ready && f == AudioFrame then l.(droppedAudio := l.droppedAudio + 1)
                            else l
  {
  }

  function QueuedBy(l: Link, op: Operation): seq<Frame> {
    if op.SendFrame? && Send(l, op.frame).1 then [op.frame] else []
  }

  function TakenBy(l: Link, op: Operation): seq<Frame> {
    if op.Take? && TakeNext(l).1.Some? then [TakeNext(l).1.value] else []
  }

  /** The frames queued in a run, in order. */
  function QueuedIn(l: Link, ops: seq<Operation>): seq<Frame>
    decreases |ops|
  {
    if ops == [] then [] else QueuedBy(l, ops[0]) + QueuedIn(Perform(l, ops[0]), ops[1..])
  }

  /** The frames the writer took in a run, in order. */
  function TakenIn(l: Link, ops: seq<Operation>): seq<Frame>
    decreases |ops|
  {
    if ops == [] then [] else TakenBy(l, ops[0]) + TakenIn(Perform(l, ops[0]), ops[1..])
  }

  function AudioRefusedIn(l: Link, ops: seq<Operation>): nat
    decreases |ops|
  {
    if ops == [] then 0
    else
      (if ops[0] == SendFrame(AudioFrame) && l.ready && |l.outbound| >= l.limit then 1 else 0)
      + AudioRefusedIn(Perform(l, ops[0]), ops[1..])
  }

  /** While the connection lasts the writer takes exactly the frames that were queued, in their order. */
  lemma {:induction false} FramesLeaveInOrder(l: Link, ops: seq<Operation>)
    requires Drop !in ops
    ensures l.outbound + QueuedIn(l, ops) == TakenIn(l, ops) + PerformAll(l, ops).outbound
    decreases |ops|
  {
    if ops != [] {
      hide Perform, QueuedBy, TakenBy;
      var next := Perform(l, ops[0]);
      OneLeavesInOrder(l, ops[0]);
      FramesLeaveInOrder(next, ops[1..]);
      TwoParts(l.outbound, QueuedBy(l, ops[0]), TakenBy(l, ops[0]), next.outbound, QueuedIn(next, ops[1..]),
               TakenIn(next, ops[1..]), PerformAll(next, ops[1..]).outbound);
    }
  }

  lemma TwoParts(start: seq<Frame>, queued: seq<Frame>, taken: seq<Frame>, middle: seq<Frame>, moreQueued: seq<Frame>,
                 moreTaken: seq<Frame>, end: seq<Frame>)
    requires start + queued == taken + middle && middle + moreQueued == moreTaken + end
    ensures start + (queued + moreQueued) == (taken + moreTaken) + end
  {
    calc {
      start + (queued + moreQueued);
      (start + queued) + moreQueued;
      (taken + middle) + moreQueued;
      taken + (middle + moreQueued);
      taken + (moreTaken + end);
      (taken + moreTaken) + end;
    }
  }

  /** Refused audio is counted, in any run. */
  lemma {:induction false} RefusedAudioIsCounted(l: Link, ops: seq<Operation>)
    ensures PerformAll(l, ops).droppedAudio == l.droppedAudio + AudioRefusedIn(l, ops)
    decreases |ops|
  {
    if ops != [] {
      RefusedAudioIsCounted(Perform(l, ops[0]), ops[1..]);
    }
  }

  lemma OneLeavesInOrder(l: Link, op: Operation)
    requires op != Drop
    ensures l.outbound + QueuedBy(l, op) == TakenBy(l, op) + Perform(l, op).outbound
  {
  }

  lemma {:induction false} RunKeepsBound(l: Link, ops: seq<Operation>)
    requires Bounded(l)
    ensures Bounded(PerformAll(l, ops)) && PerformAll(l, ops).limit == l.limit
    decreases |ops|
  {
    if ops != [] {
      OperationsKeepBound(l, if ops[0].SendFrame? then ops[0].frame else ControlFrame);
      RunKeepsBound(Perform(l, ops[0]), ops[1..]);
    }
  }

  // ----- the mutable object

  class CloudSessionConnection {
    var ready: bool
    const audioQueueLimit: nat
    var outbound: seq<Frame>
    var droppedAudioChunks: nat

    function View(): Link
      reads this
    {
      Link(ready, audioQueueLimit, outbound, droppedAudioChunks)
    }

    constructor (queueSize: nat)
      ensures View() == Link(false, queueSize, [], 0) && Bounded(View())
    {
      ready, audioQueueLimit, outbound, droppedAudioChunks := false, queueSize, [], 0;
    }

    method EnqueueFrame(f: Frame) returns (queued: bool)
      requires Bounded(View())
      modifies this
      ensures (View(), queued) == Enqueue(old(View()), f) && Bounded(View())
    {
      OperationsKeepBound(View().(ready := true), f);
      if IsStream(f) && |outbound| >= audioQueueLimit {
        if f.AudioFrame? {
          droppedAudioChunks := droppedAudioChunks + 1;
        }
        return false;
      }
      if |outbound| >= audioQueueLimit + CONTROL_RESERVE {
        return false;
      }
      outbound := outbound + [f];
      return true;
    }

    method SendMessage(f: Frame) returns (queued: bool)
      requires Bounded(View())
      modifies this
      ensures (View(), queued) == Send(old(View()), f) && Bounded(View())
    {
      if !ready {
        return false;
      }
      queued := EnqueueFrame(f);
    }

    /** One turn of the writer: the oldest frame leaves. */
    method Write() returns (f: Option<Frame>)
      requires Bounded(View())
      modifies this
      ensures (View(), f) == TakeNext(old(View())) && Bounded(View())
    {
      OperationsKeepBound(View(), ControlFrame);
      if outbound == [] {
        return None;
      }
      f := Some(outbound[0]);
      outbound := outbound[1..];
    }

    method SetDisconnected()
      modifies this
      ensures View() == Disconnected(old(View())) && Bounded(View())
    {
      ready := false;
      while outbound != []
        invariant View() == old(View()).(ready := false, outbound := outbound)
        decreases |outbound|
      {
        outbound := outbound[1..];
      }
    }
  }
}
