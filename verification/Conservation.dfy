/** What becomes of every value given to the publisher's queues: sent, still queued, coalesced or dropped. */
module Conservation {
  import opened InsertionDict
  import opened Wire
  import opened Connection
  import opened Publisher
  import opened Coalescing
  import opened Draining

  ghost predicate Filled(p: State) {
    p.pending.Valid() && forall k :: k in p.pending.at ==> p.pending.at[k] != []
  }

  function Queued(p: State): nat {
    Total(p.pending.keys, p.pending.at)
  }

  /** A run of observations and flushes from any state, also where there is no room for every control. */
  ghost function RunFrom(cfg: Config, start: State, actions: seq<Action>): (t: Trace)
    requires Filled(start)
    ensures Filled(t.publisher)
    decreases |actions|
  {
    if actions == [] then Trace(start, [], [])
    else
      var t := RunFrom(cfg, start, actions[..|actions| - 1]);
      PerformConserves(cfg, t, actions[|actions| - 1]);
      Coalescing.Perform(cfg, t, actions[|actions| - 1])
  }

  /** The value is for a control that is not queued, and as many as may be are. */
  ghost predicate NoRoom(cfg: Config, p: State, a: Action) {
    a.Observe? && a.value.identity !in p.pending.at && |p.pending.keys| >= cfg.maxPendingControls
  }

  /** What one action conserves. */
  lemma {:induction false} PerformConserves(cfg: Config, t: Trace, a: Action)
    requires Filled(t.publisher)
    ensures
      var after := Coalescing.Perform(cfg, t, a);
      var p, q := t.publisher, after.publisher;
      && Filled(q)
      && |after.observed| - |t.observed| ==
         (|after.sent| - |t.sent|) + (Queued(q) - Queued(p)) + (q.coalescedValues - p.coalescedValues)
         + (q.droppedControls - p.droppedControls)
      && q.droppedControls == p.droppedControls + (if NoRoom(cfg, p, a) then 1 else 0)
      && q.coalescedValues >= p.coalescedValues
  {
    match a
    case Observe(v) => ObserveConserves(cfg, t.publisher, v);
    case FlushTo(link) => FlushConserves(cfg, t, link);
  }

  lemma {:induction false} ObserveConserves(cfg: Config, p: State, v: DecodedValue)
    requires Filled(p)
    ensures
      var q := QueueValue(cfg, p, v);
      && Filled(q)
      && Queued(q) - Queued(p) + (q.coalescedValues - p.coalescedValues) + (q.droppedControls - p.droppedControls) == 1
      && q.droppedControls == p.droppedControls + (if NoRoom(cfg, p, Observe(v)) then 1 else 0)
      && q.coalescedValues >= p.coalescedValues
  {
    hide NoDuplicates, Total, IsSwitch;
    if !NoRoom(cfg, p, Observe(v)) {
      var id := v.identity;
      var queue := Coalesce(QueueOf(p, id), v, IsSwitch(p.catalog, id), cfg.maxSwitchTransitions).0;
      PutKeepsValid(p.pending, id, queue);
      if id in p.pending.at {
        TotalPut(p.pending.keys, p.pending.at, id, queue);
      } else {
        TotalNew(p.pending, id, queue);
      }
    }
  }

  lemma {:induction false} TotalNew(d: Dict<Identity, seq<DecodedValue>>, id: Identity, queue: seq<DecodedValue>)
    requires d.Valid() && id !in d.at
    ensures Total(d.Put(id, queue).keys, d.Put(id, queue).at) == Total(d.keys, d.at) + |queue|
  {
    hide NoDuplicates;
    assert (d.keys + [id])[..|d.keys|] == d.keys;
    TotalIgnoresOthers(d.keys, d.at, d.at[id := queue]);
  }

  lemma {:induction false} FlushConserves(cfg: Config, t: Trace, link: Link)
    requires Filled(t.publisher)
    ensures
      var after := Coalescing.Perform(cfg, t, FlushTo(link));
      var p, q := t.publisher, after.publisher;
      && Filled(q) && after.observed == t.observed
      && (|after.sent| - |t.sent|) + (Queued(q) - Queued(p)) == 0
      && q.coalescedValues == p.coalescedValues && q.droppedControls == p.droppedControls
  {
    hide NoDuplicates, Total, Selected, PopHeads, Send;
    var p := t.publisher;
    var ids := Selected(p.pending.keys, p.pending.at, MAX_VALUES);
    SelectedAreQueued(p.pending.keys, p.pending.at, MAX_VALUES);
    PopHeadsTotal(p.pending, ids);
    PopHeadsFilled(p.pending, ids);
  }

  lemma {:induction false} PopHeadsFilled(d: Dict<Identity, seq<DecodedValue>>, ids: seq<Identity>)
    requires d.Valid() && forall k :: k in d.at ==> d.at[k] != []
    ensures forall k :: k in PopHeads(d, ids).at ==> PopHeads(d, ids).at[k] != []
    decreases |ids|
  {
    if ids != [] {
      var next := PopHead(d, ids[0]);
      RemoveKeepsValid(d, ids[0]);
      if ids[0] in d.at {
        PutKeepsValid(d, ids[0], d.at[ids[0]][1..]);
      }
      hide NoDuplicates;
      PopHeadsFilled(next, ids[1..]);
    }
  }

  /** How many values were dropped: those of a control not queued while as many as may be were. */
  ghost function Refusals(cfg: Config, start: State, actions: seq<Action>): nat
    requires Filled(start)
    decreases |actions|
  {
    if actions == [] then 0
    else
      var front, last := actions[..|actions| - 1], actions[|actions| - 1];
      Refusals(cfg, start, front) + (if NoRoom(cfg, RunFrom(cfg, start, front).publisher, last) then 1 else 0)
  }

  /**
    Conservation, for any run: every value observed was sent, or is queued, or was coalesced or dropped and
    counted as such; and exactly those were dropped that found no room.
   */
  lemma {:induction false} EveryValueIsCounted(cfg: Config, start: State, actions: seq<Action>)
    requires Filled(start)
    ensures
      var t := RunFrom(cfg, start, actions);
      && Queued(start) + |t.observed| ==
         |t.sent| + Queued(t.publisher) + (t.publisher.coalescedValues - start.coalescedValues)
         + (t.publisher.droppedControls - start.droppedControls)
      && t.publisher.coalescedValues >= start.coalescedValues
      && t.publisher.droppedControls == start.droppedControls + Refusals(cfg, start, actions)
    decreases |actions|
  {
    hide Coalescing.Perform, NoRoom, Filled, Total;
    if actions != [] {
      var front := actions[..|actions| - 1];
      EveryValueIsCounted(cfg, start, front);
      PerformConserves(cfg, RunFrom(cfg, start, front), actions[|actions| - 1]);
    }
  }

  // ----- which values a delta carries

  lemma {:induction false} SelectedIsPrefix(keys: seq<Identity>, at: map<Identity, seq<DecodedValue>>, room: nat)
    requires forall k :: k in keys ==> k in at && at[k] != []
    ensures Selected(keys, at, room) == keys[..if |keys| < room then |keys| else room]
    decreases |keys|
  {
    if keys != [] && room > 0 {
      SelectedIsPrefix(keys[1..], at, room - 1);
    }
  }

  /**
    A delta carries the oldest queued value of each of the first 1024 controls, in the order in which they
    were queued; there is none only when nothing is queued or the numbers are used up.
   */
  lemma {:induction false} DeltaIsOldestFirst(p: State)
    requires Filled(p) && p.epoch.Some?
    ensures
      var keys := p.pending.keys;
      match NextDelta(p)
      case None => keys == [] || p.nextSequence >= 0x20_0000_0000_0000
      case Some((ids, delta)) =>
        && keys != [] && p.nextSequence < 0x20_0000_0000_0000
        && ids == keys[..if |keys| < 1024 then |keys| else 1024]
        && delta.Delta? && delta.header.epoch == p.epoch.value && delta.header.sequence == p.nextSequence
        && |delta.values| == |ids|
        && forall i :: 0 <= i < |ids| ==> [delta.values[i]] + p.pending.at[ids[i]][1..] == p.pending.at[ids[i]]
  {
    hide NoDuplicates, Selected;
    SelectedIsPrefix(p.pending.keys, p.pending.at, MAX_VALUES);
  }
}
