/**
  What coalescing loses: the values sent for one control, followed by those still queued, against the
  values observed for it, over any run of observations and flushes.
 */
module Coalescing {
  import opened Wrappers
  import opened InsertionDict
  import opened Wire
  import Ingress
  import opened Connection
  import opened Publisher
  import opened Mirror

  /** Observe is a reported or refreshed value; FlushTo is a flush of the queues into some outbound queue. */
  datatype Action = Observe(value: DecodedValue) | FlushTo(link: Link)

  datatype Trace = Trace(publisher: State, observed: seq<DecodedValue>, sent: seq<DecodedValue>)

  ghost predicate Keyed(queues: Queues) {
    forall k :: k in queues ==> queues[k] != [] && forall v :: v in queues[k] ==> v.identity == k
  }

  /** Every queue belongs to a published control and there is room for all of them. */
  ghost predicate Steady(cfg: Config, t: Trace) {
    && t.publisher.pending.Valid() && Keyed(t.publisher.pending.at)
    && t.publisher.pending.at.Keys <= t.publisher.catalog.Keys
    && |t.publisher.catalog| <= cfg.maxPendingControls
  }

  ghost predicate Published(t: Trace, a: Action) {
    a.Observe? ==> a.value.identity in t.publisher.catalog
  }

  ghost function Perform(cfg: Config, t: Trace, a: Action): Trace
    requires t.publisher.pending.Valid()
  {
    match a
    case Observe(v) => t.(publisher := QueueValue(cfg, t.publisher, v), observed := t.observed + [v])
    case FlushTo(link) =>
      var delta := NextDelta(t.publisher);
      var accepted := delta.Some? && Send(link, TelemetryFrame(delta.value.1)).1;
      t.(publisher := FlushPending(t.publisher, link).0,
         sent := if accepted then t.sent + delta.value.1.values else t.sent)
  }

  lemma {:induction false} PerformKeepsSteady(cfg: Config, t: Trace, a: Action)
    requires Steady(cfg, t) && Published(t, a)
    ensures Steady(cfg, Perform(cfg, t, a)) && Perform(cfg, t, a).publisher.catalog == t.publisher.catalog
  {
    match a
    case Observe(v) => ObserveKeepsSteady(cfg, t, v);
    case FlushTo(link) => FlushKeepsSteady(cfg, t, link);
  }

  lemma {:induction false} ObserveKeepsSteady(cfg: Config, t: Trace, v: DecodedValue)
    requires Steady(cfg, t) && v.identity in t.publisher.catalog
    ensures
      var p, q := t.publisher, QueueValue(cfg, t.publisher, v);
      && Steady(cfg, t.(publisher := q)) && q.catalog == p.catalog
      && q.pending.at == p.pending.at[v.identity :=
           Coalesce(QueueOf(p, v.identity), v, IsSwitch(p.catalog, v.identity), cfg.maxSwitchTransitions).0]
  {
    var p, id := t.publisher, v.identity;
    RoomForPublished(cfg, t, id);
    var queue := Coalesce(QueueOf(p, id), v, IsSwitch(p.catalog, id), cfg.maxSwitchTransitions).0;
    assert forall x :: x in queue ==> x.identity == id;
    hide Coalesce, NoDuplicates, IsSwitch;
    PutKeepsValid(p.pending, id, queue);
    assert QueueValue(cfg, p, v).pending == p.pending.Put(id, queue);
  }

  /** An accepted flush takes the head of each chosen queue; a refused one changes no queue. */
  lemma {:induction false} FlushKeepsSteady(cfg: Config, t: Trace, link: Link)
    requires Steady(cfg, t)
    ensures
      var p, after := t.publisher, Perform(cfg, t, FlushTo(link));
      var ids := Selected(p.pending.keys, p.pending.at, MAX_VALUES);
      && Steady(cfg, after) && after.publisher.catalog == p.catalog && after.observed == t.observed
      && NoDuplicates(ids) && (forall k :: k in ids ==> k in p.pending.at && p.pending.at[k] != [])
      && (after == t || (after.sent == t.sent + Heads(ids, p.pending.at)
                         && after.publisher.pending == PopHeads(p.pending, ids)))
  {
    hide PopHeads, Selected, NoDuplicates, Send, Keyed, Heads;
    var p := t.publisher;
    var ids := Selected(p.pending.keys, p.pending.at, MAX_VALUES);
    SelectedAreQueued(p.pending.keys, p.pending.at, MAX_VALUES);
    PoppedQueues(p.pending, ids);
    RefusedChangesNothing(cfg, t, link);
  }

  lemma RefusedChangesNothing(cfg: Config, t: Trace, link: Link)
    requires t.publisher.pending.Valid()
    ensures
      var delta := NextDelta(t.publisher);
      delta.None? || !Send(link, TelemetryFrame(delta.value.1)).1 ==> Perform(cfg, t, FlushTo(link)) == t
  {
    hide Send;
  }

  lemma {:induction false} PoppedQueues(d: Dict<Identity, seq<DecodedValue>>, ids: seq<Identity>)
    requires d.Valid() && Keyed(d.at) && NoDuplicates(ids) && forall k :: k in ids ==> k in d.at && d.at[k] != []
    ensures
      var after := PopHeads(d, ids);
      && after.Valid() && Keyed(after.at) && after.at.Keys <= d.at.Keys
      && forall k :: Waiting(after.at, k) == if k in ids then d.at[k][1..] else Waiting(d.at, k)
  {
    PopHeadsAt(d, ids);
    hide PopHeads, NoDuplicates;
  }

  lemma RoomForPublished(cfg: Config, t: Trace, id: Identity)
    requires Steady(cfg, t) && id in t.publisher.catalog
    ensures id in t.publisher.pending.at || |t.publisher.pending.keys| < cfg.maxPendingControls
  {
    SizeOfValid(t.publisher.pending);
    if id !in t.publisher.pending.at {
      SubsetSize(t.publisher.pending.at.Keys + {id}, t.publisher.catalog.Keys);
    }
  }

  /** A run from a freshly opened epoch, nothing queued. */
  ghost function Play(cfg: Config, start: State, actions: seq<Action>): (t: Trace)
    requires Opened(cfg, start, actions)
    ensures Steady(cfg, t) && t.publisher.catalog == start.catalog
    decreases |actions|
  {
    if actions == [] then Trace(start, [], [])
    else
      var t := Play(cfg, start, actions[..|actions| - 1]);
      PerformKeepsSteady(cfg, t, actions[|actions| - 1]);
      Perform(cfg, t, actions[|actions| - 1])
  }

  ghost predicate Opened(cfg: Config, start: State, actions: seq<Action>) {
    && start.pending == Empty() && |start.catalog| <= cfg.maxPendingControls && cfg.maxSwitchTransitions > 0
    && forall a :: a in actions && a.Observe? ==> a.value.identity in start.catalog
  }

  // ----- one control

  function Of(values: seq<DecodedValue>, id: Identity): seq<DecodedValue>
    decreases |values|
  {
    if values == [] then []
    else
      var front, last := Of(values[..|values| - 1], id), values[|values| - 1];
      if last.identity == id then front + [last] else front
  }

  /** The values once adjacent repeats are removed. */
  function Transitions(values: seq<DecodedValue>): seq<Option<Reading>>
    decreases |values|
  {
    if values == [] then []
    else
      var front, last := values[..|values| - 1], values[|values| - 1];
      if front != [] && front[|front| - 1].value == last.value then Transitions(front)
      else Transitions(front) + [last.value]
  }

  lemma {:induction false} OfConcat(a: seq<DecodedValue>, b: seq<DecodedValue>, id: Identity)
    ensures Of(a + b, id) == Of(a, id) + Of(b, id)
    decreases |b|
  {
    if b == [] {
      assert a + b == a;
    } else {
      assert (a + b)[..|a + b| - 1] == a + b[..|b| - 1];
      OfConcat(a, b[..|b| - 1], id);
    }
  }

  lemma {:induction false} OfHeads(ids: seq<Identity>, queues: Queues, id: Identity)
    requires Keyed(queues) && NoDuplicates(ids) && forall k :: k in ids ==> k in queues
    ensures Of(Heads(ids, queues), id) == if id in ids then [queues[id][0]] else []
    decreases |ids|
  {
    if ids != [] {
      var front, last := ids[..|ids| - 1], ids[|ids| - 1];
      assert ids == front + [last] && last in ids;
      assert Heads(ids, queues)[..|ids| - 1] == Heads(front, queues);
      assert queues[last][0] in queues[last];
      OfHeads(front, queues, id);
    }
  }

  // ----- what a full queue loses

  /**
    A differing value arrives while the control's queue is full, and the value it overwrites is not
    itself a repeat of the last one sent.
   */
  ghost predicate Overwrites(sent: seq<DecodedValue>, queue: seq<DecodedValue>, v: DecodedValue, limit: nat) {
    && 0 < limit <= |queue| && queue[|queue| - 1].value != v.value
    && !(|queue| == 1 && sent != [] && sent[|sent| - 1].value == queue[0].value)
  }

  ghost predicate EverOverwrites(cfg: Config, start: State, actions: seq<Action>, id: Identity)
    requires Opened(cfg, start, actions)
    decreases |actions|
  {
    actions != [] &&
    (var front, last := actions[..|actions| - 1], actions[|actions| - 1];
     || EverOverwrites(cfg, start, front, id)
     || (var t := Play(cfg, start, front);
         && last.Observe? && last.value.identity == id
         && Overwrites(Of(t.sent, id), QueueOf(t.publisher, id), last.value, cfg.maxSwitchTransitions)))
  }

  ghost predicate NoRepeats(queue: seq<DecodedValue>) {
    forall i :: 0 <= i < |queue| - 1 ==> queue[i].value != queue[i + 1].value
  }

  /** How one control stands: `delivered` is what was sent for it followed by what is queued for it. */
  ghost predicate Standing(delivered: seq<DecodedValue>, queue: seq<DecodedValue>, observed: seq<DecodedValue>,
                           lost: bool)
  {
    && (delivered == [] <==> observed == [])
    && (observed != [] ==> delivered[|delivered| - 1] == observed[|observed| - 1])
    && if lost then |Transitions(delivered)| < |Transitions(observed)|
       else Transitions(delivered) == Transitions(observed) && NoRepeats(queue)
  }

  lemma {:induction false} TransitionsSnoc(values: seq<DecodedValue>, v: DecodedValue)
    ensures Transitions(values + [v]) ==
            if values != [] && values[|values| - 1].value == v.value then Transitions(values)
            else Transitions(values) + [v.value]
  {
    assert (values + [v])[..|values|] == values;
  }

  /** Overwriting the newest value shortens or keeps the transitions unless that value was a repeat. */
  lemma {:induction false} OverwriteLoses(values: seq<DecodedValue>, w: DecodedValue, v: DecodedValue)
    ensures |Transitions(values + [v])| <= |Transitions(values + [w])| + 1
    ensures (values == [] || values[|values| - 1].value != w.value) ==>
            |Transitions(values + [v])| <= |Transitions(values + [w])|
  {
    TransitionsSnoc(values, w);
    TransitionsSnoc(values, v);
  }

  lemma {:induction false} SwitchObserved(sent: seq<DecodedValue>, queue: seq<DecodedValue>,
                                          observed: seq<DecodedValue>, lost: bool,
                                         v: DecodedValue, limit: nat)
    requires limit > 0 && Standing(sent + queue, queue, observed, lost)
    ensures
      var after := Coalesce(queue, v, true, limit).0;
      Standing(sent + after, after, observed + [v], lost || Overwrites(sent, queue, v, limit))
  {
    hide Transitions;
    TransitionsSnoc(observed, v);
    var after := Coalesce(queue, v, true, limit).0;
    if queue == [] || after == queue + [v] {
      assert sent + (queue + [v]) == (sent + queue) + [v];
      TransitionsSnoc(sent + queue, v);
    } else {
      var front, w := queue[..|queue| - 1], queue[|queue| - 1];
      assert sent + queue == (sent + front) + [w] && sent + after == (sent + front) + [v];
      TransitionsSnoc(sent + front, w);
      TransitionsSnoc(sent + front, v);
      OverwriteLoses(sent + front, w, v);
      if front != [] {
        assert (sent + front)[|sent + front| - 1] == queue[|queue| - 2];
      }
    }
  }

  lemma {:induction false} HeadSent(sent: seq<DecodedValue>, queue: seq<DecodedValue>, observed: seq<DecodedValue>,
                                    lost: bool)
    requires queue != [] && Standing(sent + queue, queue, observed, lost)
    ensures Standing((sent + [queue[0]]) + queue[1..], queue[1..], observed, lost)
  {
    assert (sent + [queue[0]]) + queue[1..] == sent + queue;
  }

  /** What one action does to one control. */
  lemma {:induction false} PerformOnControl(cfg: Config, t: Trace, a: Action, id: Identity)
    requires Steady(cfg, t) && Published(t, a)
    ensures
      var after := Perform(cfg, t, a);
      var queue, queue' := QueueOf(t.publisher, id), QueueOf(after.publisher, id);
      if a.Observe? && a.value.identity == id then
        && queue' == Coalesce(queue, a.value, IsSwitch(t.publisher.catalog, id), cfg.maxSwitchTransitions).0
        && Of(after.observed, id) == Of(t.observed, id) + [a.value] && Of(after.sent, id) == Of(t.sent, id)
      else
        && Of(after.observed, id) == Of(t.observed, id)
        && (|| (queue' == queue && Of(after.sent, id) == Of(t.sent, id))
            || (queue != [] && queue' == queue[1..] && Of(after.sent, id) == Of(t.sent, id) + [queue[0]]))
  {
    match a
    case Observe(v) =>
      ObserveKeepsSteady(cfg, t, v);
      assert (t.observed + [v])[..|t.observed|] == t.observed;
      hide QueueValue, Steady, Coalesce;
    case FlushTo(link) =>
      var ids := Selected(t.publisher.pending.keys, t.publisher.pending.at, MAX_VALUES);
      FlushKeepsSteady(cfg, t, link);
      PoppedQueues(t.publisher.pending, ids);
      OfHeads(ids, t.publisher.pending.at, id);
      OfConcat(t.sent, Heads(ids, t.publisher.pending.at), id);
      hide Perform, Selected, PopHeads, Coalesce, Of, Heads, Keyed, NoDuplicates;
  }

  // ----- which controls are switches

  /** A published integer control of which exactly the values 0 and 1 fit the catalog. */
  ghost predicate IsTwoValued(catalog: map<Identity, CatalogEntry>, id: Identity) {
    && id in catalog
    && forall n: int :: Ingress.Fits(DecodedValue(id, true, Some(Number(n)), 0), catalog[id]) <==> n in {0, 1}
  }

  lemma SwitchesAreTwoValued(catalog: map<Identity, CatalogEntry>, id: Identity)
    ensures IsSwitch(catalog, id) <==> IsTwoValued(catalog, id)
  {
    if IsTwoValued(catalog, id) {
      var e := catalog[id];
      assert Ingress.Fits(DecodedValue(id, true, Some(Number(1)), 0), e)
             && !Ingress.Fits(DecodedValue(id, true, Some(Number(2)), 0), e);
    }
  }

  // ----- whole runs

  lemma {:induction false} SwitchStanding(cfg: Config, start: State, actions: seq<Action>, id: Identity)
    requires Opened(cfg, start, actions) && IsSwitch(start.catalog, id)
    ensures
      var t := Play(cfg, start, actions);
      Standing(Of(t.sent, id) + QueueOf(t.publisher, id), QueueOf(t.publisher, id), Of(t.observed, id),
               EverOverwrites(cfg, start, actions, id))
    decreases |actions|
  {
    if actions != [] {
      var front, a := actions[..|actions| - 1], actions[|actions| - 1];
      SwitchStanding(cfg, start, front, id);
      var t := Play(cfg, start, front);
      PerformOnControl(cfg, t, a, id);
      var sent, queue, observed, lost := Of(t.sent, id), QueueOf(t.publisher, id), Of(t.observed, id),
          EverOverwrites(cfg, start, front, id);
      if a.Observe? && a.value.identity == id {
        SwitchObserved(sent, queue, observed, lost, a.value, cfg.maxSwitchTransitions);
      } else if queue != [] {
        HeadSent(sent, queue, observed, lost);
      }
      hide Standing, Perform, Overwrites, Steady;
    }
  }

  /**
    Switch transitions survive coalescing: the values sent for a switch followed by those queued equal
    the observed values, once adjacent repeats are removed from both, exactly when no differing value
    ever overwrote a transition in a full queue.
   */
  lemma {:induction false} SwitchTransitionsSurvive(cfg: Config, start: State, actions: seq<Action>, id: Identity)
    requires Opened(cfg, start, actions) && IsTwoValued(start.catalog, id)
    ensures
      var t := Play(cfg, start, actions);
      Transitions(Of(t.sent, id) + QueueOf(t.publisher, id)) == Transitions(Of(t.observed, id))
      <==> !EverOverwrites(cfg, start, actions, id)
  {
    SwitchesAreTwoValued(start.catalog, id);
    SwitchStanding(cfg, start, actions, id);
  }

  // ----- a full queue does lose

  function Flip(id: Identity, i: nat): DecodedValue {
    DecodedValue(id, true, Some(Number(i % 2)), i)
  }

  function Flips(id: Identity, n: nat): seq<DecodedValue> {
    seq(n, i requires 0 <= i < n => Flip(id, i))
  }

  /** A switch is flipped `n` times while nothing is flushed. */
  function Flipping(id: Identity, n: nat): seq<Action> {
    seq(n, i requires 0 <= i < n => Observe(Flip(id, i)))
  }

  ghost predicate Unsent(t: Trace, id: Identity, n: nat) {
    Of(t.sent, id) == [] && QueueOf(t.publisher, id) == Flips(id, n)
  }

  lemma {:induction false} FlipsAreQueued(cfg: Config, start: State, id: Identity, n: nat)
    requires Opened(cfg, start, Flipping(id, n)) && IsSwitch(start.catalog, id) && n <= cfg.maxSwitchTransitions
    ensures Unsent(Play(cfg, start, Flipping(id, n)), id, n)
  {
    hide Perform, Steady, IsSwitch, Unsent;
    if n == 0 {
      NothingSent(start, id);
    } else {
      var front := Flipping(id, n - 1);
      assert Flipping(id, n)[..n - 1] == front;
      OpenedPrefix(cfg, start, Flipping(id, n), n - 1);
      FlipsAreQueued(cfg, start, id, n - 1);
      FlipIsQueued(cfg, Play(cfg, start, front), id, n);
    }
  }

  lemma OpenedPrefix(cfg: Config, start: State, actions: seq<Action>, n: nat)
    requires Opened(cfg, start, actions) && n <= |actions|
    ensures Opened(cfg, start, actions[..n])
  {
  }

  lemma NothingSent(start: State, id: Identity)
    requires start.pending == Empty()
    ensures Unsent(Trace(start, [], []), id, 0)
  {
  }

  lemma {:induction false} FlipIsQueued(cfg: Config, t: Trace, id: Identity, n: nat)
    requires 0 < n <= cfg.maxSwitchTransitions && Unsent(t, id, n - 1)
    requires Steady(cfg, t) && IsSwitch(t.publisher.catalog, id)
    ensures Unsent(Perform(cfg, t, Observe(Flip(id, n - 1))), id, n)
  {
    hide Perform, Steady, Of;
    PerformOnControl(cfg, t, Observe(Flip(id, n - 1)), id);
    assert Flips(id, n) == Flips(id, n - 1) + [Flip(id, n - 1)];
  }

  /** Whatever the limit, one flip more than it loses a transition. */
  lemma {:induction false} FullSwitchQueueLoses(cfg: Config, start: State, id: Identity)
    requires start.pending == Empty() && |start.catalog| <= cfg.maxPendingControls && cfg.maxSwitchTransitions > 0
    requires IsTwoValued(start.catalog, id)
    ensures
      var actions := Flipping(id, cfg.maxSwitchTransitions + 1);
      && Opened(cfg, start, actions) && EverOverwrites(cfg, start, actions, id)
      && var t := Play(cfg, start, actions);
         Transitions(Of(t.sent, id) + QueueOf(t.publisher, id)) != Transitions(Of(t.observed, id))
  {
    hide Play, Perform, Steady, IsSwitch, IsTwoValued, Transitions;
    SwitchesAreTwoValued(start.catalog, id);
    var n := cfg.maxSwitchTransitions;
    var actions := Flipping(id, n + 1);
    IsSwitchIsPublished(start.catalog, id);
    assert actions[..n] == Flipping(id, n);
    FlipsAreQueued(cfg, start, id, n);
    SwitchTransitionsSurvive(cfg, start, actions, id);
  }

  lemma IsSwitchIsPublished(catalog: map<Identity, CatalogEntry>, id: Identity)
    requires IsSwitch(catalog, id)
    ensures id in catalog
  {
  }

  ghost predicate AtMostTheNewest(queue: seq<DecodedValue>, observed: seq<DecodedValue>) {
    |queue| <= 1 && (queue != [] ==> observed != [] && queue[0] == observed[|observed| - 1])
  }

  lemma OtherObserved(queue: seq<DecodedValue>, observed: seq<DecodedValue>, v: DecodedValue, limit: nat)
    requires AtMostTheNewest(queue, observed)
    ensures AtMostTheNewest(Coalesce(queue, v, false, limit).0, observed + [v])
  {
  }

  lemma SentOther(queue: seq<DecodedValue>, observed: seq<DecodedValue>)
    requires AtMostTheNewest(queue, observed)
    ensures queue != [] ==> AtMostTheNewest(queue[1..], observed)
  {
  }

  /** Any other control queues at most one value, always the newest observed. */
  lemma {:induction false} OthersQueueTheNewest(cfg: Config, start: State, actions: seq<Action>, id: Identity)
    requires Opened(cfg, start, actions) && !IsTwoValued(start.catalog, id)
    ensures
      var t := Play(cfg, start, actions);
      AtMostTheNewest(QueueOf(t.publisher, id), Of(t.observed, id))
    decreases |actions|
  {
    SwitchesAreTwoValued(start.catalog, id);
    if actions != [] {
      var front, a := actions[..|actions| - 1], actions[|actions| - 1];
      OthersQueueTheNewest(cfg, start, front, id);
      var t := Play(cfg, start, front);
      PerformOnControl(cfg, t, a, id);
      if a.Observe? && a.value.identity == id {
        OtherObserved(QueueOf(t.publisher, id), Of(t.observed, id), a.value, cfg.maxSwitchTransitions);
      } else {
        SentOther(QueueOf(t.publisher, id), Of(t.observed, id));
      }
      hide AtMostTheNewest, Perform, Steady, Coalesce, IsTwoValued;
    }
  }
}
