/**
  The event manager (cloud/dcs_copilot_cloud/events/manager.py): it turns rule transitions into raised
  and closing events that share an identifier. Identifiers come from a counter that never repeats; the
  speech policy is an arbitrary predicate on transitions.
 */
module Events {
  import opened Wrappers
  import opened Rules

  datatype Status = Raised | Closed(kind: Kind)

  datatype Event = Event(
    id: nat, ruleId: string, status: Status, severity: Severity, aircraft: string, phase: Option<FlightPhase>,
    message: string, data: Details)

  datatype Managed = Managed(event: Event, observedAt: real, publish: bool, speak: bool)

  datatype Manager = Manager(active: map<string, nat>, published: set<nat>, history: seq<Managed>, nextId: nat)

  type Policy = Transition -> bool

  function NoEvents(): Manager {
    Manager(map[], {}, [], 0)
  }

  // ----- operations as functions

  function Describe(t: Transition, id: nat): Event {
    Event(id, t.issue.ruleId, if t.kind == Activated then Raised else Closed(t.kind), t.issue.severity,
          t.issue.aircraft,
          if t.issue.phase == UnknownPhase then None else Some(t.issue.phase), t.issue.message, t.issue.data)
  }

  function Recorded(history: seq<Managed>, e: Managed, capacity: nat): seq<Managed> {
    var all := history + [e];
    if |all| > capacity then all[|all| - capacity..] else all
  }

  function Handle(m: Manager, t: Transition, policy: Policy, capacity: nat): (Manager, Managed) {
    var ruleId := t.issue.ruleId;
    if t.kind == Activated then
      var publish := policy(t);
      var e := Managed(Describe(t, m.nextId), t.timestamp, publish, publish);
      (Manager(m.active[ruleId := m.nextId], if publish then m.published + {m.nextId} else m.published,
               Recorded(m.history, e, capacity), m.nextId + 1), e)
    else
      var known := ruleId in m.active;
      var id := if known then m.active[ruleId] else m.nextId;
      var e := Managed(Describe(t, id), t.timestamp, id in m.published, false);
      (Manager(m.active - {ruleId}, m.published - {id}, Recorded(m.history, e, capacity),
               if known then m.nextId else m.nextId + 1), e)
  }

  function HandleAll(m: Manager, transitions: seq<Transition>, policy: Policy, capacity: nat): (Manager, seq<Managed>)
    decreases |transitions|
  {
    if transitions == [] then (m, [])
    else
      var (next, e) := Handle(m, transitions[0], policy, capacity);
      var (after, rest) := HandleAll(next, transitions[1..], policy, capacity);
      (after, [e] + rest)
  }

  lemma {:induction false} HandleAllSnoc(m: Manager, transitions: seq<Transition>, t: Transition, policy: Policy,
                                         capacity: nat)
    ensures
      var (before, emitted) := HandleAll(m, transitions, policy, capacity);
      var (after, e) := Handle(before, t, policy, capacity);
      HandleAll(m, transitions + [t], policy, capacity) == (after, emitted + [e])
    decreases |transitions|
  {
    hide Handle;
    if transitions == [] {
      var e := Handle(m, t, policy, capacity).1;
      assert transitions + [t] == [t] && [t][1..] == [] && [] + [e] == [e] + [];
    } else {
      assert (transitions + [t])[1..] == transitions[1..] + [t];
      var (next, first) := Handle(m, transitions[0], policy, capacity);
      HandleAllSnoc(next, transitions[1..], t, policy, capacity);
      var (before, rest) := HandleAll(next, transitions[1..], policy, capacity);
      var e := Handle(before, t, policy, capacity).1;
      assert [first] + (rest + [e]) == ([first] + rest) + [e];
    }
  }

  function ResetEvents(m: Manager, clearHistory: bool): Manager {
    m.(active := map[], published := {}, history := if clearHistory then [] else m.history)
  }

  // ----- pairing

  /** The newest event about a rule. */
  function Latest(log: seq<Managed>, ruleId: string): Option<Managed>
    decreases |log|
  {
    if log == [] then None
    else if log[|log| - 1].event.ruleId == ruleId then Some(log[|log| - 1])
    else Latest(log[..|log| - 1], ruleId)
  }

  /** The raised event about a rule that nothing has closed. */
  function OpenEvent(log: seq<Managed>, ruleId: string): Option<Managed> {
    var latest := Latest(log, ruleId);
    if latest.Some? && latest.value.event.status == Raised then latest else None
  }

  /**
    A raise finds its rule closed and has an identifier of its own; a close repeats the open raise's identifier and
    publication.
   */
  ghost predicate Follows(log: seq<Managed>, e: Managed) {
    var open := OpenEvent(log, e.event.ruleId);
    if e.event.status == Raised then
      open.None? && e.speak == e.publish && forall x :: x in log ==> x.event.id != e.event.id
    else
      open.Some? && open.value.event.id == e.event.id && open.value.publish == e.publish && !e.speak
  }

  ghost predicate Paired(log: seq<Managed>)
    decreases |log|
  {
    log == [] || (Paired(log[..|log| - 1]) && Follows(log[..|log| - 1], log[|log| - 1]))
  }

  /**
    Read position by position: a second event with the identifier of an earlier one closes it, and nothing else
    about the rule lies between.
   */
  lemma {:induction false} SameIdentifierMeansClosed(log: seq<Managed>, i: nat, j: nat)
    requires Paired(log) && i < j < |log| && log[i].event.id == log[j].event.id
    ensures log[i].event.status == Raised && log[j].event.status.Closed?
    ensures log[i].event.ruleId == log[j].event.ruleId && log[i].publish == log[j].publish
    ensures forall k :: i < k < j ==> log[k].event.ruleId != log[i].event.ruleId
    decreases |log|
  {
    var front, last := log[..|log| - 1], log[|log| - 1];
    if j < |log| - 1 {
      SameIdentifierMeansClosed(front, i, j);
    } else {
      assert log[i] in front;
      OpenIsPosition(front, last.event.ruleId);
      var q :| 0 <= q < |front| && front[q] == OpenEvent(front, last.event.ruleId).value
               && forall k :: q < k < |front| ==> front[k].event.ruleId != last.event.ruleId;
      if q < i {
        SameIdentifierMeansClosed(front, q, i);
      } else if i < q {
        SameIdentifierMeansClosed(front, i, q);
      }
    }
  }

  lemma {:induction false} OpenIsPosition(log: seq<Managed>, ruleId: string)
    requires Latest(log, ruleId).Some?
    ensures exists q :: 0 <= q < |log| && log[q] == Latest(log, ruleId).value
                        && forall k :: q < k < |log| ==> log[k].event.ruleId != ruleId
    ensures Latest(log, ruleId).value.event.ruleId == ruleId
    decreases |log|
  {
    if log[|log| - 1].event.ruleId == ruleId {
      assert log[|log| - 1] == Latest(log, ruleId).value;
    } else {
      var front := log[..|log| - 1];
      OpenIsPosition(front, ruleId);
      var q :| 0 <= q < |front| && front[q] == Latest(front, ruleId).value
               && forall k :: q < k < |front| ==> front[k].event.ruleId != ruleId;
      assert log[q] == Latest(log, ruleId).value;
    }
  }

  /** Each identifier is closed at most once. */
  lemma {:induction false} ClosedAtMostOnce(log: seq<Managed>, i: nat, j: nat, k: nat)
    requires Paired(log) && i < j < |log| && i < k < |log|
    requires log[i].event.id == log[j].event.id == log[k].event.id
    ensures j == k
  {
    if j < k {
      SameIdentifierMeansClosed(log, j, k);
      SameIdentifierMeansClosed(log, i, j);
    } else if k < j {
      SameIdentifierMeansClosed(log, k, j);
      SameIdentifierMeansClosed(log, i, k);
    }
  }

  /** The manager's open identifiers are the log's open events, and published those that were published when raised. */
  ghost predicate RemembersOpen(m: Manager, log: seq<Managed>) {
    && (forall id :: id in m.active <==> OpenEvent(log, id).Some?)
    && (forall id :: id in m.active ==>
          && m.active[id] == OpenEvent(log, id).value.event.id
          && (m.active[id] in m.published <==> OpenEvent(log, id).value.publish))
    && (forall a, b :: a in m.active && b in m.active && m.active[a] == m.active[b] ==> a == b)
  }

  ghost predicate FreshIds(m: Manager, log: seq<Managed>) {
    && (forall x :: x in m.published ==> x < m.nextId)
    && (forall e :: e in log ==> e.event.id < m.nextId)
  }

  /** The retained history is the newest part of the log. */
  ghost predicate RecentHistory(m: Manager, log: seq<Managed>, capacity: nat) {
    |m.history| <= |log| && |m.history| <= capacity && m.history == log[|log| - |m.history|..]
  }

  ghost predicate Remembering(m: Manager, log: seq<Managed>, capacity: nat) {
    Paired(log) && RemembersOpen(m, log) && FreshIds(m, log) && RecentHistory(m, log, capacity)
  }

  lemma {:induction false} OpenAfter(log: seq<Managed>, e: Managed)
    ensures forall id :: OpenEvent(log + [e], id) ==
              if e.event.ruleId != id then OpenEvent(log, id) else if e.event.status == Raised then Some(e) else None
  {
    assert (log + [e])[..|log|] == log;
  }

  lemma {:induction false} OpenIsLogged(log: seq<Managed>, ruleId: string)
    ensures OpenEvent(log, ruleId).Some? ==> OpenEvent(log, ruleId).value in log
    decreases |log|
  {
    if log != [] {
      OpenIsLogged(log[..|log| - 1], ruleId);
    }
  }

  lemma {:induction false} RaiseKeepsPairing(m: Manager, log: seq<Managed>, t: Transition, policy: Policy,
                                             capacity: nat)
    requires Paired(log) && RemembersOpen(m, log) && FreshIds(m, log)
    requires t.kind == Activated && t.issue.ruleId !in m.active
    ensures
      var (after, e) := Handle(m, t, policy, capacity);
      Paired(log + [e]) && RemembersOpen(after, log + [e]) && FreshIds(after, log + [e])
  {
    var (after, e) := Handle(m, t, policy, capacity);
    assert (log + [e])[..|log|] == log;
    OpenAfter(log, e);
    forall id | id in m.active ensures m.active[id] < m.nextId {
      OpenIsLogged(log, id);
    }
    assert Follows(log, e);
    hide OpenEvent, Follows;
  }

  lemma {:induction false} CloseKeepsPairing(m: Manager, log: seq<Managed>, t: Transition, policy: Policy,
                                             capacity: nat)
    requires Paired(log) && RemembersOpen(m, log) && FreshIds(m, log)
    requires t.kind != Activated && t.issue.ruleId in m.active
    ensures
      var (after, e) := Handle(m, t, policy, capacity);
      Paired(log + [e]) && RemembersOpen(after, log + [e]) && FreshIds(after, log + [e]) && after.nextId == m.nextId
  {
    var (after, e) := Handle(m, t, policy, capacity);
    assert (log + [e])[..|log|] == log;
    OpenAfter(log, e);
    forall id | id in m.active ensures m.active[id] < m.nextId {
      OpenIsLogged(log, id);
    }
    assert Follows(log, e);
    hide OpenEvent, Follows;
  }

  lemma {:induction false} RecordedIsRecent(history: seq<Managed>, log: seq<Managed>, e: Managed, capacity: nat)
    requires |history| <= |log| && |history| <= capacity && history == log[|log| - |history|..] && capacity > 0
    ensures
      var after, all := Recorded(history, e, capacity), log + [e];
      |after| <= |all| && |after| <= capacity && after == all[|all| - |after|..]
  {
  }

  lemma {:induction false} HandleShape(m: Manager, t: Transition, policy: Policy, capacity: nat)
    requires t.kind == Activated <==> t.issue.ruleId !in m.active
    ensures
      var (after, e) := Handle(m, t, policy, capacity);
      && after.active.Keys == (if t.kind == Activated then m.active.Keys + {t.issue.ruleId}
                               else m.active.Keys - {t.issue.ruleId})
      && after.nextId == m.nextId + (if t.kind == Activated then 1 else 0)
      && after.history == Recorded(m.history, e, capacity)
  {
    hide Recorded;
  }

  /** A transition that fits what is open keeps the log paired, and the fallback identifier is never used. */
  lemma {:induction false} HandleKeepsPairing(m: Manager, log: seq<Managed>, t: Transition, policy: Policy,
                                              capacity: nat)
    requires capacity > 0 && Remembering(m, log, capacity)
    requires t.kind == Activated <==> t.issue.ruleId !in m.active
    ensures
      var (after, e) := Handle(m, t, policy, capacity);
      && Remembering(after, log + [e], capacity)
      && after.active.Keys == (if t.kind == Activated then m.active.Keys + {t.issue.ruleId}
                               else m.active.Keys - {t.issue.ruleId})
      && after.nextId == m.nextId + (if t.kind == Activated then 1 else 0)
  {
    hide Handle, Paired, RemembersOpen, FreshIds, Recorded;
    HandleShape(m, t, policy, capacity);
    if t.kind == Activated {
      RaiseKeepsPairing(m, log, t, policy, capacity);
    } else {
      CloseKeepsPairing(m, log, t, policy, capacity);
    }
    RecordedIsRecent(m.history, log, Handle(m, t, policy, capacity).1, capacity);
  }

  // ----- the mutable object

  class EventManager {
    const historySize: nat
    var activeEventIds: map<string, nat>
    var publishedEventIds: set<nat>
    var history: seq<Managed>
    var nextId: nat

    function View(): Manager
      reads this
    {
      Manager(activeEventIds, publishedEventIds, history, nextId)
    }

    constructor (historySize: nat)
      ensures View() == NoEvents() && this.historySize == historySize
    {
      this.historySize := historySize;
      activeEventIds, publishedEventIds, history, nextId := map[], {}, [], 0;
    }

    method Reset(clearHistory: bool)
      modifies this
      ensures View() == ResetEvents(old(View()), clearHistory)
    {
      activeEventIds, publishedEventIds := map[], {};
      if clearHistory {
        history := [];
      }
    }

    method NewId() returns (id: nat)
      modifies this`nextId
      ensures id == old(nextId) && nextId == id + 1
    {
      id := nextId;
      nextId := nextId + 1;
    }

    method HandleTransition(t: Transition, policy: Policy) returns (managed: Managed)
      modifies this
      ensures (View(), managed) == Handle(old(View()), t, policy, historySize)
    {
      var ruleId := t.issue.ruleId;
      var id: nat;
      var publish, speak;
      if t.kind == Activated {
        id := NewId();
        activeEventIds := activeEventIds[ruleId := id];
        publish := policy(t);
        if publish {
          publishedEventIds := publishedEventIds + {id};
        }
        speak := publish;
      } else {
        if ruleId in activeEventIds {
          id := activeEventIds[ruleId];
          activeEventIds := activeEventIds - {ruleId};
        } else {
          id := NewId();
          assert activeEventIds - {ruleId} == activeEventIds;
        }
        publish := id in publishedEventIds;
        publishedEventIds := publishedEventIds - {id};
        speak := false;
      }
      managed := Managed(Describe(t, id), t.timestamp, publish, speak);
      history := history + [managed];
      if |history| > historySize {
        history := history[|history| - historySize..];
      }
    }
  }
}
