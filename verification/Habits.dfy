/**
  Flight statistics (cloud/dcs_copilot_cloud/habits/manager.py): which rules could be evaluated during a
  flight and how often each was activated, summarised when the aircraft changes or disconnects.
  Identifiers of summaries come from a counter.
 */
module Habits {
  import opened Wrappers
  import opened InsertionDict
  import opened Rules

  const HABIT_RULES := [
    "FA18_MASTER_CAUTION", "FA18_GEAR_OVERSPEED", "FA18_CANOPY_OPEN_MOVING", "FA18_PARKING_BRAKE_TAXI",
    "FA18_TAXI_LIGHT_OFF", "FA18_EJECTION_SEAT_NOT_ARMED", "FA18_REFUELING_PROBE_LEFT_OUT",
    "CARRIER_FLAPS_NOT_HALF", "TAKEOFF_TRIM_NOT_CONFIRMED", "WINGS_NOT_SPREAD_FOR_LAUNCH",
    "SPEEDBRAKE_EXTENDED_FOR_LAUNCH", "EJECTION_SEAT_SAFE_FOR_LAUNCH", "OBOGS_OFF_FOR_TAKEOFF",
    "LAUNCH_BAR_DOWN_AIRBORNE", "FLAPS_NOT_AUTO_AFTER_TAKEOFF", "GEAR_STILL_DOWN_AFTER_TAKEOFF",
    "HOOK_DOWN_OUTSIDE_RECOVERY", "REFUEL_PROBE_LEFT_OUT", "MASTER_ARM_SAFE_IN_COMBAT_MODE",
    "GEAR_COMMANDED_DOWN_BUT_NOT_SAFE", "HOOK_COMMANDED_DOWN_BUT_NOT_EXTENDED", "CARRIER_HOOK_NOT_DOWN",
    "FLAPS_NOT_FULL_ON_CARRIER_RECOVERY"]
  const MAX_SUMMARY_RULES := 32
  const MAX_RULE_ACTIVATIONS := 100

  datatype Summary = Summary(id: nat, aircraft: string, activations: map<string, nat>)

  datatype Stats = Stats(
    aircraft: Option<string>, covered: set<string>, activations: map<string, nat>, pending: seq<Summary>, nextId: nat)

  function NoStats(): Stats {
    Stats(None, {}, map[], [], 0)
  }

  /** What the summary's constructor accepts; anything else is its ValueError. */
  predicate SummaryIsLegal(s: Summary) {
    && !IsBlank(s.aircraft) && |s.aircraft| <= 64
    && |s.activations| <= MAX_SUMMARY_RULES
    && (forall id :: id in s.activations ==> id in HABIT_RULES)
    && (forall id :: id in s.activations ==> s.activations[id] <= MAX_RULE_ACTIVATIONS)
  }

  // ----- operations as functions

  function CountOf(activations: map<string, nat>, id: string): nat {
    if id in activations then activations[id] else 0
  }

  function SummaryOf(s: Stats): Summary
    requires s.aircraft.Some?
  {
    Summary(s.nextId, s.aircraft.value, map id | id in s.covered :: CountOf(s.activations, id))
  }

  function Appended(pending: seq<Summary>, summary: Summary, limit: nat): seq<Summary> {
    var all := pending + [summary];
    if |all| > limit then all[|all| - limit..] else all
  }

  /** Err leaves the statistics as they were: the constructor raises before anything is cleared. */
  function Finish(s: Stats, limit: nat): Result<(Stats, Option<Summary>)> {
    if s.aircraft.None? then Ok((s, None))
    else
      var summary := SummaryOf(s);
      if !SummaryIsLegal(summary) then Err
      else Ok((Stats(None, {}, map[], Appended(s.pending, summary, limit), s.nextId + 1), Some(summary)))
  }

  function Evaluable(rules: seq<Rule>, state: Seen): set<string> {
    set r | r in rules && Applicable(r, state) :: r.id
  }

  function Observe(s: Stats, rules: seq<Rule>, state: Seen, limit: nat): Result<(Stats, Option<Summary>)> {
    var aircraft := if state.connected then state.aircraft else None;
    match if aircraft != s.aircraft then Finish(s, limit) else Ok((s, None))
    case Err => Err
    case Ok((finished, summary)) =>
      var moved := finished.(aircraft := aircraft);
      Ok((if aircraft.Some? then moved.(covered := moved.covered + Evaluable(rules, state)) else moved, summary))
  }

  function OnTransition(s: Stats, t: Transition): Stats {
    var id := t.issue.ruleId;
    if s.aircraft.Some? && t.kind == Activated && id in s.covered then
      s.(activations := s.activations[id := CountOf(s.activations, id) + 1])
    else s
  }

  function OnTransitions(s: Stats, ts: seq<Transition>): Stats
    decreases |ts|
  {
    if ts == [] then s else OnTransition(OnTransitions(s, ts[..|ts| - 1]), ts[|ts| - 1])
  }

  // ----- what the statistics mean

  /** The updates of one flight and the transitions the engine emitted during it. */
  datatype Flight = Flight(seen: seq<Seen>, transitions: seq<Transition>)

  /** How often a rule was activated. */
  function Activations(ts: seq<Transition>, id: string): nat
    decreases |ts|
  {
    if ts == [] then 0
    else
      var last := ts[|ts| - 1];
      Activations(ts[..|ts| - 1], id) + if last.kind == Activated && last.issue.ruleId == id then 1 else 0
  }

  /** The rules that could be evaluated at some update. */
  ghost function EverEvaluable(rules: seq<Rule>, seen: seq<Seen>): set<string> {
    set i, r | 0 <= i < |seen| && r in rules && Judges(r, seen[i]) :: r.id
  }

  lemma EvaluableIsJudged(rules: seq<Rule>, state: Seen)
    ensures Evaluable(rules, state) == set r | r in rules && Judges(r, state) :: r.id
  {
    hide Applicable, Judges;
    forall r | r in rules ensures Applicable(r, state) <==> Judges(r, state) {
      ApplicableMeansJudges(r, state);
    }
  }

  lemma {:induction false} ActivationsConcat(a: seq<Transition>, b: seq<Transition>, id: string)
    ensures Activations(a + b, id) == Activations(a, id) + Activations(b, id)
    decreases |b|
  {
    if b == [] {
      assert a + b == a;
    } else {
      assert (a + b)[..|a + b| - 1] == a + b[..|b| - 1];
      ActivationsConcat(a, b[..|b| - 1], id);
    }
  }

  lemma {:induction false} OnTransitionsCounts(s: Stats, ts: seq<Transition>)
    requires s.aircraft.Some? && forall t :: t in ts && t.kind == Activated ==> t.issue.ruleId in s.covered
    ensures
      var after := OnTransitions(s, ts);
      && after == s.(activations := after.activations)
      && forall id :: CountOf(after.activations, id) == CountOf(s.activations, id) + Activations(ts, id)
    decreases |ts|
  {
    if ts != [] {
      var front, last := ts[..|ts| - 1], ts[|ts| - 1];
      assert ts == front + [last];
      OnTransitionsCounts(s, front);
    }
  }

  /** Transitions that activate nothing leave the statistics alone. */
  lemma {:induction false} OnlyActivationsCount(s: Stats, ts: seq<Transition>)
    requires forall t :: t in ts ==> t.kind != Activated
    ensures OnTransitions(s, ts) == s
    ensures forall id :: Activations(ts, id) == 0
    decreases |ts|
  {
    if ts != [] {
      OnlyActivationsCount(s, ts[..|ts| - 1]);
    }
  }

  /** The statistics hold exactly the flight's coverage and counts; between flights they are empty. */
  ghost predicate Counts(s: Stats, rules: seq<Rule>, flight: Flight) {
    if s.aircraft.None? then s.covered == {} && s.activations == map[] && flight == Flight([], [])
    else
      && (forall x :: x in flight.seen ==> x.connected && x.aircraft == s.aircraft)
      && s.covered == EverEvaluable(rules, flight.seen)
      && forall id :: CountOf(s.activations, id) == Activations(flight.transitions, id)
  }

  /** The summary a flight deserves. */
  ghost function FlightReport(id: nat, aircraft: string, rules: seq<Rule>, flight: Flight): Summary {
    Summary(id, aircraft, map r | r in EverEvaluable(rules, flight.seen) :: Activations(flight.transitions, r))
  }

  /**
    An update that ends a flight reports exactly its coverage and counts, or raises because that report is not
    legal.
   */
  lemma {:induction false} FinishReportsFlight(s: Stats, rules: seq<Rule>, flight: Flight, limit: nat)
    requires Counts(s, rules, flight) && s.aircraft.Some?
    ensures
      var report := FlightReport(s.nextId, s.aircraft.value, rules, flight);
      && (Finish(s, limit).Ok? <==> SummaryIsLegal(report))
      && (Finish(s, limit).Ok? ==> Finish(s, limit).value.1 == Some(report))
  {
    assert SummaryOf(s) == FlightReport(s.nextId, s.aircraft.value, rules, flight);
  }

  /**
    With allowlisted rules and a proper aircraft name, a report is refused exactly for more than a hundred
    activations of a covered rule.
   */
  lemma {:induction false} RefusedExactlyAboveHundred(id: nat, aircraft: string, rules: seq<Rule>, flight: Flight)
    requires !IsBlank(aircraft) && |aircraft| <= 64
    requires forall r :: r in rules ==> r.id in HABIT_RULES
    ensures
      SummaryIsLegal(FlightReport(id, aircraft, rules, flight)) <==>
      forall r :: r in EverEvaluable(rules, flight.seen) ==> Activations(flight.transitions, r) <= 100
  {
    var report := FlightReport(id, aircraft, rules, flight);
    assert report.activations.Keys == EverEvaluable(rules, flight.seen);
    forall x | x in EverEvaluable(rules, flight.seen) ensures x in HABIT_RULES {
    }
    SubsetSize(report.activations.Keys, set x | x in HABIT_RULES);
    DistinctAtMost(HABIT_RULES);
  }

  lemma {:induction false} DistinctAtMost<T>(s: seq<T>)
    ensures |(set x | x in s)| <= |s|
    decreases |s|
  {
    if s != [] {
      var front, last := s[..|s| - 1], s[|s| - 1];
      DistinctAtMost(front);
      assert s == front + [last];
      assert (set x | x in s) == (set x | x in front) + {last};
    }
  }

  // ----- the mutable object

  class FlightStatsManager {
    const rules: seq<Rule>
    const pendingLimit: nat
    var aircraft: Option<string>
    var covered: set<string>
    var activations: map<string, nat>
    var pending: seq<Summary>
    var nextId: nat

    function View(): Stats
      reads this
    {
      Stats(aircraft, covered, activations, pending, nextId)
    }

    constructor (rules: seq<Rule>, pendingLimit: nat)
      ensures View() == NoStats() && this.rules == rules && this.pendingLimit == pendingLimit
    {
      this.rules, this.pendingLimit := rules, pendingLimit;
      aircraft, covered, activations, pending, nextId := None, {}, map[], [], 0;
    }

    method FinishFlight() returns (r: Result<Option<Summary>>)
      modifies this
      ensures
        match Finish(old(View()), pendingLimit)
        case Err => r == Err && View() == old(View())
        case Ok((after, summary)) => r == Ok(summary) && View() == after
    {
      if aircraft.None? {
        return Ok(None);
      }
      var summary := Summary(nextId, aircraft.value, map id | id in covered :: CountOf(activations, id));
      if !SummaryIsLegal(summary) {
        return Err;
      }
      nextId := nextId + 1;
      aircraft, covered, activations := None, {}, map[];
      pending := pending + [summary];
      if |pending| > pendingLimit {
        pending := pending[|pending| - pendingLimit..];
      }
      return Ok(Some(summary));
    }

    method ObserveState(state: Seen) returns (r: Result<Option<Summary>>)
      modifies this
      ensures
        match Observe(old(View()), rules, state, pendingLimit)
        case Err => r == Err && View() == old(View())
        case Ok((after, summary)) => r == Ok(summary) && View() == after
    {
      var current := if state.connected then state.aircraft else None;
      var completed := None;
      if current != aircraft {
        var finished := FinishFlight();
        if finished.Err? {
          return Err;
        }
        completed := finished.value;
        aircraft := current;
      }
      if current.Some? {
        covered := covered + Evaluable(rules, state);
      }
      return Ok(completed);
    }

    /** Removes one pending summary once it is stored. */
    method Acknowledge(id: nat) returns (found: bool)
      modifies this`pending
      ensures found <==> exists i :: 0 <= i < |old(pending)| && old(pending)[i].id == id
      ensures
        if found then
          exists i :: 0 <= i < |old(pending)| && old(pending)[i].id == id
                      && (forall k :: 0 <= k < i ==> old(pending)[k].id != id)
                      && pending == old(pending)[..i] + old(pending)[i + 1..]
        else pending == old(pending)
    {
      for i := 0 to |pending|
        invariant pending == old(pending)
        invariant forall k :: 0 <= k < i ==> pending[k].id != id
      {
        if pending[i].id == id {
          pending := pending[..i] + pending[i + 1..];
          return true;
        }
      }
      return false;
    }

    method CountTransition(t: Transition)
      modifies this
      ensures View() == OnTransition(old(View()), t)
    {
      if aircraft.Some? && t.kind == Activated && t.issue.ruleId in covered {
        activations := activations[t.issue.ruleId := CountOf(activations, t.issue.ruleId) + 1];
      }
    }
  }
}
