/**
  The mutable store, engine, event manager and statistics together. The engine calls the event manager
  first and the statistics second, the order in which the store registers them; the speech policy in force
  is an argument of each update.
 */
module AircraftStateStore {
  import opened Wrappers
  import opened Rules
  import opened RuleEngine
  import opened Events
  import opened Habits
  import opened StateStore

  /** What an input will have produced once the rules from `i` on have had their turn. */
  ghost function Remaining(rules: seq<Rule>, i: nat, runtimes: Runtimes, input: Input, found: seq<Transition>)
    : (Runtimes, seq<Transition>)
    requires i <= |rules| && forall r :: r in rules ==> r.id in runtimes
  {
    var (after, rest) := StepAll(rules[i..], runtimes, input);
    (after, found + rest)
  }

  lemma {:induction false} OneTurn(rules: seq<Rule>, i: nat, runtimes: Runtimes, input: Input, found: seq<Transition>)
    requires i <= |rules| && forall r :: r in rules ==> r.id in runtimes
    ensures i == 0 ==> Remaining(rules, i, runtimes, input, []) == StepAll(rules, runtimes, input)
    ensures
      Remaining(rules, i, runtimes, input, found) ==
      if i == |rules| then (runtimes, found)
      else
        var (stepped, t) := Step(rules[i], runtimes[rules[i].id], input);
        Remaining(rules, i + 1, runtimes[rules[i].id := stepped], input, found + Listed(t))
  {
    hide Step;
    assert rules[0..] == rules;
    var rest := StepAll(rules, runtimes, input).1;
    assert [] + rest == rest;
    if i == |rules| {
      assert found + [] == found;
    } else {
      assert rules[i..][0] == rules[i] && rules[i..][1..] == rules[i + 1..];
      var (stepped, t) := Step(rules[i], runtimes[rules[i].id], input);
      var later := StepAll(rules[i + 1..], runtimes[rules[i].id := stepped], input).1;
      assert found + (Listed(t) + later) == (found + Listed(t)) + later;
    }
  }

  class Engine {
    const rules: seq<Rule>
    var runtimes: Runtimes

    constructor (rules: seq<Rule>)
      ensures this.rules == rules && runtimes == AllIdle(rules)
    {
      this.rules, runtimes := rules, AllIdle(rules);
    }

    method DeactivateRule(id: string, now: real, kind: Kind) returns (t: Option<Transition>)
      requires id in runtimes
      modifies this
      ensures runtimes == old(runtimes)[id := Deactivate(old(runtimes[id]), now, kind).0]
      ensures t == Deactivate(old(runtimes[id]), now, kind).1
    {
      var runtime := runtimes[id].(candidate := None);
      if runtime.issue.None? {
        runtimes := runtimes[id := runtime];
        return None;
      }
      var issue := runtime.issue.value.(observedAt := now);
      runtimes := runtimes[id := runtime.(issue := None)];
      return Some(Transition(kind, issue, now, false));
    }

    method ActivateRule(rule: Rule, state: Seen, result: Violation, now: real) returns (t: Transition)
      requires rule.id in runtimes && state.aircraft.Some?
      modifies this
      ensures runtimes == old(runtimes)[rule.id := Activate(rule, old(runtimes[rule.id]), state, result, now).0]
      ensures t == Activate(rule, old(runtimes[rule.id]), state, result, now).1
    {
      var runtime := runtimes[rule.id];
      var issue := Issue(rule.id, rule.severity, state.aircraft.value, state.phase, now, now,
                         result.message, result.explanation, result.data + rule.metadata);
      runtime := runtime.(issue := Some(issue));
      var eligible := runtime.lastNotificationAt.None? || now - runtime.lastNotificationAt.value >= rule.cooldown;
      if eligible {
        runtime := runtime.(lastNotificationAt := Some(now));
      }
      runtimes := runtimes[rule.id := runtime];
      return Transition(Activated, issue, now, eligible);
    }

    method AdvanceRule(rule: Rule, state: Seen, result: Option<Violation>, now: real) returns (t: Option<Transition>)
      requires rule.id in runtimes && state.aircraft.Some?
      modifies this
      ensures runtimes == old(runtimes)[rule.id := Advance(rule, old(runtimes[rule.id]), state, result, now).0]
      ensures t == Advance(rule, old(runtimes[rule.id]), state, result, now).1
    {
      var runtime := runtimes[rule.id];
      var desired := result.Some?;
      if desired == runtime.issue.Some? {
        runtime := runtime.(candidate := None);
        if result.Some? {
          runtime := runtime.(issue := Some(runtime.issue.value.(observedAt := now, message := result.value.message,
                                                                 explanation := result.value.explanation,
                                                                 data := result.value.data)));
        }
        runtimes := runtimes[rule.id := runtime];
        return None;
      }
      var since := now;
      if runtime.candidate.Some? && runtime.candidate.value.active == desired {
        since := runtime.candidate.value.since;
      }
      if now - since < Delay(rule, desired) {
        runtimes := runtimes[rule.id := runtime.(candidate := Some(Candidate(desired, since, result)))];
        return None;
      }
      runtimes := runtimes[rule.id := runtime.(candidate := None)];
      if desired {
        var activated := ActivateRule(rule, state, result.value, now);
        return Some(activated);
      }
      t := DeactivateRule(rule.id, now, Resolved);
    }

    /** One rule's turn within an evaluation or a reset. */
    method StepRule(rule: Rule, input: Input) returns (t: Option<Transition>)
      requires rule.id in runtimes
      modifies this
      ensures runtimes == old(runtimes)[rule.id := Step(rule, old(runtimes[rule.id]), input).0]
      ensures t == Step(rule, old(runtimes[rule.id]), input).1
    {
      match input
      case Evaluation(state, verdicts, now) =>
        if !Applicable(rule, state) {
          t := DeactivateRule(rule.id, now, Disabled);
        } else {
          t := AdvanceRule(rule, state, verdicts(rule.id, runtimes[rule.id].issue.Some?), now);
        }
      case ResetAt(now) =>
        t := DeactivateRule(rule.id, now, Disabled);
        runtimes := runtimes[rule.id := runtimes[rule.id].(lastNotificationAt := None)];
    }

    /**
      Steps every rule; each transition reaches the event manager and then the statistics before the next rule's
      turn.
     */
    method Operate(input: Input, policy: Policy, events: EventManager, stats: FlightStatsManager)
      returns (transitions: seq<Transition>, emitted: seq<Managed>)
      requires forall r :: r in rules ==> r.id in runtimes
      modifies this, events, stats
      ensures (runtimes, transitions) == StepAll(rules, old(runtimes), input)
      ensures (events.View(), emitted) == HandleAll(old(events.View()), transitions, policy, events.historySize)
      ensures stats.View() == OnTransitions(old(stats.View()), transitions)
    {
      hide Step, StepAll, Remaining, Handle, OnTransition;
      transitions, emitted := [], [];
      ghost var all := StepAll(rules, runtimes, input);
      OneTurn(rules, 0, runtimes, input, []);
      var i := 0;
      while i < |rules|
        invariant 0 <= i <= |rules|
        invariant forall r :: r in rules ==> r.id in runtimes
        invariant Remaining(rules, i, runtimes, input, transitions) == all
        invariant (events.View(), emitted) == HandleAll(old(events.View()), transitions, policy, events.historySize)
        invariant stats.View() == OnTransitions(old(stats.View()), transitions)
      {
        OneTurn(rules, i, runtimes, input, transitions);
        var t := StepRule(rules[i], input);
        assert transitions + [] == transitions;
        if t.Some? {
          HandleAllSnoc(old(events.View()), transitions, t.value, policy, events.historySize);
          assert (transitions + [t.value])[..|transitions|] == transitions;
          var managed := events.HandleTransition(t.value, policy);
          stats.CountTransition(t.value);
          transitions, emitted := transitions + [t.value], emitted + [managed];
        }
        i := i + 1;
      }
      OneTurn(rules, i, runtimes, input, transitions);
    }
  }

  class AircraftStore {
    const cfg: Config
    const engine: Engine
    const events: EventManager
    const stats: FlightStatsManager
    var aircraft: Option<string>
    var connected: bool
    ghost var inputs: seq<Input>
    ghost var asked: seq<Asked>
    ghost var log: seq<Managed>
    ghost var flight: Flight

    ghost function View(): Store
      reads this, engine, events, stats
    {
      Store(aircraft, connected, engine.runtimes, events.View(), stats.View(), inputs, asked, log, flight)
    }

    ghost predicate Valid()
      reads this, engine, events, stats
    {
      && engine.rules == cfg.rules && stats.rules == cfg.rules
      && events.historySize == cfg.historySize && stats.pendingLimit == cfg.pendingLimit
      && HasRuntimes(cfg, View())
    }

    constructor (cfg: Config)
      ensures Valid() && View() == Opened(cfg) && this.cfg == cfg
      ensures fresh(engine) && fresh(events) && fresh(stats)
    {
      this.cfg := cfg;
      engine := new Engine(cfg.rules);
      events := new EventManager(cfg.historySize);
      stats := new FlightStatsManager(cfg.rules, cfg.pendingLimit);
      aircraft, connected, inputs, asked, log, flight := None, false, [], [], [], Flight([], []);
      new;
      IdsCover(cfg.rules);
    }

    /** One input to the engine, with everything it sets off; returns the managed events. */
    method DriveEngine(input: Input, policy: Policy) returns (emitted: seq<Managed>)
      requires Valid()
      modifies this, engine, events, stats
      ensures Valid() && View() == Drive(cfg, old(View()), input, policy)
      ensures log == old(log) + emitted
    {
      StepAllKeys(cfg.rules, engine.runtimes, input);
      ghost var inFlight := stats.aircraft.Some?;
      ghost var transitions;
      hide StepAll, HandleAll, OnTransitions;
      transitions, emitted := engine.Operate(input, policy, events, stats);
      inputs, asked, log := inputs + [input], asked + AskedAll(transitions, policy), log + emitted;
      if inFlight {
        flight := flight.(transitions := flight.transitions + transitions);
      }
    }

    method ResetCockpitContext(now: real, policy: Policy) returns (emitted: seq<Managed>)
      requires Valid()
      modifies this, engine, events, stats
      ensures Valid() && View() == ResetContext(cfg, old(View()), now, policy)
      ensures log == old(log) + emitted
    {
      hide Drive;
      emitted := DriveEngine(ResetAt(now), policy);
      events.Reset(true);
    }

    /** Err when the summary of the flight that ends here is refused; nothing changes then. */
    method ObserveFlight(state: Seen) returns (r: Result<Option<Summary>>)
      requires Valid()
      modifies this`flight, stats
      ensures Valid()
      ensures
        match ObserveStats(cfg, old(View()), state)
        case Err => r == Err && View() == old(View())
        case Ok((after, summary)) => r == Ok(summary) && View() == after
    {
      hide Observe;
      ghost var before := stats.aircraft;
      r := stats.ObserveState(state);
      if r.Ok? {
        ghost var current := if stats.aircraft != before then Flight([], []) else flight;
        flight := if stats.aircraft.Some? then current.(seen := current.seen + [state]) else current;
      }
    }

    /** A refused summary is an exception: it ends the update where it was raised. */
    method UpdateState(u: Update) returns (outcome: Outcome, emitted: seq<Managed>)
      requires Valid()
      modifies this, engine, events, stats
      ensures Valid() && (View(), outcome) == Apply(cfg, old(View()), u)
      ensures log == old(log) + emitted
    {
      hide Drive, ResetContext, ObserveStats;
      emitted := [];
      if !u.connected {
        var finished := ObserveFlight(Seen(false, u.aircraft, UnknownPhase, {}));
        if finished.Err? {
          return SummaryRefused, emitted;
        }
        aircraft, connected := u.aircraft, false;
        emitted := ResetCockpitContext(u.now, u.policy);
        return Returned(finished.value), emitted;
      }
      ResetKeepsRuntimes(cfg, View(), u.now, u.policy);
      if aircraft != u.aircraft {
        emitted := ResetCockpitContext(u.now, u.policy);
      }
      var state := Seen(true, u.aircraft, u.phase, u.usable);
      aircraft, connected := u.aircraft, true;
      var finished := ObserveFlight(state);
      if finished.Err? {
        return SummaryRefused, emitted;
      }
      var evaluated := DriveEngine(Evaluation(state, u.verdicts, u.now), u.policy);
      assert old(log) + (emitted + evaluated) == (old(log) + emitted) + evaluated;
      return Returned(finished.value), emitted + evaluated;
    }
  }
}
