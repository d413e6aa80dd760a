/**
  The order in which one update of the aircraft state drives the rule engine, the event manager and the
  flight statistics (cloud/dcs_copilot_cloud/state/store.py). The adapters, the phase detector, the history
  and the checklist engine are not driven here: the normalized state they produce is an input.

  A run is a list of updates from a store that has just been opened; the invariant it keeps ties the engine's
  issues, the open event identifiers and the flight's counts to the history of inputs and emitted events.
 */
module StateStore {
  import opened Wrappers
  import opened InsertionDict
  import opened Rules
  import opened RuleEngine
  import opened Events
  import opened Habits

  datatype Config = Config(rules: seq<Rule>, historySize: nat, pendingLimit: nat)

  /**
    `inputs`, `asked`, `log` and `flight` only record history: what the engine was asked, every transition it
    reported with the answer of the speech policy then in force, every event ever emitted, and the updates and
    transitions of the flight under way.
   */
  datatype Store = Store(
    aircraft: Option<string>,
    connected: bool,
    runtimes: Runtimes,
    events: Manager,
    stats: Stats,
    inputs: seq<Input>,
    asked: seq<Asked>,
    log: seq<Managed>,
    flight: Flight)

  datatype Asked = Asked(transition: Transition, allowed: bool)

  function AskedAll(transitions: seq<Transition>, policy: Policy): seq<Asked> {
    seq(|transitions|, i requires 0 <= i < |transitions| => Asked(transitions[i], policy(transitions[i])))
  }

  /** One update's arguments, with the normalized state and the rules' answers it will meet. */
  datatype Update = Update(
    aircraft: Option<string>, connected: bool, phase: FlightPhase, usable: set<string>, verdicts: Verdicts,
    policy: Policy, now: real)

  datatype Outcome = Returned(summary: Option<Summary>) | SummaryRefused

  function Opened(cfg: Config): Store {
    Store(None, false, AllIdle(cfg.rules), NoEvents(), NoStats(), [], [], [], Flight([], []))
  }

  predicate HasRuntimes(cfg: Config, s: Store) {
    forall r :: r in cfg.rules ==> r.id in s.runtimes
  }

  /** The engine takes one input; each transition goes to the event manager and then to the statistics. */
  function Drive(cfg: Config, s: Store, input: Input, policy: Policy): Store
    requires HasRuntimes(cfg, s)
  {
    var (runtimes, transitions) := StepAll(cfg.rules, s.runtimes, input);
    var (events, emitted) := HandleAll(s.events, transitions, policy, cfg.historySize);
    s.(runtimes := runtimes, events := events, stats := OnTransitions(s.stats, transitions),
       inputs := s.inputs + [input], asked := s.asked + AskedAll(transitions, policy), log := s.log + emitted,
       flight := if s.stats.aircraft.Some? then s.flight.(transitions := s.flight.transitions + transitions)
                 else s.flight)
  }

  function ResetContext(cfg: Config, s: Store, now: real, policy: Policy): Store
    requires HasRuntimes(cfg, s)
  {
    var driven := Drive(cfg, s, ResetAt(now), policy);
    driven.(events := ResetEvents(driven.events, true))
  }

  /** Err when the summary of the flight that ends here is refused. */
  function ObserveStats(cfg: Config, s: Store, state: Seen): Result<(Store, Option<Summary>)> {
    match Observe(s.stats, cfg.rules, state, cfg.pendingLimit)
    case Err => Err
    case Ok((stats, summary)) =>
      var flight := if stats.aircraft != s.stats.aircraft then Flight([], []) else s.flight;
      Ok((s.(stats := stats, flight := if stats.aircraft.Some? then flight.(seen := flight.seen + [state])
                                       else flight), summary))
  }

  function Apply(cfg: Config, s: Store, u: Update): (Store, Outcome)
    requires HasRuntimes(cfg, s)
  {
    if !u.connected then
      match ObserveStats(cfg, s, Seen(false, u.aircraft, UnknownPhase, {}))
      case Err => (s, SummaryRefused)
      case Ok((observed, summary)) =>
        (ResetContext(cfg, observed.(aircraft := u.aircraft, connected := false), u.now, u.policy), Returned(summary))
    else
      ResetKeepsRuntimes(cfg, s, u.now, u.policy);
      var cleared := if s.aircraft != u.aircraft then ResetContext(cfg, s, u.now, u.policy) else s;
      var state := Seen(true, u.aircraft, u.phase, u.usable);
      var current := cleared.(aircraft := u.aircraft, connected := true);
      match ObserveStats(cfg, current, state)
      case Err => (current, SummaryRefused)
      case Ok((observed, summary)) =>
        (Drive(cfg, observed, Evaluation(state, u.verdicts, u.now), u.policy), Returned(summary))
  }

  lemma ResetKeepsRuntimes(cfg: Config, s: Store, now: real, policy: Policy)
    requires HasRuntimes(cfg, s)
    ensures HasRuntimes(cfg, ResetContext(cfg, s, now, policy))
  {
    StepAllKeys(cfg.rules, s.runtimes, ResetAt(now));
  }

  lemma {:induction false} StepAllKeys(rules: seq<Rule>, runtimes: Runtimes, input: Input)
    requires forall r :: r in rules ==> r.id in runtimes
    ensures StepAll(rules, runtimes, input).0.Keys == runtimes.Keys
    decreases |rules|
  {
    if rules != [] {
      StepAllKeys(rules[1..], runtimes[rules[0].id := Step(rules[0], runtimes[rules[0].id], input).0], input);
    }
  }

  // ----- invariants

  /** The open identifiers match the active issues one for one. */
  ghost predicate OpenMatchesActive(s: Store) {
    forall id :: id in s.events.active <==> id in s.runtimes && s.runtimes[id].issue.Some?
  }

  ghost predicate Inv(cfg: Config, s: Store) {
    && NoDuplicates(Ids(cfg.rules)) && cfg.historySize > 0
    && s.runtimes == Operate(cfg.rules, s.inputs).0
    && OpenMatchesActive(s) && Remembering(s.events, s.log, cfg.historySize)
    && Counts(s.stats, cfg.rules, s.flight)
  }

  lemma OpenedInv(cfg: Config)
    requires NoDuplicates(Ids(cfg.rules)) && cfg.historySize > 0
    ensures Inv(cfg, Opened(cfg))
  {
  }

  lemma InvHasRuntimes(cfg: Config, s: Store)
    requires Inv(cfg, s)
    ensures HasRuntimes(cfg, s) && Owned(s.runtimes)
    ensures forall r :: r in cfg.rules ==> s.runtimes[r.id] == After(r, s.inputs)
  {
    EachRuleRunsAlone(cfg.rules, s.inputs);
  }

  // ----- the engine's transitions fit the open events

  /** A rule's step raises when it becomes active and closes when it stops being active. */
  lemma {:induction false} StepFits(rule: Rule, rt: Runtime, input: Input)
    requires rt.issue.Some? ==> rt.issue.value.ruleId == rule.id
    ensures
      var (after, t) := Step(rule, rt, input);
      && (t.Some? <==> after.issue.Some? != rt.issue.Some?)
      && (t.Some? ==> t.value.issue.ruleId == rule.id && (t.value.kind == Activated <==> rt.issue.None?))
  {
  }

  lemma {:induction false} HandleListed(m: Manager, t: Option<Transition>, rest: seq<Transition>, policy: Policy,
                                        capacity: nat)
    ensures
      var next := if t.Some? then Handle(m, t.value, policy, capacity).0 else m;
      var first := if t.Some? then [Handle(m, t.value, policy, capacity).1] else [];
      var (after, emitted) := HandleAll(next, rest, policy, capacity);
      HandleAll(m, Listed(t) + rest, policy, capacity) == (after, first + emitted)
  {
    hide Handle;
    if t.Some? {
      assert ([t.value] + rest)[1..] == rest;
    } else {
      assert [] + rest == rest;
      var emitted := HandleAll(m, rest, policy, capacity).1;
      assert [] + emitted == emitted;
    }
  }

  /** Handling one input's transitions keeps the log paired and the open events matching the active issues. */
  lemma {:induction false} DriveKeepsPairing(rules: seq<Rule>, runtimes: Runtimes, input: Input, m: Manager,
                                             log: seq<Managed>,
                                            policy: Policy, capacity: nat)
    requires capacity > 0 && Owned(runtimes) && forall r :: r in rules ==> r.id in runtimes
    requires Remembering(m, log, capacity)
    requires forall id :: id in m.active <==> id in runtimes && runtimes[id].issue.Some?
    ensures
      var (after, transitions) := StepAll(rules, runtimes, input);
      var (m', emitted) := HandleAll(m, transitions, policy, capacity);
      && Remembering(m', log + emitted, capacity)
      && (forall id :: id in m'.active <==> id in after && after[id].issue.Some?)
    decreases |rules|
  {
    hide Remembering, Step, Handle;
    if rules == [] {
      assert log + [] == log;
    } else {
      var r := rules[0];
      var (stepped, t) := Step(r, runtimes[r.id], input);
      StepFits(r, runtimes[r.id], input);
      StepKeepsOwner(r, runtimes[r.id], input);
      var next := runtimes[r.id := stepped];
      var rest := StepAll(rules[1..], next, input).1;
      HandleListed(m, t, rest, policy, capacity);
      if t.Some? {
        HandleKeepsPairing(m, log, t.value, policy, capacity);
        var (m1, e) := Handle(m, t.value, policy, capacity);
        DriveKeepsPairing(rules[1..], next, input, m1, log + [e], policy, capacity);
        var emitted := HandleAll(m1, rest, policy, capacity).1;
        assert log + ([e] + emitted) == (log + [e]) + emitted;
      } else {
        DriveKeepsPairing(rules[1..], next, input, m, log, policy, capacity);
        var emitted := HandleAll(m, rest, policy, capacity).1;
        assert log + ([] + emitted) == log + emitted;
      }
    }
  }

  // ----- the statistics see every activation

  /** Only rules that are evaluable right now can be activated. */
  lemma {:induction false} ActivatedIsEvaluable(rules: seq<Rule>, runtimes: Runtimes, input: Input, all: seq<Rule>)
    requires Owned(runtimes) && forall r :: r in rules ==> r.id in runtimes && r in all
    ensures forall t :: t in StepAll(rules, runtimes, input).1 && t.kind == Activated ==>
              input.Evaluation? && t.issue.ruleId in Evaluable(all, input.state)
    decreases |rules|
  {
    if rules != [] {
      var r := rules[0];
      var (stepped, t) := Step(r, runtimes[r.id], input);
      StepFits(r, runtimes[r.id], input);
      assert t.Some? && t.value.kind == Activated ==> input.Evaluation? && Applicable(r, input.state);
      hide Step, Applicable;
      ActivatedIsEvaluable(rules[1..], runtimes[r.id := stepped], input, all);
    }
  }

  lemma {:induction false} CountsThroughDrive(cfg: Config, s: Store, input: Input, policy: Policy)
    requires HasRuntimes(cfg, s) && Owned(s.runtimes) && Counts(s.stats, cfg.rules, s.flight)
    requires input.Evaluation? ==> Evaluable(cfg.rules, input.state) <= s.stats.covered
    ensures Counts(Drive(cfg, s, input, policy).stats, cfg.rules, Drive(cfg, s, input, policy).flight)
  {
    var ts := StepAll(cfg.rules, s.runtimes, input).1;
    ActivatedIsEvaluable(cfg.rules, s.runtimes, input, cfg.rules);
    hide StepAll, HandleAll, Evaluable;
    if s.stats.aircraft.Some? {
      OnTransitionsCounts(s.stats, ts);
      forall id ensures Activations(s.flight.transitions + ts, id) == Activations(s.flight.transitions, id)
          + Activations(ts, id) {
        ActivationsConcat(s.flight.transitions, ts, id);
      }
    } else {
      NoFlightNoCounts(s.stats, ts);
    }
  }

  lemma {:induction false} NoFlightNoCounts(s: Stats, ts: seq<Transition>)
    requires s.aircraft.None?
    ensures OnTransitions(s, ts) == s
    decreases |ts|
  {
    if ts != [] {
      NoFlightNoCounts(s, ts[..|ts| - 1]);
    }
  }

  /** After observing, the statistics follow the observed aircraft and cover what can be evaluated now. */
  lemma {:induction false} ObserveKeepsCounts(cfg: Config, s: Store, state: Seen)
    requires Counts(s.stats, cfg.rules, s.flight) && ObserveStats(cfg, s, state).Ok?
    ensures
      var after := ObserveStats(cfg, s, state).value.0;
      && Counts(after.stats, cfg.rules, after.flight)
      && after.stats.aircraft == (if state.connected then state.aircraft else None)
      && (after.stats.aircraft.Some? ==> Evaluable(cfg.rules, state) <= after.stats.covered)
      && after == s.(stats := after.stats, flight := after.flight)
  {
    hide Evaluable, Activations, EverEvaluable, Finish;
    FinishClears(s.stats, cfg.pendingLimit);
    EverEvaluableSnoc(cfg.rules, [], state);
    EverEvaluableSnoc(cfg.rules, s.flight.seen, state);
    NoActivations();
  }

  lemma FinishClears(s: Stats, limit: nat)
    requires s.aircraft.None? ==> s.covered == {} && s.activations == map[]
    ensures
      Finish(s, limit).Ok? ==>
        var after := Finish(s, limit).value.0;
        after.aircraft == None && after.covered == {} && after.activations == map[]
  {
    hide SummaryIsLegal, SummaryOf;
  }

  lemma NoActivations()
    ensures forall id :: Activations([], id) == 0
  {
  }

  lemma EverEvaluableSnoc(rules: seq<Rule>, seen: seq<Seen>, state: Seen)
    ensures EverEvaluable(rules, seen + [state]) == EverEvaluable(rules, seen) + Evaluable(rules, state)
    ensures EverEvaluable(rules, []) == {}
  {
    hide Judges, Applicable;
    var all := seen + [state];
    EvaluableIsJudged(rules, state);
    forall id | id in EverEvaluable(rules, seen) ensures id in EverEvaluable(rules, all) {
      var i, r :| 0 <= i < |seen| && r in rules && Judges(r, seen[i]) && r.id == id;
      assert all[i] == seen[i];
    }
    forall id | id in Evaluable(rules, state) ensures id in EverEvaluable(rules, all) {
      var r :| r in rules && Judges(r, state) && r.id == id;
      assert all[|seen|] == state;
    }
    forall id | id in EverEvaluable(rules, all) ensures id in EverEvaluable(rules, seen) + Evaluable(rules, state) {
      var i, r :| 0 <= i < |all| && r in rules && Judges(r, all[i]) && r.id == id;
      if i < |seen| {
        assert all[i] == seen[i];
      }
    }
  }

  // ----- steps and runs

  lemma {:induction false} DriveKeepsInv(cfg: Config, s: Store, input: Input, policy: Policy)
    requires Inv(cfg, s)
    requires input.Evaluation? ==> Evaluable(cfg.rules, input.state) <= s.stats.covered
    ensures HasRuntimes(cfg, s) && Inv(cfg, Drive(cfg, s, input, policy))
  {
    InvHasRuntimes(cfg, s);
    DriveKeepsPairing(cfg.rules, s.runtimes, input, s.events, s.log, policy, cfg.historySize);
    CountsThroughDrive(cfg, s, input, policy);
    assert (s.inputs + [input])[..|s.inputs|] == s.inputs;
    hide StepAll, HandleAll, OnTransitions, Counts, Remembering, Evaluable, NoDuplicates, Owned;
  }

  lemma ResetCloses(rule: Rule, rt: Runtime, now: real)
    ensures Step(rule, rt, ResetAt(now)).0.issue.None?
  {
  }

  lemma {:induction false} ResetClosesAll(rules: seq<Rule>, runtimes: Runtimes, now: real)
    requires Owned(runtimes) && NoDuplicates(Ids(rules)) && forall r :: r in rules ==> r.id in runtimes
    requires runtimes.Keys == AllIdle(rules).Keys
    ensures forall id :: id in StepAll(rules, runtimes, ResetAt(now)).0 ==>
            StepAll(rules, runtimes, ResetAt(now)).0[id].issue.None?
  {
    hide Step, StepAll, Owned, NoDuplicates;
    StepAllKeys(rules, runtimes, ResetAt(now));
    forall id | id in runtimes ensures StepAll(rules, runtimes, ResetAt(now)).0[id].issue.None? {
      var i :| 0 <= i < |rules| && Ids(rules)[i] == id;
      StepAllFor(rules, runtimes, ResetAt(now), rules[i]);
      ResetCloses(rules[i], runtimes[id], now);
    }
  }

  lemma {:induction false} ResetContextKeepsInv(cfg: Config, s: Store, now: real, policy: Policy)
    requires Inv(cfg, s)
    ensures HasRuntimes(cfg, s) && Inv(cfg, ResetContext(cfg, s, now, policy))
  {
    InvHasRuntimes(cfg, s);
    DriveKeepsInv(cfg, s, ResetAt(now), policy);
    var driven := Drive(cfg, s, ResetAt(now), policy);
    ResetClosesAll(cfg.rules, s.runtimes, now);
    assert driven.runtimes == StepAll(cfg.rules, s.runtimes, ResetAt(now)).0;
    hide Drive, StepAll, Operate, Counts, Remembering, NoDuplicates;
    assert driven.events.active == map[];
    ResetEventsRemembers(driven.events, driven.log, cfg.historySize);
  }

  lemma ResetEventsRemembers(m: Manager, log: seq<Managed>, capacity: nat)
    requires Remembering(m, log, capacity) && m.active == map[]
    ensures Remembering(ResetEvents(m, true), log, capacity)
  {
    assert log[|log|..] == [];
  }

  lemma {:induction false} ObservedInv(cfg: Config, s: Store, state: Seen)
    requires Inv(cfg, s) && ObserveStats(cfg, s, state).Ok?
    ensures Inv(cfg, ObserveStats(cfg, s, state).value.0)
    ensures state.connected ==> Evaluable(cfg.rules, state) <= ObserveStats(cfg, s, state).value.0.stats.covered
  {
    ObserveKeepsCounts(cfg, s, state);
    NoAircraftNothingEvaluable(cfg.rules, state);
    hide ObserveStats, Operate, Counts, Remembering, Evaluable, NoDuplicates;
  }

  lemma MovedInv(cfg: Config, s: Store, aircraft: Option<string>, connected: bool)
    requires Inv(cfg, s)
    ensures Inv(cfg, s.(aircraft := aircraft, connected := connected))
  {
  }

  lemma {:induction false} ApplyKeepsInv(cfg: Config, s: Store, u: Update)
    requires Inv(cfg, s)
    ensures HasRuntimes(cfg, s) && Inv(cfg, Apply(cfg, s, u).0)
  {
    InvHasRuntimes(cfg, s);
    hide Inv, Owned, ObserveStats, ResetContext, Drive, Evaluable;
    if !u.connected {
      var state := Seen(false, u.aircraft, UnknownPhase, {});
      if ObserveStats(cfg, s, state).Ok? {
        ObservedInv(cfg, s, state);
        var observed := ObserveStats(cfg, s, state).value.0;
        MovedInv(cfg, observed, u.aircraft, false);
        ResetContextKeepsInv(cfg, observed.(aircraft := u.aircraft, connected := false), u.now, u.policy);
      }
    } else {
      ResetContextKeepsInv(cfg, s, u.now, u.policy);
      var cleared := if s.aircraft != u.aircraft then ResetContext(cfg, s, u.now, u.policy) else s;
      var state := Seen(true, u.aircraft, u.phase, u.usable);
      var current := cleared.(aircraft := u.aircraft, connected := true);
      MovedInv(cfg, cleared, u.aircraft, true);
      if ObserveStats(cfg, current, state).Ok? {
        ObservedInv(cfg, current, state);
        DriveKeepsInv(cfg, ObserveStats(cfg, current, state).value.0, Evaluation(state, u.verdicts, u.now), u.policy);
      }
    }
  }

  lemma NoAircraftNothingEvaluable(rules: seq<Rule>, state: Seen)
    ensures state.aircraft.None? ==> Evaluable(rules, state) == {}
  {
  }

  /** The state after any run of updates. */
  ghost function Run(cfg: Config, updates: seq<Update>): (s: Store)
    requires NoDuplicates(Ids(cfg.rules)) && cfg.historySize > 0
    ensures HasRuntimes(cfg, s)
    decreases |updates|
  {
    IdsCover(cfg.rules);
    if updates == [] then Opened(cfg)
    else
      var before := Run(cfg, updates[..|updates| - 1]);
      ApplyKeepsRuntimes(cfg, before, updates[|updates| - 1]);
      Apply(cfg, before, updates[|updates| - 1]).0
  }

  lemma {:induction false} ApplyKeepsRuntimes(cfg: Config, s: Store, u: Update)
    requires HasRuntimes(cfg, s)
    ensures HasRuntimes(cfg, Apply(cfg, s, u).0)
  {
    hide Observe;
    forall input: Input, runtimes: Runtimes | forall r :: r in cfg.rules ==> r.id in runtimes
      ensures StepAll(cfg.rules, runtimes, input).0.Keys == runtimes.Keys
    {
      StepAllKeys(cfg.rules, runtimes, input);
    }
    hide StepAll;
  }

  lemma {:induction false} RunKeepsInv(cfg: Config, updates: seq<Update>)
    requires NoDuplicates(Ids(cfg.rules)) && cfg.historySize > 0
    ensures Inv(cfg, Run(cfg, updates))
    decreases |updates|
  {
    OpenedInv(cfg);
    hide Inv, Apply, Opened;
    if updates != [] {
      RunKeepsInv(cfg, updates[..|updates| - 1]);
      ApplyKeepsInv(cfg, Run(cfg, updates[..|updates| - 1]), updates[|updates| - 1]);
    }
  }

  /** The aircraft whose flight an update begins or continues. */
  function FlightAircraft(u: Update): Option<string> {
    if u.connected then u.aircraft else None
  }

  lemma ObserveReports(cfg: Config, s: Store, state: Seen)
    ensures
      var r := ObserveStats(cfg, s, state);
      if s.stats.aircraft.None? || s.stats.aircraft == (if state.connected then state.aircraft else None) then r.Ok?
          && r.value.1 == None
      else
        && (r.Ok? <==> Finish(s.stats, cfg.pendingLimit).Ok?)
        && (r.Ok? ==> r.value.1 == Finish(s.stats, cfg.pendingLimit).value.1)
  {
  }

  /** Resetting the cockpit context activates nothing, so it changes no count. */
  lemma {:induction false} ResetKeepsReport(cfg: Config, s: Store, now: real, policy: Policy)
    requires HasRuntimes(cfg, s) && Owned(s.runtimes)
    ensures ResetContext(cfg, s, now, policy).stats == s.stats
  {
    ActivatedIsEvaluable(cfg.rules, s.runtimes, ResetAt(now), cfg.rules);
    OnlyActivationsCount(s.stats, StepAll(cfg.rules, s.runtimes, ResetAt(now)).1);
  }

  lemma {:induction false} ApplyRefused(cfg: Config, s: Store, u: Update)
    requires HasRuntimes(cfg, s) && Owned(s.runtimes) && Apply(cfg, s, u).1 == SummaryRefused
    ensures Finish(s.stats, cfg.pendingLimit).Err? && Apply(cfg, s, u).0.stats == s.stats
  {
    ResetKeepsReport(cfg, s, u.now, u.policy);
    hide Owned, ResetContext, Drive, SummaryIsLegal, SummaryOf;
  }

  // ----- every transition is told, and told rightly

  /** What an event says of a transition; `allowed` is the speech policy's answer, which only matters for a raise. */
  ghost predicate Says(e: Managed, a: Asked) {
    var t := a.transition;
    && e.event.ruleId == t.issue.ruleId && e.event.severity == t.issue.severity && e.event.aircraft == t.issue.aircraft
    && e.event.message == t.issue.message && e.event.data == t.issue.data && e.observedAt == t.timestamp
    && e.event.phase == (if t.issue.phase == UnknownPhase then None else Some(t.issue.phase))
    && (if t.kind == Activated then e.event.status == Raised && e.publish == a.allowed && e.speak == a.allowed
        else e.event.status == Closed(t.kind) && !e.speak)
  }

  ghost predicate TellsAll(log: seq<Managed>, asked: seq<Asked>) {
    |log| == |asked| && forall i :: 0 <= i < |log| ==> Says(log[i], asked[i])
  }

  lemma {:induction false} HandledIsTold(m: Manager, transitions: seq<Transition>, policy: Policy, capacity: nat)
    ensures TellsAll(HandleAll(m, transitions, policy, capacity).1, AskedAll(transitions, policy))
    decreases |transitions|
  {
    if transitions != [] {
      var (next, e) := Handle(m, transitions[0], policy, capacity);
      HandledIsTold(next, transitions[1..], policy, capacity);
      assert AskedAll(transitions[1..], policy) == AskedAll(transitions, policy)[1..];
      assert Says(e, AskedAll(transitions, policy)[0]);
      hide Handle, Says;
    }
  }

  function Transitions(asked: seq<Asked>): seq<Transition> {
    seq(|asked|, i requires 0 <= i < |asked| => asked[i].transition)
  }

  /** The log tells, one by one, the transitions the engine reported for the inputs so far. */
  ghost predicate Told(cfg: Config, s: Store) {
    && TellsAll(s.log, s.asked)
    && (s.runtimes, Transitions(s.asked)) == Operate(cfg.rules, s.inputs)
  }

  lemma ToldConcat(log: seq<Managed>, asked: seq<Asked>, more: seq<Managed>, transitions: seq<Transition>,
                   policy: Policy)
    requires TellsAll(log, asked) && TellsAll(more, AskedAll(transitions, policy))
    ensures TellsAll(log + more, asked + AskedAll(transitions, policy))
    ensures Transitions(asked + AskedAll(transitions, policy)) == Transitions(asked) + transitions
  {
    hide Says;
  }

  lemma {:induction false} DriveTells(cfg: Config, s: Store, input: Input, policy: Policy)
    requires HasRuntimes(cfg, s) && Told(cfg, s)
    ensures Told(cfg, Drive(cfg, s, input, policy))
  {
    hide StepAll, HandleAll, TellsAll, AskedAll, Transitions;
    var ts := StepAll(cfg.rules, s.runtimes, input).1;
    HandledIsTold(s.events, ts, policy, cfg.historySize);
    ToldConcat(s.log, s.asked, HandleAll(s.events, ts, policy, cfg.historySize).1, ts, policy);
    assert (s.inputs + [input])[..|s.inputs|] == s.inputs;
  }

  lemma {:induction false} ApplyTells(cfg: Config, s: Store, u: Update)
    requires HasRuntimes(cfg, s) && Told(cfg, s)
    ensures Told(cfg, Apply(cfg, s, u).0)
  {
    hide Drive, TellsAll, Observe, Operate, Transitions;
    ResetKeepsRuntimes(cfg, s, u.now, u.policy);
    DriveTells(cfg, s, ResetAt(u.now), u.policy);
    if u.connected {
      var cleared := if s.aircraft != u.aircraft then ResetContext(cfg, s, u.now, u.policy) else s;
      var state := Seen(true, u.aircraft, u.phase, u.usable);
      var r := ObserveStats(cfg, cleared.(aircraft := u.aircraft, connected := true), state);
      if r.Ok? {
        DriveTells(cfg, r.value.0, Evaluation(state, u.verdicts, u.now), u.policy);
      }
    } else {
      var r := ObserveStats(cfg, s, Seen(false, u.aircraft, UnknownPhase, {}));
      if r.Ok? {
        DriveTells(cfg, r.value.0.(aircraft := u.aircraft, connected := false), ResetAt(u.now), u.policy);
      }
    }
  }

  lemma {:induction false} RunTells(cfg: Config, updates: seq<Update>)
    requires NoDuplicates(Ids(cfg.rules)) && cfg.historySize > 0
    ensures Told(cfg, Run(cfg, updates))
    decreases |updates|
  {
    hide Apply, Told;
    if updates == [] {
      NothingTold(cfg);
    } else {
      RunTells(cfg, updates[..|updates| - 1]);
      ApplyTells(cfg, Run(cfg, updates[..|updates| - 1]), updates[|updates| - 1]);
    }
  }

  lemma NothingTold(cfg: Config)
    ensures Told(cfg, Opened(cfg))
  {
    assert Transitions([]) == [];
  }

  // ----- an aircraft's issues are its own

  /** Every active issue is about the aircraft in use. */
  ghost predicate Homed(runtimes: Runtimes, home: Option<string>) {
    forall id :: id in runtimes && runtimes[id].issue.Some? ==> Some(runtimes[id].issue.value.aircraft) == home
  }

  lemma {:induction false} StepAllHomed(rules: seq<Rule>, runtimes: Runtimes, input: Input, home: Option<string>)
    requires Homed(runtimes, home) && forall r :: r in rules ==> r.id in runtimes
    requires input.Evaluation? ==> input.state.aircraft == home
    ensures Homed(StepAll(rules, runtimes, input).0, home)
    decreases |rules|
  {
    if rules != [] {
      var stepped := Step(rules[0], runtimes[rules[0].id], input).0;
      StepHomed(rules[0], runtimes[rules[0].id], input, home);
      StepAllHomed(rules[1..], runtimes[rules[0].id := stepped], input, home);
      hide Step;
    }
  }

  lemma StepHomed(rule: Rule, rt: Runtime, input: Input, home: Option<string>)
    requires rt.issue.Some? ==> Some(rt.issue.value.aircraft) == home
    requires input.Evaluation? ==> input.state.aircraft == home
    ensures
      var after := Step(rule, rt, input).0;
      after.issue.Some? ==> Some(after.issue.value.aircraft) == home
  {
  }

  ghost predicate Home(s: Store) {
    Homed(s.runtimes, if s.connected then s.aircraft else None)
  }

  lemma {:induction false} ResetHomed(cfg: Config, s: Store, now: real, policy: Policy, home: Option<string>)
    requires Inv(cfg, s)
    ensures HasRuntimes(cfg, s)
    ensures
      var after := ResetContext(cfg, s, now, policy);
      Homed(after.runtimes, home) && after.aircraft == s.aircraft && after.connected == s.connected
  {
    hide StepAll, Operate, Counts, Remembering, NoDuplicates, HandleAll;
    InvHasRuntimes(cfg, s);
    ResetClosesAll(cfg.rules, s.runtimes, now);
  }

  lemma {:induction false} ApplyHomed(cfg: Config, s: Store, u: Update)
    requires Inv(cfg, s) && Home(s)
    ensures HasRuntimes(cfg, s) && Home(Apply(cfg, s, u).0)
  {
    hide Inv, Drive, Observe, Homed;
    InvHasRuntimes(cfg, s);
    ResetKeepsRuntimes(cfg, s, u.now, u.policy);
    if u.connected {
      ResetHomed(cfg, s, u.now, u.policy, u.aircraft);
      var cleared := if s.aircraft != u.aircraft then ResetContext(cfg, s, u.now, u.policy) else s;
      NobodyHomed(s.runtimes, u.aircraft);
      var state := Seen(true, u.aircraft, u.phase, u.usable);
      var r := ObserveStats(cfg, cleared.(aircraft := u.aircraft, connected := true), state);
      if r.Ok? {
        DriveHomed(cfg, r.value.0, Evaluation(state, u.verdicts, u.now), u.policy, u.aircraft);
      }
    } else {
      var r := ObserveStats(cfg, s, Seen(false, u.aircraft, UnknownPhase, {}));
      if r.Ok? {
        ObservedInv(cfg, s, Seen(false, u.aircraft, UnknownPhase, {}));
        MovedInv(cfg, r.value.0, u.aircraft, false);
        ResetHomed(cfg, r.value.0.(aircraft := u.aircraft, connected := false), u.now, u.policy, None);
      }
    }
  }

  lemma NobodyHomed(runtimes: Runtimes, home: Option<string>)
    ensures Homed(runtimes, None) ==> Homed(runtimes, home)
  {
  }

  lemma DriveHomed(cfg: Config, s: Store, input: Input, policy: Policy, home: Option<string>)
    requires HasRuntimes(cfg, s) && Homed(s.runtimes, home)
    requires input.Evaluation? ==> input.state.aircraft == home
    ensures
      var after := Drive(cfg, s, input, policy);
      Homed(after.runtimes, home) && after.aircraft == s.aircraft && after.connected == s.connected
  {
    hide StepAll, HandleAll, Homed;
    StepAllHomed(cfg.rules, s.runtimes, input, home);
  }

  lemma {:induction false} RunHomed(cfg: Config, updates: seq<Update>)
    requires NoDuplicates(Ids(cfg.rules)) && cfg.historySize > 0
    ensures Home(Run(cfg, updates))
    decreases |updates|
  {
    hide Inv, Apply, Home;
    if updates == [] {
      NobodyHome(cfg);
    } else {
      var front := updates[..|updates| - 1];
      RunKeepsInv(cfg, front);
      RunHomed(cfg, front);
      ApplyHomed(cfg, Run(cfg, front), updates[|updates| - 1]);
    }
  }

  lemma NobodyHome(cfg: Config)
    ensures Home(Opened(cfg))
  {
  }

  // ----- leaving an aircraft closes its issues first

  /** This event closes, as disabled at `now`, the event open for its rule. */
  ghost predicate ClosesOpen(e: Managed, active: map<string, nat>, now: real) {
    && e.event.status == Closed(Disabled) && e.observedAt == now && !e.speak
    && e.event.ruleId in active && e.event.id == active[e.event.ruleId]
  }

  lemma {:induction false} ResetEmits(rules: seq<Rule>, runtimes: Runtimes, now: real, m: Manager, policy: Policy,
                                      capacity: nat)
    requires Owned(runtimes) && NoDuplicates(Ids(rules)) && forall r :: r in rules ==> r.id in runtimes
    requires forall r :: r in rules ==> (r.id in m.active <==> runtimes[r.id].issue.Some?)
    ensures
      var emitted := HandleAll(m, StepAll(rules, runtimes, ResetAt(now)).1, policy, capacity).1;
      && (forall e :: e in emitted ==> ClosesOpen(e, m.active, now) && e.event.ruleId in Ids(rules))
      && (forall r :: r in rules && r.id in m.active ==> exists e :: e in emitted && e.event.ruleId == r.id)
    decreases |rules|
  {
    hide Handle, ClosesOpen, Step, NoDuplicates;
    if rules != [] {
      var r := rules[0];
      var (stepped, t) := Step(r, runtimes[r.id], ResetAt(now));
      var next := runtimes[r.id := stepped];
      NoDuplicatesTail(Ids(rules));
      IdsCover(rules[1..]);
      assert Ids(rules)[0] == r.id && Ids(rules)[1..] == Ids(rules[1..]);
      StepKeepsOwner(r, runtimes[r.id], ResetAt(now));
      ResetStep(r, runtimes[r.id], now);
      HandleListed(m, t, StepAll(rules[1..], next, ResetAt(now)).1, policy, capacity);
      if t.Some? {
        HandleDisabled(m, t.value, policy, capacity, now);
        var (m1, e) := Handle(m, t.value, policy, capacity);
        ResetEmits(rules[1..], next, now, m1, policy, capacity);
        var rest := HandleAll(m1, StepAll(rules[1..], next, ResetAt(now)).1, policy, capacity).1;
        forall x | x in [e] + rest ensures ClosesOpen(x, m.active, now) && x.event.ruleId in Ids(rules) {
          if x in rest {
            ClosesOthers(x, m1.active, m.active, now);
          }
        }
      } else {
        ResetEmits(rules[1..], next, now, m, policy, capacity);
      }
    }
  }

  lemma ResetStep(rule: Rule, rt: Runtime, now: real)
    requires rt.issue.Some? ==> rt.issue.value.ruleId == rule.id
    ensures
      var (after, t) := Step(rule, rt, ResetAt(now));
      && after.issue.None? && (t.Some? <==> rt.issue.Some?)
      && (t.Some? ==> t.value.kind == Disabled && t.value.timestamp == now && t.value.issue.ruleId == rule.id)
  {
  }

  lemma HandleDisabled(m: Manager, t: Transition, policy: Policy, capacity: nat, now: real)
    requires t.kind == Disabled && t.timestamp == now && t.issue.ruleId in m.active
    ensures
      var (after, e) := Handle(m, t, policy, capacity);
      ClosesOpen(e, m.active, now) && e.event.ruleId == t.issue.ruleId && after.active == m.active - {t.issue.ruleId}
  {
  }

  lemma ClosesOthers(e: Managed, fewer: map<string, nat>, active: map<string, nat>, now: real)
    requires ClosesOpen(e, fewer, now) && forall id :: id in fewer ==> id in active && active[id] == fewer[id]
    ensures ClosesOpen(e, active, now)
  {
  }

  /** An update that leaves the aircraft in use, or loses it, and is not refused before that. */
  predicate Leaves(s: Store, u: Update, outcome: Outcome) {
    if u.connected then s.aircraft != u.aircraft else outcome.Returned?
  }

  /** The first `n` events that an update adds close, as disabled at `now`, exactly the events open before it. */
  ghost predicate ClosesFirst(before: Store, after: Store, n: nat, now: real) {
    && |before.log| + n <= |after.log| && before.log == after.log[..|before.log|]
    && (forall i :: |before.log| <= i < |before.log| + n ==> ClosesOpen(after.log[i], before.events.active, now))
    && forall id :: id in before.events.active ==>
         exists i :: |before.log| <= i < |before.log| + n && after.log[i].event.ruleId == id
  }

  lemma {:induction false} ResetClosesFirst(cfg: Config, s: Store, now: real, policy: Policy) returns (n: nat)
    requires Inv(cfg, s)
    ensures HasRuntimes(cfg, s)
    ensures
      var after := ResetContext(cfg, s, now, policy);
      |after.log| == |s.log| + n && ClosesFirst(s, after, n, now)
  {
    hide Inv, StepAll, HandleAll, ClosesFirst, ClosesOpen, Owned, NoDuplicates;
    InvHasRuntimes(cfg, s);
    OnlyRulesAreOpen(cfg, s);
    ResetEmits(cfg.rules, s.runtimes, now, s.events, policy, cfg.historySize);
    var emitted := HandleAll(s.events, StepAll(cfg.rules, s.runtimes, ResetAt(now)).1, policy, cfg.historySize).1;
    n := |emitted|;
    EmittedFirst(cfg, s, ResetContext(cfg, s, now, policy), emitted, now);
  }

  lemma EmittedFirst(cfg: Config, s: Store, after: Store, emitted: seq<Managed>, now: real)
    requires after.log == s.log + emitted
    requires forall e :: e in emitted ==> ClosesOpen(e, s.events.active, now)
    requires forall id :: id in s.events.active ==> exists r :: r in cfg.rules && r.id == id
    requires forall r :: r in cfg.rules && r.id in s.events.active ==>
             exists e :: e in emitted && e.event.ruleId == r.id
    ensures ClosesFirst(s, after, |emitted|, now)
  {
    hide ClosesOpen;
    var n := |emitted|;
    forall i | |s.log| <= i < |s.log| + n ensures ClosesOpen(after.log[i], s.events.active, now) {
      assert after.log[i] == emitted[i - |s.log|] && emitted[i - |s.log|] in emitted;
    }
    forall id | id in s.events.active
      ensures exists i :: |s.log| <= i < |s.log| + n && after.log[i].event.ruleId == id
    {
      var r :| r in cfg.rules && r.id == id;
      var e :| e in emitted && e.event.ruleId == r.id;
      var k :| 0 <= k < |emitted| && emitted[k] == e;
      assert after.log[|s.log| + k] == e;
    }
  }

  lemma {:induction false} OnlyRulesAreOpen(cfg: Config, s: Store)
    requires Inv(cfg, s)
    ensures NoDuplicates(Ids(cfg.rules))
    ensures forall id :: id in s.events.active ==> exists r :: r in cfg.rules && r.id == id
    ensures forall id :: id in s.events.active <==> id in s.runtimes && s.runtimes[id].issue.Some?
  {
    hide Counts, Remembering, NoDuplicates, StepAll;
    forall id | id in s.events.active ensures exists r :: r in cfg.rules && r.id == id {
      assert id in AllIdle(cfg.rules).Keys;
      var i :| 0 <= i < |cfg.rules| && Ids(cfg.rules)[i] == id;
      assert cfg.rules[i] in cfg.rules;
    }
  }

  function Newest<T>(all: seq<T>, limit: nat): seq<T> {
    if |all| > limit then all[|all| - limit..] else all
  }

  /** Handled in turn, the events join the history, and the newest of all remain. */
  lemma {:induction false} HandledIsKept(m: Manager, transitions: seq<Transition>, policy: Policy, capacity: nat)
    requires |m.history| <= capacity
    ensures
      var (after, emitted) := HandleAll(m, transitions, policy, capacity);
      after.history == Newest(m.history + emitted, capacity)
    decreases |transitions|
  {
    hide Handle, Newest;
    if transitions == [] {
      assert m.history + [] == m.history;
      ShortIsKept(m.history, capacity);
    } else {
      var (next, e) := Handle(m, transitions[0], policy, capacity);
      OneIsKept(m, transitions[0], policy, capacity);
      HandledIsKept(next, transitions[1..], policy, capacity);
      var rest := HandleAll(next, transitions[1..], policy, capacity).1;
      assert m.history + ([e] + rest) == (m.history + [e]) + rest;
      NewestOfNewest(m.history + [e], rest, capacity);
    }
  }

  lemma OneIsKept(m: Manager, t: Transition, policy: Policy, capacity: nat)
    ensures
      var (after, e) := Handle(m, t, policy, capacity);
      after.history == Newest(m.history + [e], capacity) && |after.history| <= capacity
  {
    hide Describe;
  }

  lemma ShortIsKept<T>(s: seq<T>, limit: nat)
    requires |s| <= limit
    ensures Newest(s, limit) == s
  {
  }

  lemma NewestOfNewest<T>(a: seq<T>, b: seq<T>, limit: nat)
    ensures Newest(Newest(a, limit) + b, limit) == Newest(a + b, limit)
  {
  }

  lemma DriveKeepsHistory(cfg: Config, s: Store, input: Input, policy: Policy)
    requires HasRuntimes(cfg, s) && |s.events.history| <= cfg.historySize
    ensures
      var after := Drive(cfg, s, input, policy);
      && s.log <= after.log
      && after.events.history == Newest(s.events.history + after.log[|s.log|..], cfg.historySize)
  {
    hide StepAll, HandleAll;
    var transitions := StepAll(cfg.rules, s.runtimes, input).1;
    HandledIsKept(s.events, transitions, policy, cfg.historySize);
    var emitted := HandleAll(s.events, transitions, policy, cfg.historySize).1;
    assert (s.log + emitted)[|s.log|..] == emitted;
  }

  lemma HistoryIsBounded(cfg: Config, s: Store)
    requires Inv(cfg, s)
    ensures |s.events.history| <= cfg.historySize
  {
  }

  /** An update that does not leave its aircraft adds its events to the history. */
  lemma {:induction false} StayingKeepsHistory(cfg: Config, s: Store, u: Update)
    requires Inv(cfg, s) && HasRuntimes(cfg, s) && !Leaves(s, u, Apply(cfg, s, u).1)
    ensures
      var after := Apply(cfg, s, u).0;
      && s.log <= after.log
      && after.events.history == Newest(s.events.history + after.log[|s.log|..], cfg.historySize)
  {
    hide Inv, Drive, Observe, ResetContext;
    HistoryIsBounded(cfg, s);
    assert s.log[|s.log|..] == [] && s.events.history + [] == s.events.history;
    if u.connected {
      var state := Seen(true, u.aircraft, u.phase, u.usable);
      var r := ObserveStats(cfg, s.(aircraft := u.aircraft, connected := true), state);
      if r.Ok? {
        DriveKeepsHistory(cfg, r.value.0, Evaluation(state, u.verdicts, u.now), u.policy);
      }
    }
  }

  lemma ClearedHistory(cfg: Config, s: Store, now: real, policy: Policy)
    requires HasRuntimes(cfg, s)
    ensures ResetContext(cfg, s, now, policy).events.history == []
  {
  }

  lemma {:induction false} LeavingClosesFirst(cfg: Config, s: Store, u: Update) returns (n: nat)
    requires Inv(cfg, s) && HasRuntimes(cfg, s) && Leaves(s, u, Apply(cfg, s, u).1)
    ensures ClosesFirst(s, Apply(cfg, s, u).0, n, u.now)
    ensures
      var after := Apply(cfg, s, u).0;
      && |s.log| + n <= |after.log|
      && after.events.history == Newest(after.log[|s.log| + n..], cfg.historySize)
  {
    hide Inv, Drive, Observe, ClosesOpen, ResetContext;
    ResetKeepsRuntimes(cfg, s, u.now, u.policy);
    if u.connected {
      n := ResetClosesFirst(cfg, s, u.now, u.policy);
      var cleared := ResetContext(cfg, s, u.now, u.policy);
      var state := Seen(true, u.aircraft, u.phase, u.usable);
      var r := ObserveStats(cfg, cleared.(aircraft := u.aircraft, connected := true), state);
      ClearedHistory(cfg, s, u.now, u.policy);
      assert cleared.log[|cleared.log|..] == [];
      if r.Ok? {
        DriveKeepsHistory(cfg, r.value.0, Evaluation(state, u.verdicts, u.now), u.policy);
        ClosesFirstThenMore(s, cleared, Apply(cfg, s, u).0, n, u.now);
      }
    } else {
      var state := Seen(false, u.aircraft, UnknownPhase, {});
      ObservedInv(cfg, s, state);
      var observed := ObserveStats(cfg, s, state).value.0;
      MovedInv(cfg, observed, u.aircraft, false);
      var moved := observed.(aircraft := u.aircraft, connected := false);
      n := ResetClosesFirst(cfg, moved, u.now, u.policy);
      ClearedHistory(cfg, moved, u.now, u.policy);
      var log := ResetContext(cfg, moved, u.now, u.policy).log;
      assert log[|log|..] == [];
    }
  }

  lemma ClosesFirstThenMore(s: Store, cleared: Store, after: Store, n: nat, now: real)
    requires ClosesFirst(s, cleared, n, now) && cleared.log <= after.log
    ensures ClosesFirst(s, after, n, now)
  {
    hide ClosesOpen;
    assert forall i :: 0 <= i < |cleared.log| ==> after.log[i] == cleared.log[i];
  }

  // ----- what is reported is kept until it is too old

  /** Every summary that the run's updates returned. */
  ghost function Summaries(cfg: Config, updates: seq<Update>): seq<Summary>
    requires NoDuplicates(Ids(cfg.rules)) && cfg.historySize > 0
    decreases |updates|
  {
    if updates == [] then []
    else
      var front := updates[..|updates| - 1];
      var outcome := Apply(cfg, Run(cfg, front), updates[|updates| - 1]).1;
      if outcome.Returned? && outcome.summary.Some? then Summaries(cfg, front) + [outcome.summary.value]
      else Summaries(cfg, front)
  }

  /** Statistics differ only in what the flight under way counts. */
  ghost predicate KeepsReports(before: Stats, after: Stats) {
    after.pending == before.pending && after.nextId == before.nextId
  }

  lemma {:induction false} CountingKeepsReports(s: Stats, ts: seq<Transition>)
    ensures KeepsReports(s, OnTransitions(s, ts))
    decreases |ts|
  {
    if ts != [] {
      CountingKeepsReports(s, ts[..|ts| - 1]);
    }
  }

  lemma DriveKeepsReports(cfg: Config, s: Store, input: Input, policy: Policy)
    requires HasRuntimes(cfg, s)
    ensures KeepsReports(s.stats, Drive(cfg, s, input, policy).stats)
  {
    hide StepAll, HandleAll;
    CountingKeepsReports(s.stats, StepAll(cfg.rules, s.runtimes, input).1);
  }

  lemma ObservationReports(cfg: Config, s: Store, state: Seen)
    ensures
      match ObserveStats(cfg, s, state)
      case Err => true
      case Ok((after, None)) => KeepsReports(s.stats, after.stats)
      case Ok((after, Some(summary))) =>
        && summary.id == s.stats.nextId && after.stats.nextId == s.stats.nextId + 1
        && after.stats.pending == Newest(s.stats.pending + [summary], cfg.pendingLimit)
  {
    hide SummaryIsLegal, Evaluable;
  }

  lemma {:induction false} ApplyReports(cfg: Config, s: Store, u: Update)
    requires HasRuntimes(cfg, s)
    ensures
      var (after, outcome) := Apply(cfg, s, u);
      if outcome.Returned? && outcome.summary.Some? then
        && outcome.summary.value.id == s.stats.nextId && after.stats.nextId == s.stats.nextId + 1
        && after.stats.pending == Newest(s.stats.pending + [outcome.summary.value], cfg.pendingLimit)
      else KeepsReports(s.stats, after.stats)
  {
    hide Drive, ObserveStats;
    ResetKeepsRuntimes(cfg, s, u.now, u.policy);
    DriveKeepsReports(cfg, s, ResetAt(u.now), u.policy);
    if u.connected {
      var cleared := if s.aircraft != u.aircraft then ResetContext(cfg, s, u.now, u.policy) else s;
      var current := cleared.(aircraft := u.aircraft, connected := true);
      var state := Seen(true, u.aircraft, u.phase, u.usable);
      ObservationReports(cfg, current, state);
      if ObserveStats(cfg, current, state).Ok? {
        ObservationKeepsRuntimes(cfg, current, state);
        DriveKeepsReports(cfg, ObserveStats(cfg, current, state).value.0, Evaluation(state, u.verdicts, u.now),
                          u.policy);
      }
    } else {
      var state := Seen(false, u.aircraft, UnknownPhase, {});
      ObservationReports(cfg, s, state);
      if ObserveStats(cfg, s, state).Ok? {
        ObservationKeepsRuntimes(cfg, s, state);
        DriveKeepsReports(cfg, ObserveStats(cfg, s, state).value.0.(aircraft := u.aircraft, connected := false),
                          ResetAt(u.now), u.policy);
      }
    }
  }

  lemma ObservationKeepsRuntimes(cfg: Config, s: Store, state: Seen)
    requires HasRuntimes(cfg, s) && ObserveStats(cfg, s, state).Ok?
    ensures HasRuntimes(cfg, ObserveStats(cfg, s, state).value.0)
  {
    hide Observe;
  }

  lemma {:induction false} RunReports(cfg: Config, updates: seq<Update>)
    requires NoDuplicates(Ids(cfg.rules)) && cfg.historySize > 0
    ensures
      var (stats, all) := (Run(cfg, updates).stats, Summaries(cfg, updates));
      && stats.pending == Newest(all, cfg.pendingLimit) && stats.nextId == |all|
      && forall i :: 0 <= i < |all| ==> all[i].id == i
    decreases |updates|
  {
    hide Apply;
    if updates == [] {
      NoReports(cfg);
    } else {
      var front := updates[..|updates| - 1];
      RunReports(cfg, front);
      ApplyReports(cfg, Run(cfg, front), updates[|updates| - 1]);
    }
  }

  lemma NoReports(cfg: Config)
    ensures Opened(cfg).stats.pending == [] && Opened(cfg).stats.nextId == 0
  {
  }
}
