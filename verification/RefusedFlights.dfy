/**
  A flight whose summary is refused can be flown: one undebounced habit rule, violated and clear in turn,
  is activated once for each pair of updates, and after more than a hundred of them no change of aircraft succeeds.
 */
module RefusedFlights {
  import opened Wrappers
  import opened InsertionDict
  import opened Rules
  import opened RuleEngine
  import opened Events
  import opened Habits
  import opened StateStore
  import opened StoreTheorems

  /** A store with one rule, and what each update of the flight brings. */
  datatype Sortie = Sortie(
    rule: Rule, aircraft: string, phase: FlightPhase, usable: set<string>, violation: Violation, policy: Policy)

  ghost predicate Restless(c: Sortie) {
    && c.rule.id in HABIT_RULES && c.rule.debounceOn <= 0.0 && c.rule.debounceOff <= 0.0
    && Applicable(c.rule, State(c)) && !IsBlank(c.aircraft) && |c.aircraft| <= 64
  }

  function Rig(c: Sortie): StateStore.Config {
    StateStore.Config([c.rule], 1, 1)
  }

  function State(c: Sortie): Seen {
    Seen(true, Some(c.aircraft), c.phase, c.usable)
  }

  function Answer(violation: Option<Violation>): Verdicts {
    (id, active) => violation
  }

  function Told(c: Sortie, violated: bool): Update {
    Update(Some(c.aircraft), true, c.phase, c.usable, Answer(if violated then Some(c.violation) else None), c.policy,
           0.0)
  }

  /** The rule is violated and clear in turn, `n` times. */
  function Turns(c: Sortie, n: nat): seq<Update> {
    if n == 0 then [] else Turns(c, n - 1) + [Told(c, true), Told(c, false)]
  }

  ghost predicate Settled(c: Sortie, s: Store, active: bool, n: nat) {
    && HasRuntimes(Rig(c), s)
    && s.runtimes[c.rule.id].candidate.None? && s.runtimes[c.rule.id].issue.Some? == active
    && (active ==> s.runtimes[c.rule.id].issue.value.ruleId == c.rule.id)
    && (s == Opened(Rig(c)) || (s.aircraft == s.stats.aircraft == Some(c.aircraft) && s.stats.covered == {c.rule.id}))
    && CountOf(s.stats.activations, c.rule.id) == n
  }

  lemma OneRule(rule: Rule, runtimes: Runtimes, input: Input)
    requires rule.id in runtimes
    ensures
      var (stepped, t) := Step(rule, runtimes[rule.id], input);
      StepAll([rule], runtimes, input) == (runtimes[rule.id := stepped], Listed(t))
  {
    hide Step;
    var (stepped, t) := Step(rule, runtimes[rule.id], input);
    assert [rule][1..] == [] && StepAll([], runtimes[rule.id := stepped], input) == (runtimes[rule.id := stepped], []);
    assert Listed(t) + [] == Listed(t);
  }

  /** The cockpit is at most opened anew, and the flight covers the rule. */
  lemma {:induction false} BoardedFlight(c: Sortie, s: Store, active: bool, n: nat)
    requires Restless(c) && Settled(c, s, active, n)
    ensures
      var u := Told(c, true);
      var cleared := if s.aircraft != u.aircraft then ResetContext(Rig(c), s, u.now, u.policy) else s;
      var r := ObserveStats(Rig(c), cleared.(aircraft := u.aircraft, connected := true), State(c));
      && r.Ok? && HasRuntimes(Rig(c), r.value.0)
      && r.value.0.aircraft == r.value.0.stats.aircraft == Some(c.aircraft)
      && r.value.0.stats.covered == {c.rule.id} && r.value.0.runtimes == s.runtimes
      && CountOf(r.value.0.stats.activations, c.rule.id) == n
  {
    hide Applicable, IsBlank, HandleAll;
    OneRule(c.rule, s.runtimes, ResetAt(0.0));
    assert Evaluable([c.rule], State(c)) == {c.rule.id};
  }

  lemma {:induction false} Counted(stats: Stats, t: Option<Transition>, id: string)
    requires stats.aircraft.Some? && id in stats.covered && (t.Some? ==> t.value.issue.ruleId == id)
    ensures
      var after := OnTransitions(stats, Listed(t));
      && after == stats.(activations := after.activations)
      && CountOf(after.activations, id) == CountOf(stats.activations, id) + if t.Some?
         && t.value.kind == Activated then 1 else 0
  {
    if t.Some? {
      assert [t.value][..0] == [];
    }
  }

  lemma {:induction false} TurnStep(c: Sortie, s: Store, active: bool, n: nat)
    requires Restless(c) && Settled(c, s, active, n)
    ensures Settled(c, Apply(Rig(c), s, Told(c, !active)).0, !active, if active then n else n + 1)
  {
    hide Applicable, IsBlank, HandleAll, StepAll, ObserveStats, ResetContext, OnTransitions;
    BoardedFlight(c, s, active, n);
    var u := Told(c, !active);
    var cleared := if s.aircraft != u.aircraft then ResetContext(Rig(c), s, u.now, u.policy) else s;
    var boarded := ObserveStats(Rig(c), cleared.(aircraft := u.aircraft, connected := true), State(c)).value.0;
    var input := Evaluation(State(c), u.verdicts, 0.0);
    OneRule(c.rule, boarded.runtimes, input);
    StepFits(c.rule, boarded.runtimes[c.rule.id], input);
    Counted(boarded.stats, Step(c.rule, boarded.runtimes[c.rule.id], input).1, c.rule.id);
  }

  lemma {:induction false} TurnsStep(c: Sortie, n: nat)
    requires n > 0
    ensures
      var all := Turns(c, n);
      && |all| > 1 && all[|all| - 1] == Told(c, false) && all[..|all| - 1][|all| - 2] == Told(c, true)
      && all[..|all| - 1][..|all| - 2] == Turns(c, n - 1)
  {
    var all := Turns(c, n);
    assert all[..|all| - 1] == Turns(c, n - 1) + [Told(c, true)];
  }

  lemma {:induction false} TurnsSettle(c: Sortie, n: nat)
    requires Restless(c)
    ensures Settled(c, Run(Rig(c), Turns(c, n)), false, n)
    ensures n > 0 ==> Run(Rig(c), Turns(c, n)).stats.aircraft == Some(c.aircraft)
  {
    hide Restless, Apply;
    if n > 0 {
      TurnsStep(c, n);
      TurnsSettle(c, n - 1);
      var all := Turns(c, n);
      TurnStep(c, Run(Rig(c), Turns(c, n - 1)), false, n - 1);
      TurnStep(c, Run(Rig(c), all[..|all| - 1]), true, n);
      NoFlightNoTurns(c, Run(Rig(c), all), n);
    }
  }

  lemma NoFlightNoTurns(c: Sortie, s: Store, n: nat)
    requires Settled(c, s, false, n) && n > 0
    ensures s.stats.aircraft == Some(c.aircraft)
  {
  }

  /** After `n` activations, leaving the aircraft is refused exactly when `n` is above a hundred. */
  lemma {:induction false} RefusedAfterHundred(c: Sortie, n: nat, u: Update)
    requires Restless(c) && n > 0 && FlightAircraft(u) != Some(c.aircraft)
    ensures
      var s := Run(Rig(c), Turns(c, n));
      Apply(Rig(c), s, u).1 ==
      if n > 100 then SummaryRefused else Returned(Some(Summary(s.stats.nextId, c.aircraft, map[c.rule.id := n])))
  {
    hide Apply, Run, Applicable, IsBlank, Turns, FlightReport, SummaryIsLegal, SummaryOf, Inv, Settled;
    var s := Run(Rig(c), Turns(c, n));
    TurnsSettle(c, n);
    SummaryOfTurns(c, s, n);
    HabitCountsAreConserved(Rig(c), Turns(c, n), u);
    RunKeepsInv(Rig(c), Turns(c, n));
    InvCounts(Rig(c), s);
    FinishReportsFlight(s.stats, [c.rule], s.flight, 1);
    LegalUpToHundred(c, s.stats.nextId, n);
  }

  lemma InvCounts(cfg: StateStore.Config, s: Store)
    requires Inv(cfg, s)
    ensures Counts(s.stats, cfg.rules, s.flight)
  {
  }

  lemma SummaryOfTurns(c: Sortie, s: Store, n: nat)
    requires Settled(c, s, false, n) && n > 0
    ensures s.stats.aircraft.Some? && SummaryOf(s.stats) == Summary(s.stats.nextId, c.aircraft, map[c.rule.id := n])
  {
  }

  lemma LegalUpToHundred(c: Sortie, id: nat, n: nat)
    requires Restless(c)
    ensures SummaryIsLegal(Summary(id, c.aircraft, map[c.rule.id := n])) <==> n <= 100
  {
    hide Applicable, IsBlank;
    var activations: map<string, nat> := map[c.rule.id := n];
    assert activations.Keys == {c.rule.id} && |activations| == |activations.Keys|;
    assert activations[c.rule.id] == n;
  }

  ghost predicate Refuses(cfg: StateStore.Config, s: Store, u: Update) {
    HasRuntimes(cfg, s) && Apply(cfg, s, u).1 == SummaryRefused
  }

  /** After this run the update is refused, and so is every later change of aircraft. */
  ghost predicate Stuck(cfg: StateStore.Config, updates: seq<Update>, u: Update) {
    && NoDuplicates(Ids(cfg.rules)) && cfg.historySize > 0
    && Refuses(cfg, Run(cfg, updates), u)
    && forall v: Update :: FlightAircraft(v) != Run(cfg, updates).stats.aircraft ==>
         Refuses(cfg, Apply(cfg, Run(cfg, updates), u).0, v)
  }

  lemma {:induction false} MoreThanHundredIsStuck(c: Sortie, n: nat, u: Update)
    requires Restless(c) && n > 100 && FlightAircraft(u) != Some(c.aircraft)
    ensures Stuck(Rig(c), Turns(c, n), u)
  {
    hide Restless, Turns, Run, Apply;
    RefusedAfterHundred(c, n, u);
    var s := Run(Rig(c), Turns(c, n));
    forall v: Update | FlightAircraft(v) != s.stats.aircraft ensures Refuses(Rig(c), Apply(Rig(c), s, u).0, v) {
      RefusalSticks(Rig(c), Turns(c, n), u, v);
    }
  }

  /** Some run of a store gets there. */
  lemma RefusalIsReachable()
    ensures exists cfg, updates, u :: Stuck(cfg, updates, u)
  {
    hide Stuck, Turns;
    var c := SomeSortie();
    var u := Update(None, false, UnknownPhase, {}, Answer(None), c.policy, 0.0);
    MoreThanHundredIsStuck(c, 101, u);
  }

  lemma SomeSortie() returns (c: Sortie)
    ensures Restless(c)
  {
    var rule := Rule("FA18_MASTER_CAUTION", Warning, 0.0, 0.0, 0.0, {}, None, None, map[]);
    c := Sortie(rule, "FA-18C_hornet", UnknownPhase, {}, Violation("", "", map[]), _ => false);
    assert HABIT_RULES[0] == rule.id;
    assert c.aircraft[0] == 'F' && 'F' in c.aircraft && !IsBlankChar('F');
  }
}
