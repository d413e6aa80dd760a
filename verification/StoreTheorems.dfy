/** What holds after every run of updates of the aircraft state store. */
module StoreTheorems {
  import opened Wrappers
  import opened InsertionDict
  import opened Rules
  import opened RuleEngine
  import opened Events
  import opened Habits
  import opened StateStore

  /**
    Event pairing: in every run each raise finds its rule closed and has an identifier of its own, each
    close repeats the identifier of the raise it closes and is published exactly when that was, and the
    open identifiers match the active issues one for one.
   */
  lemma {:induction false} EventsArePaired(cfg: Config, updates: seq<Update>)
    requires NoDuplicates(Ids(cfg.rules)) && cfg.historySize > 0
    ensures
      var s := Run(cfg, updates);
      && Paired(s.log)
      && (forall id :: id in s.events.active <==> id in s.runtimes && s.runtimes[id].issue.Some?)
      && (forall id :: id in s.events.active ==>
            OpenEvent(s.log, id).Some? && OpenEvent(s.log, id).value.event.id == s.events.active[id])
      && |s.events.history| <= cfg.historySize
  {
    RunKeepsInv(cfg, updates);
  }

  /**
    The event log tells the engine's transitions one by one, in order and in full; a raise is published and
    spoken exactly when the speech policy in force allowed it, and a close is never spoken.
   */
  lemma {:induction false} EventsTellTransitions(cfg: Config, updates: seq<Update>)
    requires NoDuplicates(Ids(cfg.rules)) && cfg.historySize > 0
    ensures
      var s := Run(cfg, updates);
      && |s.log| == |s.asked| && Transitions(s.asked) == Operate(cfg.rules, s.inputs).1
      && forall i :: 0 <= i < |s.log| ==> Says(s.log[i], s.asked[i])
  {
    RunTells(cfg, updates);
  }

  /** In every run an active issue is about the aircraft the store is connected to. */
  lemma {:induction false} IssuesAreHome(cfg: Config, updates: seq<Update>, id: string)
    requires NoDuplicates(Ids(cfg.rules)) && cfg.historySize > 0
    ensures
      var s := Run(cfg, updates);
      id in s.runtimes && s.runtimes[id].issue.Some? ==>
          s.connected && s.aircraft == Some(s.runtimes[id].issue.value.aircraft)
  {
    hide Run;
    RunHomed(cfg, updates);
  }

  /**
    After any run, an update that changes the aircraft or disconnects it first closes, as disabled at its own
    time, every event that is open, and closes nothing else with them. The history then starts anew with what
    the update adds to these; any other update adds its events to it. The newest `historySize` events are kept.
   */
  lemma {:induction false} LeavingClosesOpenEvents(cfg: Config, updates: seq<Update>, u: Update)
    requires NoDuplicates(Ids(cfg.rules)) && cfg.historySize > 0
    ensures
      var s := Run(cfg, updates);
      HasRuntimes(cfg, s) &&
      var (after, outcome) := Apply(cfg, s, u);
      && |s.log| <= |after.log|
      && if Leaves(s, u, outcome) then
           exists n :: && ClosesFirst(s, after, n, u.now) && |s.log| + n <= |after.log|
                       && after.events.history == Newest(after.log[|s.log| + n..], cfg.historySize)
         else after.events.history == Newest(s.events.history + after.log[|s.log|..], cfg.historySize)
  {
    hide Inv, Apply, ClosesFirst, Leaves;
    RunKeepsInv(cfg, updates);
    var s := Run(cfg, updates);
    if Leaves(s, u, Apply(cfg, s, u).1) {
      var n := LeavingClosesFirst(cfg, s, u);
    } else {
      StayingKeepsHistory(cfg, s, u);
    }
  }

  /** The pending summaries are the newest that updates returned, numbered in the order they were. */
  lemma {:induction false} PendingIsNewest(cfg: Config, updates: seq<Update>)
    requires NoDuplicates(Ids(cfg.rules)) && cfg.historySize > 0
    ensures
      var all := Summaries(cfg, updates);
      && Run(cfg, updates).stats.pending == Newest(all, cfg.pendingLimit)
      && forall i :: 0 <= i < |all| ==> all[i].id == i
  {
    RunReports(cfg, updates);
  }

  /**
    After any run, an update resets the engine when it changes the aircraft or disconnects it and evaluates the rules
    when it is connected, in this order, unless the summary of the flight it ends is refused: then it stops there.
   */
  lemma {:induction false} UpdatesAreInputs(cfg: Config, updates: seq<Update>, u: Update)
    requires NoDuplicates(Ids(cfg.rules)) && cfg.historySize > 0
    ensures
      var s := Run(cfg, updates);
      HasRuntimes(cfg, s) &&
      var (after, outcome) := Apply(cfg, s, u);
      var resets := if u.connected then s.aircraft != u.aircraft else outcome.Returned?;
      var evaluates := u.connected && outcome.Returned?;
      && after.inputs == s.inputs + (if resets then [ResetAt(u.now)] else [])
         + (if evaluates then [Evaluation(Seen(true, u.aircraft, u.phase, u.usable), u.verdicts, u.now)] else [])
      && (if u.connected || outcome.Returned? then (after.aircraft, after.connected) == (u.aircraft, u.connected)
          else after == s)
  {
    hide Inv, StepAll, HandleAll, OnTransitions, Observe, Run;
    RunKeepsInv(cfg, updates);
    InvHasRuntimes(cfg, Run(cfg, updates));
  }

  /** In every run of the store each rule's transitions alternate and follow the debounced history of its inputs. */
  lemma {:induction false} RulesFollowTheirHistory(cfg: Config, updates: seq<Update>, rule: Rule)
    requires NoDuplicates(Ids(cfg.rules)) && cfg.historySize > 0 && rule in cfg.rules
    ensures
      var s := Run(cfg, updates);
      && rule.id in s.runtimes
      && (s.runtimes[rule.id].issue.Some? <==> Active(rule, s.inputs))
      && (rule.id in s.events.active <==> Active(rule, s.inputs))
  {
    RunKeepsInv(cfg, updates);
    var s := Run(cfg, updates);
    InvHasRuntimes(cfg, s);
    LifecycleFollowsHistory(rule, s.inputs);
  }

  /**
    Habit counts are conserved: after any run, an update that leaves the flight's aircraft reports for every
    rule evaluable at some update of that flight exactly the activations the engine emitted for it in the
    flight, or raises when that report is not legal; every other update reports nothing.
   */
  lemma {:induction false} HabitCountsAreConserved(cfg: Config, updates: seq<Update>, u: Update)
    requires NoDuplicates(Ids(cfg.rules)) && cfg.historySize > 0
    ensures
      var s := Run(cfg, updates);
      HasRuntimes(cfg, s) &&
      var outcome := Apply(cfg, s, u).1;
      if s.stats.aircraft.None? || s.stats.aircraft == FlightAircraft(u) then outcome == Returned(None)
      else
        var report := FlightReport(s.stats.nextId, s.stats.aircraft.value, cfg.rules, s.flight);
        outcome == if SummaryIsLegal(report) then Returned(Some(report)) else SummaryRefused
  {
    RunKeepsInv(cfg, updates);
    var s := Run(cfg, updates);
    InvHasRuntimes(cfg, s);
    ResetKeepsRuntimes(cfg, s, u.now, u.policy);
    ResetKeepsReport(cfg, s, u.now, u.policy);
    if s.stats.aircraft.Some? {
      FinishReportsFlight(s.stats, cfg.rules, s.flight, cfg.pendingLimit);
    }
    hide Inv, Owned, ResetContext, Drive, Finish, SummaryIsLegal, FlightReport;
    if u.connected {
      var cleared := if s.aircraft != u.aircraft then ResetContext(cfg, s, u.now, u.policy) else s;
      ObserveReports(cfg, cleared.(aircraft := u.aircraft, connected := true),
                     Seen(true, u.aircraft, u.phase, u.usable));
    } else {
      ObserveReports(cfg, s, Seen(false, u.aircraft, UnknownPhase, {}));
    }
    hide ObserveStats;
  }

  /**
    A refused summary leaves the statistics as they were, so every later update of another aircraft is refused,
    too.
   */
  lemma {:induction false} RefusalSticks(cfg: Config, updates: seq<Update>, u: Update, v: Update)
    requires NoDuplicates(Ids(cfg.rules)) && cfg.historySize > 0
    requires HasRuntimes(cfg, Run(cfg, updates)) && Apply(cfg, Run(cfg, updates), u).1 == SummaryRefused
    requires FlightAircraft(v) != Run(cfg, updates).stats.aircraft
    ensures
      var after := Apply(cfg, Run(cfg, updates), u).0;
      && after.stats == Run(cfg, updates).stats
      && HasRuntimes(cfg, after) && Apply(cfg, after, v).1 == SummaryRefused
  {
    RunKeepsInv(cfg, updates);
    var s := Run(cfg, updates);
    InvHasRuntimes(cfg, s);
    ResetKeepsReport(cfg, s, u.now, u.policy);
    var after := Apply(cfg, s, u).0;
    ApplyKeepsInv(cfg, s, u);
    InvHasRuntimes(cfg, after);
    ResetKeepsReport(cfg, after, v.now, v.policy);
    ResetKeepsRuntimes(cfg, after, v.now, v.policy);
    hide Inv, Owned, ResetContext, Drive, SummaryIsLegal, SummaryOf;
    ApplyRefused(cfg, s, u);
    assert Finish(s.stats, cfg.pendingLimit).Err?;
    var state := Seen(v.connected, v.aircraft, if v.connected then v.phase else UnknownPhase,
                      if v.connected then v.usable else {});
    var current := if v.connected && after.aircraft != v.aircraft then ResetContext(cfg, after, v.now, v.policy)
                   else after;
    ObserveReports(cfg, current, state);
    ObserveReports(cfg, current.(aircraft := v.aircraft, connected := true), state);
    hide ObserveStats, Finish;
  }
}
