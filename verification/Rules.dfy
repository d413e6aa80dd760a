/**
  The lifecycle of one rule (cloud/dcs_copilot_cloud/rules/engine.py). Its condition and the normalized state are inputs
  of each evaluation; the condition may depend on whether the issue is active, so a verdict is a function of that.
 */
module Rules {
  import opened Wrappers

  datatype Severity = Info | Advisory | Warning | Critical

  datatype FlightPhase =
    | UnknownPhase | ColdDark | Startup | Taxi | Takeoff | Climb | Cruise | Combat | Refueling | Approach | Landing
        | PostLanding

  type Details = map<string, string>

  datatype Violation = Violation(message: string, explanation: string, data: Details)

  datatype Rule = Rule(
    id: string,
    severity: Severity,
    cooldown: real,
    debounceOn: real,
    debounceOff: real,
    requiredFields: set<string>,
    aircraftNames: Option<set<string>>,
    flightPhases: Option<set<FlightPhase>>,
    metadata: Details)

  /** The normalized state, as far as the engine looks at it. */
  datatype Seen = Seen(connected: bool, aircraft: Option<string>, phase: FlightPhase, usable: set<string>)

  datatype Issue = Issue(
    ruleId: string, severity: Severity, aircraft: string, phase: FlightPhase,
    activatedAt: real, observedAt: real, message: string, explanation: string, data: Details)

  datatype Kind = Activated | Resolved | Disabled

  datatype Transition = Transition(kind: Kind, issue: Issue, timestamp: real, eligible: bool)

  datatype Candidate = Candidate(active: bool, since: real, result: Option<Violation>)

  datatype Runtime = Runtime(issue: Option<Issue>, candidate: Option<Candidate>, lastNotificationAt: Option<real>)

  /** What each rule answers, by rule identifier and whether its issue is active. */
  type Verdicts = (string, bool) -> Option<Violation>

  function Idle(): Runtime {
    Runtime(None, None, None)
  }

  // ----- one evaluation of one rule

  predicate Applicable(rule: Rule, state: Seen) {
    && state.connected && state.aircraft.Some?
    && (rule.aircraftNames.Some? ==> state.aircraft.value in rule.aircraftNames.value)
    && (rule.flightPhases.Some? ==> state.phase in rule.flightPhases.value)
    && rule.requiredFields <= state.usable
  }

  function Deactivate(rt: Runtime, now: real, kind: Kind): (Runtime, Option<Transition>) {
    match rt.issue
    case None => (rt.(candidate := None), None)
    case Some(issue) =>
      (rt.(candidate := None, issue := None), Some(Transition(kind, issue.(observedAt := now), now, false)))
  }

  function Activate(rule: Rule, rt: Runtime, state: Seen, result: Violation, now: real): (Runtime, Transition)
    requires state.aircraft.Some?
  {
    var issue := Issue(rule.id, rule.severity, state.aircraft.value, state.phase, now, now,
                       result.message, result.explanation, result.data + rule.metadata);
    var eligible := rt.lastNotificationAt.None? || now - rt.lastNotificationAt.value >= rule.cooldown;
    (rt.(issue := Some(issue), lastNotificationAt := if eligible then Some(now) else rt.lastNotificationAt),
     Transition(Activated, issue, now, eligible))
  }

  function Delay(rule: Rule, desired: bool): real {
    if desired then rule.debounceOn else rule.debounceOff
  }

  function Advance(rule: Rule, rt: Runtime, state: Seen, result: Option<Violation>, now: real)
      : (Runtime, Option<Transition>)
    requires state.aircraft.Some?
  {
    var desired := result.Some?;
    if desired == rt.issue.Some? then
      var calm := rt.(candidate := None);
      if !desired then (calm, None)
      else
        (calm.(issue := Some(rt.issue.value.(observedAt := now, message := result.value.message,
                                             explanation := result.value.explanation, data := result.value.data))),
         None)
    else
      var since := if rt.candidate.Some? && rt.candidate.value.active == desired then rt.candidate.value.since else now;
      if now - since < Delay(rule, desired) then
        (rt.(candidate := Some(Candidate(desired, since, result))), None)
      else if desired then
        var (activated, t) := Activate(rule, rt.(candidate := None), state, result.value, now);
        (activated, Some(t))
      else
        Deactivate(rt.(candidate := None), now, Resolved)
  }

  function EvaluateRule(rule: Rule, rt: Runtime, state: Seen, verdicts: Verdicts, now: real)
      : (Runtime, Option<Transition>)
  {
    if !Applicable(rule, state) then Deactivate(rt, now, Disabled)
    else Advance(rule, rt, state, verdicts(rule.id, rt.issue.Some?), now)
  }

  function ResetRule(rt: Runtime, now: real): (Runtime, Option<Transition>) {
    var (after, t) := Deactivate(rt, now, Disabled);
    (after.(lastNotificationAt := None), t)
  }

  // ----- runs of one rule

  datatype Input = Evaluation(state: Seen, verdicts: Verdicts, now: real) | ResetAt(now: real)

  function Step(rule: Rule, rt: Runtime, input: Input): (Runtime, Option<Transition>) {
    match input
    case Evaluation(state, verdicts, now) => EvaluateRule(rule, rt, state, verdicts, now)
    case ResetAt(now) => ResetRule(rt, now)
  }

  function After(rule: Rule, inputs: seq<Input>): Runtime
    decreases |inputs|
  {
    if inputs == [] then Idle() else Step(rule, After(rule, inputs[..|inputs| - 1]), inputs[|inputs| - 1]).0
  }

  /** What the last input of a run makes the rule report. */
  function Reported(rule: Rule, inputs: seq<Input>): Option<Transition>
    requires inputs != []
  {
    Step(rule, After(rule, inputs[..|inputs| - 1]), inputs[|inputs| - 1]).1
  }

  // ----- the same lifecycle, defined by the whole history

  /** An aircraft the rule is for is connected, in a phase it is for, and every field it needs is usable. */
  ghost predicate Judges(rule: Rule, state: Seen) {
    && state.connected
    && (exists name :: state.aircraft == Some(name)
                       && forall names :: rule.aircraftNames == Some(names) ==> name in names)
    && (forall phases :: rule.flightPhases == Some(phases) ==> state.phase in phases)
    && (forall f :: f in rule.requiredFields ==> f in state.usable)
  }

  lemma ApplicableMeansJudges(rule: Rule, state: Seen)
    ensures Applicable(rule, state) <==> Judges(rule, state)
  {
    if Applicable(rule, state) {
      assert state.aircraft == Some(state.aircraft.value);
    }
  }

  ghost predicate Disables(rule: Rule, input: Input) {
    input.ResetAt? || !Judges(rule, input.state)
  }

  /** The k-th input disagrees with the activity the rule has then. */
  ghost predicate Disagrees(rule: Rule, inputs: seq<Input>, k: nat)
    requires k < |inputs|
    decreases k, 5
  {
    var active := Active(rule, inputs[..k]);
    !Disables(rule, inputs[k]) && inputs[k].verdicts(rule.id, active).Some? != active
  }

  /** From the j-th input to the last, every input disagrees and the activity stays as it is. */
  ghost predicate Streak(rule: Rule, inputs: seq<Input>, j: nat)
    requires j < |inputs|
    decreases |inputs|, 1
  {
    forall k :: j <= k < |inputs| ==>
      Disagrees(rule, inputs, k) && Active(rule, inputs[..k]) == Active(rule, inputs[..|inputs| - 1])
  }

  ghost predicate LongestStreak(rule: Rule, inputs: seq<Input>, j: nat)
    requires j < |inputs|
    decreases |inputs|, 2
  {
    Streak(rule, inputs, j) && (j == 0 || !Streak(rule, inputs, j - 1))
  }

  /** The last input ends a streak of disagreement that has lasted for the debounce time. */
  ghost predicate Due(rule: Rule, inputs: seq<Input>)
    requires inputs != []
    decreases |inputs|, 3
  {
    var last := |inputs| - 1;
    exists j :: 0 <= j <= last && LongestStreak(rule, inputs, j)
                && inputs[last].now - inputs[j].now >= Delay(rule, !Active(rule, inputs[..last]))
  }

  /** Whether the rule's issue is active after a history of inputs. */
  ghost predicate Active(rule: Rule, inputs: seq<Input>)
    decreases |inputs|, 4
  {
    inputs != [] &&
    (var front, last := inputs[..|inputs| - 1], inputs[|inputs| - 1];
     !Disables(rule, last) && Active(rule, front) != Due(rule, inputs))
  }

  /** What the incremental runtime remembers is what the history says. */
  ghost predicate Remembers(rule: Rule, inputs: seq<Input>, rt: Runtime) {
    && rt.issue.Some? == Active(rule, inputs)
    && (rt.issue.Some? ==> rt.issue.value.ruleId == rule.id)
    && (if inputs != [] && Pending(rule, inputs) then
          && rt.candidate.Some? && rt.candidate.value.active != Active(rule, inputs)
          && (exists j ::
                0 <= j < |inputs| && LongestStreak(rule, inputs, j) && rt.candidate.value.since == inputs[j].now)
        else rt.candidate.None?)
  }

  /** The last input disagrees and did not change the activity. */
  ghost predicate Pending(rule: Rule, inputs: seq<Input>)
    requires inputs != []
  {
    Disagrees(rule, inputs, |inputs| - 1) && !Due(rule, inputs)
  }

  lemma {:induction false} DisagreesInPrefix(rule: Rule, inputs: seq<Input>, last: Input, k: nat)
    requires k < |inputs|
    ensures Disagrees(rule, inputs + [last], k) <==> Disagrees(rule, inputs, k)
    ensures (inputs + [last])[..k] == inputs[..k]
  {
    assert (inputs + [last])[..k] == inputs[..k];
  }

  /** A streak goes on through one more disagreeing input exactly when the activity did not change before it. */
  lemma {:induction false} StreakExtends(rule: Rule, inputs: seq<Input>, last: Input, j: nat)
    requires j < |inputs|
    ensures
      Streak(rule, inputs + [last], j) <==>
      && Streak(rule, inputs, j) && Disagrees(rule, inputs + [last], |inputs|)
      && Active(rule, inputs) == Active(rule, inputs[..|inputs| - 1])
  {
    var all, n := inputs + [last], |inputs|;
    assert all[..n] == inputs;
    forall k | 0 <= k < n
      ensures all[..k] == inputs[..k] && (Disagrees(rule, all, k) <==> Disagrees(rule, inputs, k))
    {
      DisagreesInPrefix(rule, inputs, last, k);
    }
    if Streak(rule, all, j) {
      assert Disagrees(rule, all, n - 1) && Active(rule, all[..n - 1]) == Active(rule, all[..n]);
      forall k | j <= k < n ensures Disagrees(rule, inputs, k)
          && Active(rule, inputs[..k]) == Active(rule, inputs[..n - 1]) {
        assert Disagrees(rule, all, k) && Active(rule, all[..k]) == Active(rule, all[..n]);
      }
    }
    if Streak(rule, inputs, j) && Disagrees(rule, all, n) && Active(rule, inputs) == Active(rule, inputs[..n - 1]) {
      forall k | j <= k < |all| ensures Disagrees(rule, all, k) && Active(rule, all[..k]) == Active(rule, all[..n]) {
        if k < n {
          assert Disagrees(rule, inputs, k) && Active(rule, inputs[..k]) == Active(rule, inputs[..n - 1]);
        }
      }
    }
  }

  lemma {:induction false} StreakOfOne(rule: Rule, inputs: seq<Input>, last: Input)
    ensures Streak(rule, inputs + [last], |inputs|) <==> Disagrees(rule, inputs + [last], |inputs|)
  {
    assert (inputs + [last])[..|inputs|] == inputs;
  }

  lemma LongestStreakIsUnique(rule: Rule, inputs: seq<Input>, i: nat, j: nat)
    requires i < |inputs| && j < |inputs| && LongestStreak(rule, inputs, i) && LongestStreak(rule, inputs, j)
    ensures i == j
  {
    if i < j {
      assert Streak(rule, inputs, j - 1);
    }
  }

  /** When a disagreeing input arrives, the runtime's candidate time is the start of the longest streak. */
  lemma {:induction false} SinceIsStreakStart(rule: Rule, inputs: seq<Input>, rt: Runtime, last: Input) returns (j: nat)
    requires Remembers(rule, inputs, rt) && Disagrees(rule, inputs + [last], |inputs|)
    ensures j <= |inputs| && LongestStreak(rule, inputs + [last], j)
    ensures
      var desired := !Active(rule, inputs);
      (inputs + [last])[j].now ==
      if rt.candidate.Some? && rt.candidate.value.active == desired then rt.candidate.value.since else last.now
  {
    var n, all := |inputs|, inputs + [last];
    StreakOfOne(rule, inputs, last);
    if inputs == [] || !Pending(rule, inputs) {
      j := n;
      if n > 0 {
        StreakExtends(rule, inputs, last, n - 1);
        assert Streak(rule, inputs, n - 1) ==> Disagrees(rule, inputs, n - 1);
      }
    } else {
      j :| 0 <= j < n && LongestStreak(rule, inputs, j) && rt.candidate.value.since == inputs[j].now;
      StreakExtends(rule, inputs, last, j);
      if j > 0 {
        StreakExtends(rule, inputs, last, j - 1);
      }
    }
  }

  lemma {:induction false} DueByStart(rule: Rule, inputs: seq<Input>, j: nat)
    requires j < |inputs| && LongestStreak(rule, inputs, j)
    ensures
      var last := |inputs| - 1;
      Due(rule, inputs) <==> inputs[last].now - inputs[j].now >= Delay(rule, !Active(rule, inputs[..last]))
  {
    forall i | 0 <= i < |inputs| && LongestStreak(rule, inputs, i) ensures i == j {
      LongestStreakIsUnique(rule, inputs, i, j);
    }
  }

  lemma {:induction false} DueDisagrees(rule: Rule, inputs: seq<Input>)
    requires inputs != [] && Due(rule, inputs)
    ensures Disagrees(rule, inputs, |inputs| - 1)
  {
    var j :| 0 <= j <= |inputs| - 1 && LongestStreak(rule, inputs, j);
    assert Streak(rule, inputs, j);
  }

  /** One step of the runtime does what the history prescribes. */
  lemma {:induction false} StepRemembers(rule: Rule, inputs: seq<Input>, rt: Runtime, last: Input)
    requires Remembers(rule, inputs, rt)
    ensures
      var all := inputs + [last];
      var (after, t) := Step(rule, rt, last);
      && Remembers(rule, all, after) && Exact(rule, all, t)
  {
    var all, n := inputs + [last], |inputs|;
    assert all[..n] == inputs && all[n] == last;
    if Due(rule, all) {
      DueDisagrees(rule, all);
    }
    if Disagrees(rule, all, n) {
      var j := SinceIsStreakStart(rule, inputs, rt, last);
      DueByStart(rule, all, j);
    }
    if last.Evaluation? {
      ApplicableMeansJudges(rule, last.state);
      ApplicableHasAircraft(rule, last.state);
    }
    hide Streak, LongestStreak, Due, Applicable, Judges;
  }

  /** What the last input of a history must make the rule report. */
  ghost predicate Exact(rule: Rule, inputs: seq<Input>, t: Option<Transition>)
    requires inputs != []
  {
    var last, was := inputs[|inputs| - 1], Active(rule, inputs[..|inputs| - 1]);
    && (t.Some? <==> Active(rule, inputs) != was)
    && (t.Some? ==>
          && t.value.timestamp == last.now && t.value.issue.ruleId == rule.id
          && t.value.kind == if !was then Activated else if Disables(rule, last) then Disabled else Resolved)
  }

  /** The incremental lifecycle refines the one defined by the whole history. */
  lemma {:induction false} LifecycleFollowsHistory(rule: Rule, inputs: seq<Input>)
    ensures Remembers(rule, inputs, After(rule, inputs))
    ensures inputs != [] ==> Exact(rule, inputs, Reported(rule, inputs))
    decreases |inputs|
  {
    if inputs != [] {
      var front, last := inputs[..|inputs| - 1], inputs[|inputs| - 1];
      LifecycleFollowsHistory(rule, front);
      StepRemembers(rule, front, After(rule, front), last);
      assert front + [last] == inputs;
      hide Remembers, Exact, Step;
    }
  }

  // ----- what an issue says

  /**
    The issue a history leaves: raised with the rule's severity and metadata and the aircraft and phase seen then,
    brought up to date by every later evaluation that finds it violated still, left alone by one that does not.
   */
  ghost function IssueOf(rule: Rule, inputs: seq<Input>): Option<Issue>
    decreases |inputs|
  {
    if !Active(rule, inputs) then None
    else
      var front, last := inputs[..|inputs| - 1], inputs[|inputs| - 1];
      match last.verdicts(rule.id, Active(rule, front))
      case None => IssueOf(rule, front)
      case Some(found) =>
        match IssueOf(rule, front)
        case Some(issue) =>
          Some(Issue(rule.id, rule.severity, issue.aircraft, issue.phase, issue.activatedAt, last.now,
                     found.message, found.explanation, found.data))
        case None =>
          match last.state.aircraft
          case None => None
          case Some(name) =>
            Some(Issue(rule.id, rule.severity, name, last.state.phase, last.now, last.now, found.message,
                       found.explanation, found.data + rule.metadata))
  }

  /** What one step does to the issue. */
  lemma {:induction false} StepOnIssue(rule: Rule, rt: Runtime, last: Input)
    ensures
      var (after, t) := Step(rule, rt, last);
      match (rt.issue, after.issue)
      case (None, None) => t.None?
      case (Some(was), None) => t.Some? && t.value.kind != Activated && t.value.issue == was.(observedAt := last.now)
      case (Some(was), Some(left)) =>
        t.None? && last.Evaluation?
        && (match last.verdicts(rule.id, true)
            case None => left == was
            case Some(found) =>
              left == was.(observedAt := last.now, message := found.message, explanation := found.explanation,
                         data := found.data))
      case (None, Some(left)) =>
        t.Some? && t.value.kind == Activated && t.value.issue == left
        && last.Evaluation? && last.state.aircraft.Some? && last.verdicts(rule.id, false).Some?
        && var found := last.verdicts(rule.id, false).value;
           left == Issue(rule.id, rule.severity, last.state.aircraft.value, last.state.phase, last.now, last.now,
                       found.message, found.explanation, found.data + rule.metadata)
  {
    hide Applicable;
    if last.Evaluation? {
      ApplicableHasAircraft(rule, last.state);
    }
  }

  lemma ApplicableHasAircraft(rule: Rule, state: Seen)
    ensures Applicable(rule, state) ==> state.aircraft.Some?
  {
  }

  /** A raise reports the new issue, any closing the one before it, as last seen at the closing. */
  lemma {:induction false} IssueFollowsHistory(rule: Rule, inputs: seq<Input>)
    ensures After(rule, inputs).issue == IssueOf(rule, inputs)
    ensures
      match IssueOf(rule, inputs)
      case None => true
      case Some(issue) => issue.ruleId == rule.id && issue.severity == rule.severity
    ensures inputs != [] && Reported(rule, inputs).Some? ==>
              var t, last := Reported(rule, inputs).value, inputs[|inputs| - 1];
              match IssueOf(rule, inputs[..|inputs| - 1])
              case None => t.kind == Activated && Some(t.issue) == IssueOf(rule, inputs)
              case Some(was) => t.kind != Activated && t.issue == was.(observedAt := last.now)
    decreases |inputs|
  {
    LifecycleFollowsHistory(rule, inputs);
    if inputs != [] {
      var front, last := inputs[..|inputs| - 1], inputs[|inputs| - 1];
      IssueFollowsHistory(rule, front);
      LifecycleFollowsHistory(rule, front);
      StepOnIssue(rule, After(rule, front), last);
      hide Step, Active, Exact, Pending, LongestStreak;
    }
  }

  /**
    An issue is raised at the last input exactly when the rule has been applicable and violated, its
    issue inactive, at every evaluation of a longest streak that began at least the debounce time ago.
   */
  lemma {:induction false} RaisedExactlyAfterDebounce(rule: Rule, inputs: seq<Input>)
    requires inputs != []
    ensures
      var t, last := Reported(rule, inputs), |inputs| - 1;
      t.Some? && t.value.kind == Activated <==>
      exists j :: 0 <= j <= last && LongestStreak(rule, inputs, j) && !Active(rule, inputs[..last])
                  && inputs[last].now - inputs[j].now >= rule.debounceOn
  {
    LifecycleFollowsHistory(rule, inputs);
    if Due(rule, inputs) {
      DueDisagrees(rule, inputs);
    }
  }

  /** Likewise for a resolution: clear, while active, for the release time. */
  lemma {:induction false} ResolvedExactlyAfterDebounce(rule: Rule, inputs: seq<Input>)
    requires inputs != []
    ensures
      var t, last := Reported(rule, inputs), |inputs| - 1;
      t.Some? && t.value.kind == Resolved <==>
      exists j :: 0 <= j <= last && LongestStreak(rule, inputs, j) && Active(rule, inputs[..last])
                  && inputs[last].now - inputs[j].now >= rule.debounceOff
  {
    LifecycleFollowsHistory(rule, inputs);
    if Due(rule, inputs) {
      DueDisagrees(rule, inputs);
    }
  }

  /** Every input of the streak behind a raised issue found the rule applicable and violated. */
  lemma {:induction false} RaisedMeansViolatedThroughout(rule: Rule, inputs: seq<Input>)
    requires inputs != [] && Reported(rule, inputs).Some? && Reported(rule, inputs).value.kind == Activated
    ensures
      exists j :: 0 <= j < |inputs| && inputs[|inputs| - 1].now - inputs[j].now >= rule.debounceOn
                  && forall k :: j <= k < |inputs| ==> ViolatedAt(rule, inputs[k])
  {
    RaisedExactlyAfterDebounce(rule, inputs);
    var last := |inputs| - 1;
    var j :| 0 <= j <= last && LongestStreak(rule, inputs, j) && !Active(rule, inputs[..last])
             && inputs[last].now - inputs[j].now >= rule.debounceOn;
    assert Streak(rule, inputs, j);
    forall k | j <= k < |inputs| ensures ViolatedAt(rule, inputs[k]) {
      assert Disagrees(rule, inputs, k) && Active(rule, inputs[..k]) == Active(rule, inputs[..last]);
    }
  }

  ghost predicate ViolatedAt(rule: Rule, input: Input) {
    input.Evaluation? && Judges(rule, input.state) && input.verdicts(rule.id, false).Some?
  }

  /** Every input of the streak behind a resolution found the rule applicable and, its issue active, clear. */
  lemma {:induction false} ResolvedMeansClearThroughout(rule: Rule, inputs: seq<Input>)
    requires inputs != [] && Reported(rule, inputs).Some? && Reported(rule, inputs).value.kind == Resolved
    ensures
      exists j :: 0 <= j < |inputs| && inputs[|inputs| - 1].now - inputs[j].now >= rule.debounceOff
                  && forall k :: j <= k < |inputs| ==> ClearAt(rule, inputs[k])
  {
    ResolvedExactlyAfterDebounce(rule, inputs);
    var last := |inputs| - 1;
    var j :| 0 <= j <= last && LongestStreak(rule, inputs, j) && Active(rule, inputs[..last])
             && inputs[last].now - inputs[j].now >= rule.debounceOff;
    assert Streak(rule, inputs, j);
    forall k | j <= k < |inputs| ensures ClearAt(rule, inputs[k]) {
      assert Disagrees(rule, inputs, k) && Active(rule, inputs[..k]) == Active(rule, inputs[..last]);
    }
  }

  ghost predicate ClearAt(rule: Rule, input: Input) {
    input.Evaluation? && Judges(rule, input.state) && input.verdicts(rule.id, true).None?
  }

  // ----- cooldown

  predicate NotifiedAt(rule: Rule, inputs: seq<Input>)
    requires inputs != []
  {
    Reported(rule, inputs).Some? && Reported(rule, inputs).value.eligible
  }

  /** The input that last made an eligible activation since the last reset. */
  ghost function LastNotified(rule: Rule, inputs: seq<Input>): (i: Option<nat>)
    ensures i.Some? ==> i.value < |inputs|
    decreases |inputs|
  {
    if inputs == [] || inputs[|inputs| - 1].ResetAt? then None
    else if NotifiedAt(rule, inputs) then Some(|inputs| - 1)
    else LastNotified(rule, inputs[..|inputs| - 1])
  }

  lemma {:induction false} LastNotifiedWasNotified(rule: Rule, inputs: seq<Input>)
    requires LastNotified(rule, inputs).Some?
    ensures
      var i := LastNotified(rule, inputs).value;
      NotifiedAt(rule, inputs[..i + 1]) && forall k :: i < k < |inputs| ==> inputs[k].Evaluation?
    decreases |inputs|
  {
    if NotifiedAt(rule, inputs) {
      assert inputs[..|inputs|] == inputs;
    } else {
      var front := inputs[..|inputs| - 1];
      LastNotifiedWasNotified(rule, front);
      assert front[..LastNotified(rule, inputs).value + 1] == inputs[..LastNotified(rule, inputs).value + 1];
    }
  }

  lemma {:induction false} StepNotifies(rule: Rule, rt: Runtime, input: Input)
    ensures
      var (after, t) := Step(rule, rt, input);
      after.lastNotificationAt ==
      if input.ResetAt? then None else if t.Some? && t.value.eligible then Some(input.now) else rt.lastNotificationAt
  {
  }

  lemma {:induction false} RemembersNotification(rule: Rule, inputs: seq<Input>)
    ensures
      var i := LastNotified(rule, inputs);
      After(rule, inputs).lastNotificationAt == if i.None? then None else Some(inputs[i.value].now)
    decreases |inputs|
  {
    if inputs != [] {
      var front := inputs[..|inputs| - 1];
      RemembersNotification(rule, front);
      StepNotifies(rule, After(rule, front), inputs[|inputs| - 1]);
      hide Step;
    }
  }

  /** An activation is eligible exactly when none was since the reset, or the last was a cooldown ago. */
  lemma {:induction false} EligibleExactlyAfterCooldown(rule: Rule, inputs: seq<Input>)
    requires inputs != [] && Reported(rule, inputs).Some? && Reported(rule, inputs).value.kind == Activated
    ensures
      var last := |inputs| - 1;
      var i := LastNotified(rule, inputs[..last]);
      Reported(rule, inputs).value.eligible <==> i.None? || inputs[last].now - inputs[i.value].now >= rule.cooldown
  {
    RemembersNotification(rule, inputs[..|inputs| - 1]);
  }

  lemma {:induction false} OnlyActivationsAreEligible(rule: Rule, inputs: seq<Input>)
    requires inputs != [] && NotifiedAt(rule, inputs)
    ensures Reported(rule, inputs).value.kind == Activated && inputs[|inputs| - 1].Evaluation?
  {
  }

  lemma {:induction false} LastNotifiedIsLatest(rule: Rule, inputs: seq<Input>, i: nat)
    requires i < |inputs| && NotifiedAt(rule, inputs[..i + 1])
    requires forall k :: i < k < |inputs| ==> inputs[k].Evaluation?
    ensures LastNotified(rule, inputs).Some? && LastNotified(rule, inputs).value >= i
    decreases |inputs|
  {
    assert inputs[..|inputs|] == inputs;
    OnlyActivationsAreEligible(rule, inputs[..i + 1]);
    if i < |inputs| - 1 {
      var front := inputs[..|inputs| - 1];
      assert front[..i + 1] == inputs[..i + 1];
      LastNotifiedIsLatest(rule, front, i);
    }
  }

  /** Between resets, any two eligible activations of a rule are at least its cooldown apart. */
  lemma {:induction false} CooldownSeparates(rule: Rule, inputs: seq<Input>, i: nat)
    requires rule.cooldown >= 0.0
    requires i < |inputs| - 1 && NotifiedAt(rule, inputs[..i + 1]) && NotifiedAt(rule, inputs)
    requires forall k :: i < k < |inputs| ==> inputs[k].Evaluation?
    ensures inputs[|inputs| - 1].now - inputs[i].now >= rule.cooldown
    decreases |inputs|
  {
    var front := inputs[..|inputs| - 1];
    assert front[..i + 1] == inputs[..i + 1];
    LastNotifiedIsLatest(rule, front, i);
    OnlyActivationsAreEligible(rule, inputs);
    EligibleExactlyAfterCooldown(rule, inputs);
    var m := LastNotified(rule, front).value;
    LastNotifiedWasNotified(rule, front);
    if m > i {
      var earlier := front[..m + 1];
      assert earlier[..i + 1] == inputs[..i + 1];
      CooldownSeparates(rule, earlier, i);
    }
  }
}
