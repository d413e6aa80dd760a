/** An engine of many rules: every input steps each rule in turn, and the reported transitions come in rule order. */
module RuleEngine {
  import opened Wrappers
  import opened InsertionDict
  import opened Rules

  type Runtimes = map<string, Runtime>

  function Ids(rules: seq<Rule>): seq<string> {
    seq(|rules|, i requires 0 <= i < |rules| => rules[i].id)
  }

  lemma IdsCover(rules: seq<Rule>)
    ensures forall r :: r in rules ==> r.id in Ids(rules)
  {
    forall r | r in rules ensures r.id in Ids(rules) {
      var i :| 0 <= i < |rules| && rules[i] == r;
      assert Ids(rules)[i] == r.id;
    }
  }

  function Listed(t: Option<Transition>): seq<Transition> {
    if t.Some? then [t.value] else []
  }

  function AllIdle(rules: seq<Rule>): Runtimes {
    map id | id in Ids(rules) :: Idle()
  }

  function StepAll(rules: seq<Rule>, runtimes: Runtimes, input: Input): (Runtimes, seq<Transition>)
    requires forall r :: r in rules ==> r.id in runtimes
    decreases |rules|
  {
    if rules == [] then (runtimes, [])
    else
      var (stepped, t) := Step(rules[0], runtimes[rules[0].id], input);
      var (after, rest) := StepAll(rules[1..], runtimes[rules[0].id := stepped], input);
      (after, Listed(t) + rest)
  }

  /** The transitions of one rule, in order. */
  function OfRule(log: seq<Transition>, id: string): seq<Transition>
    decreases |log|
  {
    if log == [] then []
    else
      var front, last := OfRule(log[..|log| - 1], id), log[|log| - 1];
      if last.issue.ruleId == id then front + [last] else front
  }

  lemma {:induction false} OfRuleConcat(a: seq<Transition>, b: seq<Transition>, id: string)
    ensures OfRule(a + b, id) == OfRule(a, id) + OfRule(b, id)
    decreases |b|
  {
    if b == [] {
      assert a + b == a;
    } else {
      assert (a + b)[..|a + b| - 1] == a + b[..|b| - 1];
      OfRuleConcat(a, b[..|b| - 1], id);
    }
  }

  lemma OfRuleListed(t: Option<Transition>, id: string)
    ensures OfRule(Listed(t), id) == if t.Some? && t.value.issue.ruleId == id then [t.value] else []
  {
    if t.Some? {
      assert [t.value][..0] == [];
    }
  }

  /** Every active issue carries the identifier of its rule. */
  ghost predicate Owned(runtimes: Runtimes) {
    forall id :: id in runtimes && runtimes[id].issue.Some? ==> runtimes[id].issue.value.ruleId == id
  }

  lemma {:induction false} StepKeepsOwner(rule: Rule, rt: Runtime, input: Input)
    requires rt.issue.Some? ==> rt.issue.value.ruleId == rule.id
    ensures
      var (after, t) := Step(rule, rt, input);
      && (after.issue.Some? ==> after.issue.value.ruleId == rule.id)
      && (t.Some? ==> t.value.issue.ruleId == rule.id)
  {
  }

  lemma {:induction false} FirstStep(rules: seq<Rule>, runtimes: Runtimes, input: Input)
    requires rules != [] && Owned(runtimes) && forall r :: r in rules ==> r.id in runtimes
    ensures
      var r := rules[0];
      var (stepped, t) := Step(r, runtimes[r.id], input);
      var next := runtimes[r.id := stepped];
      && Owned(next) && next.Keys == runtimes.Keys
      && forall id :: OfRule(StepAll(rules, runtimes, input).1, id)
                      == (if id == r.id then Listed(t) else []) + OfRule(StepAll(rules[1..], next, input).1, id)
  {
    var r := rules[0];
    var (stepped, t) := Step(r, runtimes[r.id], input);
    var next := runtimes[r.id := stepped];
    StepKeepsOwner(r, runtimes[r.id], input);
    var rest := StepAll(rules[1..], next, input).1;
    forall id ensures OfRule(Listed(t) + rest, id) == (if id == r.id then Listed(t) else []) + OfRule(rest, id) {
      OfRuleConcat(Listed(t), rest, id);
      OfRuleListed(t, id);
    }
    hide Step, OfRule;
  }

  lemma {:induction false} StepAllOther(rules: seq<Rule>, runtimes: Runtimes, input: Input, id: string)
    requires Owned(runtimes) && forall r :: r in rules ==> r.id in runtimes
    requires id !in Ids(rules)
    ensures
      var (after, log) := StepAll(rules, runtimes, input);
      && after.Keys == runtimes.Keys && OfRule(log, id) == [] && (id in runtimes ==> after[id] == runtimes[id])
    decreases |rules|
  {
    if rules != [] {
      FirstStep(rules, runtimes, input);
      assert Ids(rules)[0] == rules[0].id && Ids(rules)[1..] == Ids(rules[1..]);
      hide Step, OfRule, Owned;
      StepAllOther(rules[1..], runtimes[rules[0].id := Step(rules[0], runtimes[rules[0].id], input).0], input, id);
    }
  }

  /** The rules do not interfere: each one's runtime and transitions are those of its own step. */
  lemma {:induction false} StepAllFor(rules: seq<Rule>, runtimes: Runtimes, input: Input, r: Rule)
    requires NoDuplicates(Ids(rules)) && Owned(runtimes) && forall x :: x in rules ==> x.id in runtimes
    requires r in rules
    ensures
      var (after, log) := StepAll(rules, runtimes, input);
      && after.Keys == runtimes.Keys
      && after[r.id] == Step(r, runtimes[r.id], input).0
      && OfRule(log, r.id) == Listed(Step(r, runtimes[r.id], input).1)
    decreases |rules|
  {
    FirstStep(rules, runtimes, input);
    NoDuplicatesTail(Ids(rules));
    IdsCover(rules[1..]);
    assert Ids(rules)[0] == rules[0].id && Ids(rules)[1..] == Ids(rules[1..]);
    var next := runtimes[rules[0].id := Step(rules[0], runtimes[rules[0].id], input).0];
    hide Step, OfRule, Owned, NoDuplicates;
    if r == rules[0] {
      StepAllOther(rules[1..], next, input, r.id);
    } else {
      StepAllFor(rules[1..], next, input, r);
    }
  }

  lemma {:induction false} StepAllOwned(rules: seq<Rule>, runtimes: Runtimes, input: Input)
    requires Owned(runtimes) && forall r :: r in rules ==> r.id in runtimes
    ensures Owned(StepAll(rules, runtimes, input).0)
    ensures forall t :: t in StepAll(rules, runtimes, input).1 ==> t.issue.ruleId in Ids(rules)
    decreases |rules|
  {
    if rules != [] {
      FirstStep(rules, runtimes, input);
      StepKeepsOwner(rules[0], runtimes[rules[0].id], input);
      assert Ids(rules)[0] == rules[0].id && Ids(rules)[1..] == Ids(rules[1..]);
      hide Step, OfRule;
      StepAllOwned(rules[1..], runtimes[rules[0].id := Step(rules[0], runtimes[rules[0].id], input).0], input);
    }
  }

  // ----- runs

  function Operate(rules: seq<Rule>, inputs: seq<Input>): (r: (Runtimes, seq<Transition>))
    ensures r.0.Keys == AllIdle(rules).Keys
    decreases |inputs|
  {
    if inputs == [] then (AllIdle(rules), [])
    else
      var (runtimes, log) := Operate(rules, inputs[..|inputs| - 1]);
      KeysKept(rules, runtimes, inputs[|inputs| - 1]);
      var (after, reported) := StepAll(rules, runtimes, inputs[|inputs| - 1]);
      (after, log + reported)
  }

  lemma {:induction false} KeysKept(rules: seq<Rule>, runtimes: Runtimes, input: Input)
    requires runtimes.Keys >= set id | id in Ids(rules)
    ensures forall r :: r in rules ==> r.id in runtimes
    ensures StepAll(rules, runtimes, input).0.Keys == runtimes.Keys
    decreases |rules|
  {
    IdsCover(rules);
    if rules != [] {
      assert Ids(rules)[1..] == Ids(rules[1..]) && Ids(rules)[0] == rules[0].id;
      KeysKept(rules[1..], runtimes[rules[0].id := Step(rules[0], runtimes[rules[0].id], input).0], input);
    }
  }

  /** Everything one rule reports over a run. */
  function RuleLog(rule: Rule, inputs: seq<Input>): seq<Transition>
    decreases |inputs|
  {
    if inputs == [] then [] else RuleLog(rule, inputs[..|inputs| - 1]) + Listed(Reported(rule, inputs))
  }

  /** In a run of the engine every rule lives as if it ran alone. */
  lemma {:induction false} EachRuleRunsAlone(rules: seq<Rule>, inputs: seq<Input>)
    requires NoDuplicates(Ids(rules))
    ensures
      var (runtimes, log) := Operate(rules, inputs);
      && Owned(runtimes)
      && (forall r :: r in rules ==>
            r.id in runtimes && runtimes[r.id] == After(r, inputs) && OfRule(log, r.id) == RuleLog(r, inputs))
      && (forall t :: t in log ==> t.issue.ruleId in Ids(rules))
    decreases |inputs|
  {
    if inputs == [] {
      IdsCover(rules);
    } else {
      var front, last := inputs[..|inputs| - 1], inputs[|inputs| - 1];
      EachRuleRunsAlone(rules, front);
      var (runtimes, log) := Operate(rules, front);
      KeysKept(rules, runtimes, last);
      StepAllOwned(rules, runtimes, last);
      var reported := StepAll(rules, runtimes, last).1;
      forall r | r in rules
        ensures OfRule(log + reported, r.id) == RuleLog(r, inputs)
        ensures StepAll(rules, runtimes, last).0[r.id] == After(r, inputs)
      {
        StepAllFor(rules, runtimes, last, r);
        OfRuleConcat(log, reported, r.id);
      }
      hide Step, StepAll, OfRule, NoDuplicates, Owned;
    }
  }

  ghost predicate Alternates(log: seq<Transition>) {
    forall i :: 0 <= i < |log| ==> (log[i].kind == Activated <==> i % 2 == 0)
  }

  lemma {:induction false} RuleLogAlternates(rule: Rule, inputs: seq<Input>)
    ensures Alternates(RuleLog(rule, inputs))
    ensures |RuleLog(rule, inputs)| % 2 == 1 <==> Active(rule, inputs)
    decreases |inputs|
  {
    if inputs != [] {
      RuleLogAlternates(rule, inputs[..|inputs| - 1]);
      LifecycleFollowsHistory(rule, inputs);
      hide Step, Active, Disables;
    }
  }

  /** In every run of the engine each rule's transitions alternate, beginning with an activation. */
  lemma {:induction false} TransitionsAlternate(rules: seq<Rule>, inputs: seq<Input>, rule: Rule)
    requires NoDuplicates(Ids(rules)) && rule in rules
    ensures Alternates(OfRule(Operate(rules, inputs).1, rule.id))
    ensures
      rule.id in Operate(rules, inputs).0 &&
      (Operate(rules, inputs).0[rule.id].issue.Some? <==> |OfRule(Operate(rules, inputs).1, rule.id)| % 2 == 1)
  {
    EachRuleRunsAlone(rules, inputs);
    RuleLogAlternates(rule, inputs);
    LifecycleFollowsHistory(rule, inputs);
  }
}
