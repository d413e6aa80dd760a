/**
  Declarative conditions (evaluate_condition and _condition_fields in
  cloud/dcs_copilot_cloud/rules/declarative.py). A condition's dictionary is its first recognised key; the
  normalized state is the map of its usable values.
 */
module Conditions {
  import opened Wrappers
  import opened History

  datatype Test =
    | Exactly(expected: Value)
    | Compare(equals: Option<Value>, notEquals: Option<Value>, greaterThan: Option<real>, lessThan: Option<real>)

  datatype Condition =
    | All(items: seq<Condition>)
    | Any(items: seq<Condition>)
    | Not(inner: Condition)
    | Available(field: string)
    | ChangedTo(field: string, from: Option<Value>, to: Value, seconds: real)
    | ChangedFrom(field: string, value: Value, seconds: real)
    | Lasting(inner: Condition, seconds: real)
    | Fields(tests: seq<(string, Test)>)

  type Usable = map<string, Value>

  // ----- evaluation

  predicate Passes(v: Value, t: Test) {
    match t
    case Exactly(expected) => SameValue(v, expected)
    case Compare(equals, notEquals, greaterThan, lessThan) =>
      && (equals.Some? ==> SameValue(v, equals.value))
      && (notEquals.Some? ==> !SameValue(v, notEquals.value))
      && (greaterThan.Some? ==> IsNumeric(v) && AsReal(v) > greaterThan.value)
      && (lessThan.Some? ==> IsNumeric(v) && AsReal(v) < lessThan.value)
  }

  predicate SameMaybe(a: Option<Value>, b: Option<Value>) {
    if a.Some? && b.Some? then SameValue(a.value, b.value) else a.None? && b.None?
  }

  /** The fields a condition looks at; a nested duration's own fields are not among them. */
  function FieldsOf(c: Condition): set<string>
    decreases c, 1, 0
  {
    match c
    case All(items) => FieldsOfFirst(c, |items|)
    case Any(items) => FieldsOfFirst(c, |items|)
    case Not(inner) => FieldsOf(inner)
    case Available(field) => {field}
    case ChangedTo(field, _, _, _) => {field}
    case ChangedFrom(field, _, _) => {field}
    case Lasting(_, _) => {}
    case Fields(tests) => FieldNames(tests)
  }

  function FieldsOfFirst(c: Condition, n: nat): set<string>
    requires (c.All? || c.Any?) && n <= |c.items|
    decreases c, 0, n
  {
    if n == 0 then {} else FieldsOfFirst(c, n - 1) + FieldsOf(c.items[n - 1])
  }

  function FieldNames(tests: seq<(string, Test)>): set<string> {
    set t | t in tests :: t.0
  }

  lemma FieldNamesSnoc(tests: seq<(string, Test)>, t: (string, Test))
    ensures FieldNames(tests + [t]) == FieldNames(tests) + {t.0}
  {
  }

  predicate Holds(c: Condition, usable: Usable, history: seq<Transition>, now: real) {
    match c
    case All(items) => forall i :: 0 <= i < |items| ==> Holds(items[i], usable, history, now)
    case Any(items) => exists i :: 0 <= i < |items| && Holds(items[i], usable, history, now)
    case Not(inner) => !Holds(inner, usable, history, now)
    case Available(field) => field in usable
    case ChangedTo(field, from, to, seconds) =>
      exists i :: 0 <= i < |history| && history[i].field == field && history[i].timestamp >= now - seconds
                  && SameMaybe(history[i].old_, from) && SameMaybe(history[i].new_, Some(to))
    case ChangedFrom(field, value, seconds) =>
      exists i :: 0 <= i < |history| && history[i].field == field && history[i].timestamp >= now - seconds
                  && SameMaybe(history[i].old_, Some(value))
    case Lasting(inner, seconds) =>
      && Holds(inner, usable, history, now)
      && forall i :: 0 <= i < |history| && history[i].timestamp >= now - seconds ==>
         history[i].field !in FieldsOf(inner)
    case Fields(tests) => forall i :: 0 <= i < |tests| ==>
        tests[i].0 in usable && Passes(usable[tests[i].0], tests[i].1)
  }

  // ----- losing telemetry

  /** More fields are usable, with the same values. */
  ghost predicate Extends(more: Usable, less: Usable) {
    forall f :: f in less ==> f in more && more[f] == less[f]
  }

  predicate NegationFree(c: Condition) {
    match c
    case All(items) => forall i :: 0 <= i < |items| ==> NegationFree(items[i])
    case Any(items) => forall i :: 0 <= i < |items| ==> NegationFree(items[i])
    case Not(_) => false
    case Lasting(inner, _) => NegationFree(inner)
    case _ => true
  }

  /**
    Telemetry counts for the condition (`positive`) or against it; every negation swaps the two, and history counts
    as neither.
   */
  predicate Polarised(c: Condition, positive: bool) {
    match c
    case All(items) => forall i :: 0 <= i < |items| ==> Polarised(items[i], positive)
    case Any(items) => forall i :: 0 <= i < |items| ==> Polarised(items[i], positive)
    case Not(inner) => Polarised(inner, !positive)
    case Available(_) => positive
    case Fields(_) => positive
    case Lasting(inner, _) => Polarised(inner, positive)
    case ChangedTo(_, _, _, _) => true
    case ChangedFrom(_, _, _) => true
  }

  lemma {:induction false} NegationFreeIsPositive(c: Condition)
    requires NegationFree(c)
    ensures Polarised(c, true)
    decreases c
  {
    match c
    case All(items) =>
      forall i | 0 <= i < |items| ensures Polarised(items[i], true) {
        NegationFreeIsPositive(items[i]);
      }
    case Any(items) =>
      forall i | 0 <= i < |items| ensures Polarised(items[i], true) {
        NegationFreeIsPositive(items[i]);
      }
    case Lasting(inner, _) => NegationFreeIsPositive(inner);
    case _ =>
  }

  /** A condition keeps its truth in the direction of its polarity when more fields become usable. */
  lemma {:induction false} PolarityDecides(c: Condition, positive: bool, less: Usable, more: Usable,
                                           history: seq<Transition>, now: real)
    requires Polarised(c, positive) && Extends(more, less)
    ensures positive && Holds(c, less, history, now) ==> Holds(c, more, history, now)
    ensures !positive && Holds(c, more, history, now) ==> Holds(c, less, history, now)
    decreases c
  {
    hide Passes;
    match c
    case All(items) =>
      forall i | 0 <= i < |items|
        ensures positive && Holds(items[i], less, history, now) ==> Holds(items[i], more, history, now)
        ensures !positive && Holds(items[i], more, history, now) ==> Holds(items[i], less, history, now)
      {
        PolarityDecides(items[i], positive, less, more, history, now);
      }
    case Any(items) =>
      forall i | 0 <= i < |items|
        ensures positive && Holds(items[i], less, history, now) ==> Holds(items[i], more, history, now)
        ensures !positive && Holds(items[i], more, history, now) ==> Holds(items[i], less, history, now)
      {
        PolarityDecides(items[i], positive, less, more, history, now);
      }
    case Not(inner) => PolarityDecides(inner, !positive, less, more, history, now);
    case Lasting(inner, _) => PolarityDecides(inner, positive, less, more, history, now);
    case _ =>
  }

  /** Losing telemetry never makes a negation-free condition true. */
  lemma LosingTelemetryNeverHelps(c: Condition, less: Usable, more: Usable, history: seq<Transition>, now: real)
    requires NegationFree(c) && Extends(more, less)
    ensures Holds(c, less, history, now) ==> Holds(c, more, history, now)
  {
    NegationFreeIsPositive(c);
    PolarityDecides(c, true, less, more, history, now);
  }

  /** A single negation over telemetry is enough to break it. */
  lemma NegationBreaksIt(field: string, value: Value)
    ensures
      var c := Not(Available(field));
      && Extends(map[field := value], map[])
      && Holds(c, map[], [], 0.0) && !Holds(c, map[field := value], [], 0.0)
  {
  }

  // ----- what a condition looks at

  predicate HasDuration(c: Condition) {
    match c
    case All(items) => exists i :: 0 <= i < |items| && HasDuration(items[i])
    case Any(items) => exists i :: 0 <= i < |items| && HasDuration(items[i])
    case Not(inner) => HasDuration(inner)
    case Lasting(_, _) => true
    case _ => false
  }

  ghost predicate Agree(a: Usable, b: Usable, fields: set<string>) {
    forall f :: f in fields ==> (f in a <==> f in b) && (f in a && f in b ==> a[f] == b[f])
  }

  lemma {:induction false} PartOfFields(c: Condition, n: nat, i: nat)
    requires (c.All? || c.Any?) && i < n <= |c.items|
    ensures FieldsOf(c.items[i]) <= FieldsOfFirst(c, n)
    decreases n
  {
    if i < n - 1 {
      PartOfFields(c, n - 1, i);
    }
  }

  /** Without durations, only the fields a condition names decide it. */
  lemma {:induction false} FieldsDecide(c: Condition, a: Usable, b: Usable, history: seq<Transition>, now: real)
    requires !HasDuration(c) && Agree(a, b, FieldsOf(c))
    ensures Holds(c, a, history, now) <==> Holds(c, b, history, now)
    decreases c
  {
    hide Passes, SameMaybe;
    match c
    case All(items) =>
      forall i | 0 <= i < |items| ensures Holds(items[i], a, history, now) <==> Holds(items[i], b, history, now) {
        PartOfFields(c, |items|, i);
        FieldsDecide(items[i], a, b, history, now);
      }
    case Any(items) =>
      forall i | 0 <= i < |items| ensures Holds(items[i], a, history, now) <==> Holds(items[i], b, history, now) {
        PartOfFields(c, |items|, i);
        FieldsDecide(items[i], a, b, history, now);
      }
    case Not(inner) => FieldsDecide(inner, a, b, history, now);
    case Fields(tests) =>
      forall i | 0 <= i < |tests| ensures tests[i].0 in FieldsOf(c) {
        assert tests[i] in tests;
      }
    case _ =>
  }

  /** The condition looks at the present alone. */
  predicate Momentary(c: Condition) {
    match c
    case All(items) => forall i :: 0 <= i < |items| ==> Momentary(items[i])
    case Any(items) => forall i :: 0 <= i < |items| ==> Momentary(items[i])
    case Not(inner) => Momentary(inner)
    case Available(_) => true
    case Fields(_) => true
    case _ => false
  }

  lemma {:induction false} MomentaryIgnoresHistory(c: Condition, usable: Usable, h: seq<Transition>, at: real,
                                                   g: seq<Transition>, now: real)
    requires Momentary(c)
    ensures Holds(c, usable, h, at) <==> Holds(c, usable, g, now)
    ensures !HasDuration(c)
    decreases c
  {
    match c
    case All(items) =>
      forall i | 0 <= i < |items|
        ensures (Holds(items[i], usable, h, at) <==> Holds(items[i], usable, g, now)) && !HasDuration(items[i])
      {
        MomentaryIgnoresHistory(items[i], usable, h, at, g, now);
      }
    case Any(items) =>
      forall i | 0 <= i < |items|
        ensures (Holds(items[i], usable, h, at) <==> Holds(items[i], usable, g, now)) && !HasDuration(items[i])
      {
        MomentaryIgnoresHistory(items[i], usable, h, at, g, now);
      }
    case Not(inner) => MomentaryIgnoresHistory(inner, usable, h, at, g, now);
    case _ =>
  }

  /** The value of a field at an earlier moment: what its first transition since then changed, else the present one. */
  function ValueAt(history: seq<Transition>, usable: Usable, field: string, at: real): Option<Value>
    decreases |history|
  {
    if history == [] then if field in usable then Some(usable[field]) else None
    else if history[0].field == field && history[0].timestamp >= at then history[0].old_
    else ValueAt(history[1..], usable, field, at)
  }

  /** The values of an earlier moment, of the fields named. */
  function UsableAt(history: seq<Transition>, usable: Usable, fields: set<string>, at: real): Usable {
    map f | f in fields && ValueAt(history, usable, f, at).Some? :: ValueAt(history, usable, f, at).value
  }

  lemma {:induction false} UnchangedSince(history: seq<Transition>, usable: Usable, field: string, at: real)
    requires forall i :: 0 <= i < |history| && history[i].timestamp >= at ==> history[i].field != field
    ensures ValueAt(history, usable, field, at) == if field in usable then Some(usable[field]) else None
    decreases |history|
  {
    if history != [] {
      forall i | 0 <= i < |history[1..]| && history[1..][i].timestamp >= at ensures history[1..][i].field != field {
        assert history[1..][i] == history[i + 1];
      }
      UnchangedSince(history[1..], usable, field, at);
    }
  }

  /** A condition on the present that has lasted held at every moment of its duration. */
  lemma {:induction false} LastingHeldThroughout(inner: Condition, seconds: real, usable: Usable,
                                                 history: seq<Transition>, now: real, at: real)
    requires Momentary(inner) && Holds(Lasting(inner, seconds), usable, history, now) && at >= now - seconds
    ensures Holds(inner, UsableAt(history, usable, FieldsOf(inner), at), [], at)
  {
    var then_ := UsableAt(history, usable, FieldsOf(inner), at);
    forall f | f in FieldsOf(inner)
      ensures ValueAt(history, usable, f, at) == if f in usable then Some(usable[f]) else None
    {
      UnchangedSince(history, usable, f, at);
    }
    assert Agree(usable, then_, FieldsOf(inner));
    MomentaryIgnoresHistory(inner, usable, history, now, [], at);
    FieldsDecide(inner, usable, then_, [], at);
  }

  /** A duration around a duration adds nothing: the fields below the inner one are not watched for it. */
  lemma OuterDurationIsIgnored(inner: Condition, seconds: real, longer: real, usable: Usable,
                               history: seq<Transition>, now: real)
    ensures Holds(Lasting(Lasting(inner, seconds), longer), usable, history, now) <==>
            Holds(Lasting(inner, seconds), usable, history, now)
  {
    assert FieldsOf(Lasting(inner, seconds)) == {};
  }

  /** Equal as Python compares them: the same, or a flag and the number it stands for. */
  ghost predicate Equal(v: Value, w: Value) {
    v == w || exists b: bool :: {v, w} == {Flag(b), Number(if b then 1.0 else 0.0)}
  }

  lemma SameIsEqual(v: Value, w: Value)
    ensures SameValue(v, w) <==> Equal(v, w)
  {
    forall b: bool | {v, w} == {Flag(b), Number(if b then 1.0 else 0.0)}
      ensures IsNumeric(v) && IsNumeric(w) && AsReal(v) == AsReal(w)
    {
      assert v in {v, w} && w in {v, w};
    }
    if v.Flag? && w.Number? {
      assert {v, w} == {Flag(v.b), Number(w.n)};
    } else if v.Number? && w.Flag? {
      assert {v, w} == {Flag(w.b), Number(v.n)};
    }
  }

  /** Each clause of a comparison is a requirement of its own; words are in no order, numbers and flags are. */
  lemma TestsDecide(v: Value, equals: Option<Value>, notEquals: Option<Value>, above: Option<real>, below: Option<real>)
    ensures Passes(v, Compare(equals, notEquals, above, below)) <==>
            && (forall w :: equals == Some(w) ==> Equal(v, w)) && (forall w :: notEquals == Some(w) ==> !Equal(v, w))
            && (forall m :: above == Some(m) ==> exists n :: n > m && Equal(v, Number(n)))
            && (forall m :: below == Some(m) ==> exists n :: n < m && Equal(v, Number(n)))
    ensures forall w :: Passes(v, Exactly(w)) <==> Equal(v, w)
  {
    forall w ensures SameValue(v, w) <==> Equal(v, w) {
      SameIsEqual(v, w);
    }
    hide SameValue, Equal;
    if above.Some? {
      Compares(v, above.value);
    }
    if below.Some? {
      Compares(v, below.value);
    }
  }

  lemma Compares(v: Value, m: real)
    ensures IsNumeric(v) && AsReal(v) > m <==> exists n :: n > m && Equal(v, Number(n))
    ensures IsNumeric(v) && AsReal(v) < m <==> exists n :: n < m && Equal(v, Number(n))
  {
    hide Equal;
    if v.Word? {
      WordsAreNoNumbers(v);
    } else {
      NumbersAreEqual(v);
      assert Equal(v, Number(AsReal(v)));
    }
  }

  lemma NumbersAreEqual(v: Value)
    requires IsNumeric(v)
    ensures forall n :: Equal(v, Number(n)) <==> n == AsReal(v)
  {
    forall n ensures Equal(v, Number(n)) <==> n == AsReal(v) {
      SameIsEqual(v, Number(n));
    }
  }

  lemma WordsAreNoNumbers(v: Value)
    requires v.Word?
    ensures forall n :: !Equal(v, Number(n))
  {
    forall n ensures !Equal(v, Number(n)) {
      SameIsEqual(v, Number(n));
    }
  }

  /** A field has changed to a value, or from one, if a query of its recent transitions finds one that did. */
  lemma ChangesAreQueried(field: string, from: Option<Value>, to: Value, seconds: real, usable: Usable,
                          history: seq<Transition>, now: real)
    ensures
      var recent := Selected(history, Some(field), Some(now - seconds));
      && (Holds(ChangedTo(field, from, to, seconds), usable, history, now) <==>
          exists t :: t in recent && Matches(t.old_, from) && Matches(t.new_, Some(to)))
      && (Holds(ChangedFrom(field, to, seconds), usable, history, now) <==>
          exists t :: t in recent && Matches(t.old_, Some(to)))
  {
    RecentExactly(history, field, now - seconds);
    forall a, b ensures SameMaybe(a, b) <==> Matches(a, b) {
      MaybeIsMatch(a, b);
    }
    hide SameMaybe, Matches, Selected;
  }

  lemma RecentExactly(history: seq<Transition>, field: string, since: real)
    ensures forall t :: t in Selected(history, Some(field), Some(since)) <==>
              t in history && t.field == field && t.timestamp >= since
  {
    var recent := Selected(history, Some(field), Some(since));
    SelectedExactly(history, Some(field), Some(since));
    hide Selected;
    forall t: Transition ensures t in recent <==> t in history && t.field == field && t.timestamp >= since {
      assert t in recent <==> multiset(recent)[t] > 0;
      assert t in history <==> multiset(history)[t] > 0;
    }
  }

  /** Both are absent, or both present and equal. */
  ghost predicate Matches(a: Option<Value>, b: Option<Value>) {
    (a == None && b == None) || exists v, w :: a == Some(v) && b == Some(w) && Equal(v, w)
  }

  lemma MaybeIsMatch(a: Option<Value>, b: Option<Value>)
    ensures SameMaybe(a, b) <==> Matches(a, b)
  {
    if a.Some? && b.Some? {
      SameIsEqual(a.value, b.value);
    }
    hide SameValue, Equal;
  }

  // ----- collecting fields

  /** Accumulates the fields of a condition into a set. */
  method CollectFields(c: Condition) returns (fields: set<string>)
    ensures fields == FieldsOf(c)
    decreases c, 1
  {
    match c
    case All(items) => fields := CollectAll(c);
    case Any(items) => fields := CollectAll(c);
    case Not(inner) => fields := CollectFields(inner);
    case Available(field) => return {field};
    case ChangedTo(field, _, _, _) => return {field};
    case ChangedFrom(field, _, _) => return {field};
    case Lasting(_, _) => return {};
    case Fields(tests) =>
      fields := {};
      for i := 0 to |tests|
        invariant fields == FieldNames(tests[..i])
      {
        assert tests[..i + 1] == tests[..i] + [tests[i]];
        FieldNamesSnoc(tests[..i], tests[i]);
        fields := fields + {tests[i].0};
      }
      assert tests[..|tests|] == tests;
  }

  method CollectAll(c: Condition) returns (fields: set<string>)
    requires c.All? || c.Any?
    ensures fields == FieldsOf(c)
    decreases c, 0
  {
    fields := {};
    for i := 0 to |c.items|
      invariant fields == FieldsOfFirst(c, i)
    {
      var more := CollectFields(c.items[i]);
      fields := fields + more;
    }
  }
}
