/**
  Checklist stages and the depth-first walk that orders them
  (ChecklistEngine._stage_chain and _validate_definitions in cloud/dcs_copilot_cloud/checklists/engine.py).
 */
module Stages {
  import opened Wrappers
  import opened InsertionDict

  datatype Verification = ByState | ByAction | ByDerivation | Manual

  datatype Item = Item(id: string, name: string, verification: Verification, latchCompletion: bool)

  datatype Stage = Stage(id: string, items: seq<Item>, dependsOn: seq<string>)

  datatype Checklist = Checklist(id: string, aircraft: string, stages: seq<Stage>, defaultStage: Option<string>)

  function StageById(stages: seq<Stage>, id: string): (r: Option<Stage>)
    ensures r.Some? ==> r.value in stages && r.value.id == id
    ensures r.Some? <==> exists s :: s in stages && s.id == id
    decreases |stages|
  {
    if stages == [] then None
    else if stages[0].id == id then Some(stages[0])
    else
      assert forall s :: s in stages ==> s == stages[0] || s in stages[1..];
      StageById(stages[1..], id)
  }

  /**
    The named stage, else the default, else the first; None is the source's ValueError, or IndexError without any
    stage.
   */
  function StageFor(c: Checklist, id: Option<string>): Option<Stage> {
    var chosen := if id.None? then c.defaultStage else id;
    if chosen.Some? then StageById(c.stages, chosen.value)
    else if c.stages == [] then None
    else Some(c.stages[0])
  }

  function StageIds(stages: seq<Stage>): (ids: seq<string>)
    ensures |ids| == |stages|
  {
    seq(|stages|, i requires 0 <= i < |stages| => stages[i].id)
  }

  function IdSet(c: Checklist): set<string> {
    set s | s in c.stages :: s.id
  }

  // ----- the walk

  datatype Walk = Walk(selected: seq<Stage>, visited: set<string>, visiting: set<string>)

  /** Err is a cyclic or unknown dependency. */
  function Visit(c: Checklist, stage: Stage, w: Walk): (r: Result<Walk>)
    requires stage in c.stages && w.visiting <= IdSet(c)
    ensures r.Ok? ==> r.value.visiting == w.visiting
    decreases |IdSet(c) - w.visiting|, 1, 0
  {
    if stage.id in w.visited then Ok(w)
    else if stage.id in w.visiting then Err
    else
      assert stage.id in IdSet(c) - w.visiting;
      assert IdSet(c) - (w.visiting + {stage.id}) == IdSet(c) - w.visiting - {stage.id};
      match VisitAll(c, stage.dependsOn, w.(visiting := w.visiting + {stage.id}))
      case Err => Err
      case Ok(after) =>
        assert after.visiting - {stage.id} == w.visiting;
        Ok(Walk(after.selected + [stage], after.visited + {stage.id}, after.visiting - {stage.id}))
  }

  function VisitAll(c: Checklist, ids: seq<string>, w: Walk): (r: Result<Walk>)
    requires w.visiting <= IdSet(c)
    ensures r.Ok? ==> r.value.visiting == w.visiting
    decreases |IdSet(c) - w.visiting|, 2, |ids|
  {
    if ids == [] then Ok(w)
    else
      match StageById(c.stages, ids[0])
      case None => Err
      case Some(dependency) =>
        match Visit(c, dependency, w)
        case Err => Err
        case Ok(next) => VisitAll(c, ids[1..], next)
  }

  function StageChain(c: Checklist, target: Stage): Result<seq<Stage>>
    requires target in c.stages
  {
    match Visit(c, target, Walk([], {}, {}))
    case Err => Err
    case Ok(w) => Ok(w.selected)
  }

  // ----- the dependency graph

  ghost predicate DependsOn(c: Checklist, a: string, b: string) {
    exists s :: s in c.stages && s.id == a && b in s.dependsOn
  }

  ghost predicate IsPath(c: Checklist, path: seq<string>) {
    forall i :: 0 <= i < |path| - 1 ==> DependsOn(c, path[i], path[i + 1])
  }

  /** A chain of one or more dependencies. */
  ghost predicate Needs(c: Checklist, a: string, b: string) {
    exists path :: |path| >= 2 && path[0] == a && path[|path| - 1] == b && IsPath(c, path)
  }

  /** The stage itself and everything it needs. */
  ghost predicate Reaches(c: Checklist, a: string, b: string) {
    a == b || Needs(c, a, b)
  }

  ghost predicate HasCycle(c: Checklist) {
    exists id :: Needs(c, id, id)
  }

  ghost predicate UniqueStages(c: Checklist) {
    NoDuplicates(StageIds(c.stages))
  }

  ghost predicate DependenciesExist(c: Checklist) {
    forall s, id :: s in c.stages && id in s.dependsOn ==> id in IdSet(c)
  }

  lemma NeedsOne(c: Checklist, a: string, b: string)
    requires DependsOn(c, a, b)
    ensures Needs(c, a, b)
  {
    var path := [a, b];
    assert IsPath(c, path);
  }

  lemma NeedsMore(c: Checklist, a: string, b: string, d: string)
    requires Needs(c, a, b) && DependsOn(c, b, d)
    ensures Needs(c, a, d)
  {
    var path :| |path| >= 2 && path[0] == a && path[|path| - 1] == b && IsPath(c, path);
    assert IsPath(c, path + [d]);
    assert (path + [d])[|path|] == d;
  }

  lemma ReachesThrough(c: Checklist, a: string, b: string, d: string)
    requires DependsOn(c, a, b) && Reaches(c, b, d)
    ensures Reaches(c, a, d)
  {
    NeedsOne(c, a, b);
    if b != d {
      var path :| |path| >= 2 && path[0] == b && path[|path| - 1] == d && IsPath(c, path);
      var longer := [a] + path;
      forall i | 0 <= i < |longer| - 1 ensures DependsOn(c, longer[i], longer[i + 1]) {
        if i > 0 {
          assert DependsOn(c, path[i - 1], path[i]);
        }
      }
      assert IsPath(c, longer);
    }
  }

  // ----- what a walk keeps

  ghost predicate DependenciesBefore(selected: seq<Stage>) {
    forall i, id :: 0 <= i < |selected| && id in selected[i].dependsOn ==> id in StageIds(selected[..i])
  }

  /** Selected stages are the visited ones, each once, after their dependencies. */
  ghost predicate Ordered(c: Checklist, w: Walk) {
    && (forall s :: s in w.selected ==> s in c.stages)
    && (forall id :: id in w.visited <==> id in StageIds(w.selected))
    && NoDuplicates(StageIds(w.selected)) && DependenciesBefore(w.selected)
    && w.visiting !! w.visited
  }

  ghost predicate CycleFrom(c: Checklist, id: string) {
    exists x :: Reaches(c, id, x) && Needs(c, x, x)
  }

  lemma CycleThrough(c: Checklist, a: string, b: string)
    requires DependsOn(c, a, b) && CycleFrom(c, b)
    ensures CycleFrom(c, a)
  {
    var x :| Reaches(c, b, x) && Needs(c, x, x);
    ReachesThrough(c, a, b, x);
  }

  lemma {:induction false} StageByIdIs(c: Checklist, stages: seq<Stage>, s: Stage)
    requires NoDuplicates(StageIds(stages)) && s in stages
    ensures StageById(stages, s.id) == Some(s)
    decreases |stages|
  {
    NoDuplicatesTail(StageIds(stages));
    assert StageIds(stages)[1..] == StageIds(stages[1..]) && StageIds(stages)[0] == stages[0].id;
    if s != stages[0] {
      var i :| 0 <= i < |stages[1..]| && stages[1..][i] == s;
      assert StageIds(stages[1..])[i] == s.id;
      StageByIdIs(c, stages[1..], s);
    }
  }

  /** Every stage of the walk's path needs the stage about to be visited. */
  ghost predicate Above(c: Checklist, w: Walk, id: string) {
    forall v :: v in w.visiting ==> Needs(c, v, id)
  }

  /** What a successful visit adds: the stage and only things it reaches, after what was there before. */
  ghost predicate Extends(c: Checklist, before: Walk, after: Walk, id: string) {
    && Ordered(c, after) && before.selected <= after.selected && before.visited <= after.visited
    && (forall x :: x in after.visited ==> x in before.visited || Reaches(c, id, x))
  }

  lemma {:induction false} VisitKeeps(c: Checklist, stage: Stage, w: Walk)
    requires UniqueStages(c) && DependenciesExist(c) && stage in c.stages && w.visiting <= IdSet(c)
    requires Ordered(c, w) && Above(c, w, stage.id)
    ensures
      match Visit(c, stage, w)
      case Err => CycleFrom(c, stage.id)
      case Ok(after) =>
        && Extends(c, w, after, stage.id) && stage.id in after.visited
        && (stage.id !in w.visited ==> after.selected != [] && after.selected[|after.selected| - 1] == stage)
    decreases |IdSet(c) - w.visiting|, 1, 0
  {
    if stage.id in w.visited {
    } else if stage.id in w.visiting {
      assert Reaches(c, stage.id, stage.id) && Needs(c, stage.id, stage.id);
    } else {
      assert stage.id in IdSet(c) - w.visiting;
      assert IdSet(c) - (w.visiting + {stage.id}) == IdSet(c) - w.visiting - {stage.id};
      assert stage.dependsOn[0..] == stage.dependsOn;
      var inside := w.(visiting := w.visiting + {stage.id});
      EnterStage(c, w, stage);
      hide Ordered, Extends, Needs, IdSet, UniqueStages, DependenciesExist;
      VisitAllKeeps(c, stage, 0, inside);
      if VisitAll(c, stage.dependsOn, inside).Ok? {
        SelectStage(c, w, stage, VisitAll(c, stage.dependsOn, inside).value);
      }
    }
  }

  lemma EnterStage(c: Checklist, w: Walk, stage: Stage)
    requires Ordered(c, w) && stage.id !in w.visited
    ensures Ordered(c, w.(visiting := w.visiting + {stage.id}))
  {
  }

  lemma {:induction false} SelectedIsOrdered(c: Checklist, w: Walk, stage: Stage)
    requires Ordered(c, w) && stage in c.stages && stage.id in w.visiting
    requires forall id :: id in stage.dependsOn ==> id in w.visited
    ensures Ordered(c, Walk(w.selected + [stage], w.visited + {stage.id}, w.visiting - {stage.id}))
  {
    var selected := w.selected + [stage];
    assert StageIds(selected) == StageIds(w.selected) + [stage.id];
    AppendFresh(StageIds(w.selected), stage.id);
    forall i, id | 0 <= i < |selected| && id in selected[i].dependsOn ensures id in StageIds(selected[..i]) {
      if i < |w.selected| {
        assert selected[..i] == w.selected[..i];
      } else {
        assert selected[..i] == w.selected;
      }
    }
    assert DependenciesBefore(selected);
    hide NoDuplicates, DependenciesBefore;
  }

  lemma {:induction false} SelectStage(c: Checklist, before: Walk, stage: Stage, after: Walk)
    requires stage in c.stages && stage.id in after.visiting
    requires Extends(c, before.(visiting := before.visiting + {stage.id}), after, stage.id)
    requires forall id :: id in stage.dependsOn ==> id in after.visited
    ensures Extends(c, before, Walk(after.selected + [stage], after.visited + {stage.id}, after.visiting - {stage.id}),
                    stage.id)
  {
    hide Ordered, Needs;
    SelectedIsOrdered(c, after, stage);
  }

  lemma {:induction false} AboveDependency(c: Checklist, owner: Stage, id: string, w: Walk)
    requires DependsOn(c, owner.id, id) && forall v :: v in w.visiting && v != owner.id ==> Needs(c, v, owner.id)
    ensures Above(c, w, id)
  {
    hide DependsOn, Needs;
    forall v | v in w.visiting ensures Needs(c, v, id) {
      if v == owner.id {
        NeedsOne(c, owner.id, id);
      } else {
        NeedsMore(c, v, owner.id, id);
      }
    }
  }

  lemma {:induction false} ExtendsThrough(c: Checklist, w: Walk, next: Walk, after: Walk, a: string, b: string)
    requires Extends(c, w, next, b) && DependsOn(c, a, b) && Extends(c, next, after, a)
    ensures Extends(c, w, after, a)
  {
    hide Ordered, DependsOn, Needs;
    forall x | x in after.visited ensures x in w.visited || Reaches(c, a, x) {
      if x in next.visited && x !in w.visited {
        ReachesThrough(c, a, b, x);
      }
    }
  }

  lemma {:induction false} VisitAllKeeps(c: Checklist, owner: Stage, i: nat, w: Walk)
    requires UniqueStages(c) && DependenciesExist(c) && owner in c.stages && w.visiting <= IdSet(c)
    requires i <= |owner.dependsOn| && owner.id in w.visiting
    requires Ordered(c, w) && forall v :: v in w.visiting && v != owner.id ==> Needs(c, v, owner.id)
    ensures
      match VisitAll(c, owner.dependsOn[i..], w)
      case Err => CycleFrom(c, owner.id)
      case Ok(after) => Extends(c, w, after, owner.id) && forall k :: i <= k < |owner.dependsOn| ==>
          owner.dependsOn[k] in after.visited
    decreases |IdSet(c) - w.visiting|, 2, |owner.dependsOn| - i
  {
    if i < |owner.dependsOn| {
      var id := owner.dependsOn[i];
      assert owner.dependsOn[i..][0] == id && owner.dependsOn[i..][1..] == owner.dependsOn[i + 1..];
      assert DependsOn(c, owner.id, id) && id in IdSet(c);
      var dependency := StageById(c.stages, id).value;
      AboveDependency(c, owner, id, w);
      hide Ordered, Needs, DependsOn, IdSet, UniqueStages, DependenciesExist;
      VisitKeeps(c, dependency, w);
      match Visit(c, dependency, w)
      case Err => CycleThrough(c, owner.id, id);
      case Ok(next) =>
        assert Ordered(c, next);
        VisitAllKeeps(c, owner, i + 1, next);
        if VisitAll(c, owner.dependsOn[i + 1..], next).Ok? {
          ExtendsThrough(c, w, next, VisitAll(c, owner.dependsOn[i + 1..], next).value, owner.id, id);
        }
    }
  }

  // ----- an ordered selection has no cycle

  function Position(ids: seq<string>, id: string): (i: nat)
    requires id in ids
    ensures i < |ids| && ids[i] == id
    decreases |ids|
  {
    if ids[0] == id then 0 else 1 + Position(ids[1..], id)
  }

  lemma {:induction false} DependencyIsEarlier(c: Checklist, w: Walk, a: string, b: string)
    requires UniqueStages(c) && Ordered(c, w) && a in StageIds(w.selected) && DependsOn(c, a, b)
    ensures b in StageIds(w.selected) && Position(StageIds(w.selected), b) < Position(StageIds(w.selected), a)
  {
    var ids := StageIds(w.selected);
    var i := Position(ids, a);
    var s :| s in c.stages && s.id == a && b in s.dependsOn;
    StageByIdIs(c, c.stages, s);
    StageByIdIs(c, c.stages, w.selected[i]);
    assert b in StageIds(w.selected[..i]);
    var j :| 0 <= j < i && StageIds(w.selected[..i])[j] == b;
    assert ids[j] == b;
    DistinctPositions(ids);
  }

  lemma {:induction false} PathDescends(c: Checklist, w: Walk, path: seq<string>)
    requires UniqueStages(c) && Ordered(c, w) && IsPath(c, path) && |path| >= 2 && path[0] in StageIds(w.selected)
    ensures path[|path| - 1] in StageIds(w.selected)
    ensures Position(StageIds(w.selected), path[|path| - 1]) < Position(StageIds(w.selected), path[0])
    decreases |path|
  {
    assert DependsOn(c, path[0], path[1]);
    DependencyIsEarlier(c, w, path[0], path[1]);
    var rest := path[1..];
    forall i | 0 <= i < |rest| - 1 ensures DependsOn(c, rest[i], rest[i + 1]) {
      assert DependsOn(c, path[i + 1], path[i + 2]);
    }
    if |rest| >= 2 {
      PathDescends(c, w, rest);
    }
  }

  lemma OrderedIsClosed(c: Checklist, w: Walk, a: string, b: string)
    requires UniqueStages(c) && Ordered(c, w) && a in StageIds(w.selected) && Reaches(c, a, b)
    ensures b in StageIds(w.selected) && !Needs(c, b, b)
  {
    if a != b {
      var path :| |path| >= 2 && path[0] == a && path[|path| - 1] == b && IsPath(c, path);
      PathDescends(c, w, path);
    }
    if Needs(c, b, b) {
      var loop :| |loop| >= 2 && loop[0] == b && loop[|loop| - 1] == b && IsPath(c, loop);
      PathDescends(c, w, loop);
    }
  }

  /**
    The chain of a target: an error exactly when a cycle can be reached from it; otherwise every stage
    reachable from the target exactly once, each after its dependencies, and the target last.
   */
  lemma {:induction false} StageChainIsOrdered(c: Checklist, target: Stage)
    requires UniqueStages(c) && DependenciesExist(c) && target in c.stages
    ensures StageChain(c, target).Err? <==> CycleFrom(c, target.id)
    ensures StageChain(c, target).Ok? ==>
              var chain := StageChain(c, target).value;
              && NoDuplicates(StageIds(chain)) && DependenciesBefore(chain)
              && (forall id :: id in StageIds(chain) <==> Reaches(c, target.id, id))
              && (forall s :: s in chain ==> s in c.stages)
              && chain != [] && chain[|chain| - 1] == target
  {
    var start := Walk([], {}, {});
    assert Ordered(c, start) && Above(c, start, target.id);
    VisitKeeps(c, target, start);
    if Visit(c, target, start).Ok? {
      var w := Visit(c, target, start).value;
      forall id | Reaches(c, target.id, id) ensures id in StageIds(w.selected) && !Needs(c, id, id) {
        OrderedIsClosed(c, w, target.id, id);
      }
      hide Visit, Needs;
    }
  }

  // ----- validation

  function ItemIds(items: seq<Item>): seq<string> {
    seq(|items|, i requires 0 <= i < |items| => items[i].id)
  }

  function AllItems(stages: seq<Stage>): seq<Item>
    decreases |stages|
  {
    if stages == [] then [] else AllItems(stages[..|stages| - 1]) + stages[|stages| - 1].items
  }

  /** What the constructor demands of one definition. */
  ghost predicate Acceptable(c: Checklist) {
    && UniqueIn(c.stages)
    && DependenciesExist(c)
    && (c.defaultStage.Some? ==> c.defaultStage.value in IdSet(c))
    && !HasCycle(c)
  }

  /** Walking from every stage succeeds exactly when there is no cycle anywhere. */
  lemma {:induction false} AllChainsSucceed(c: Checklist)
    requires UniqueStages(c) && DependenciesExist(c)
    ensures (forall s :: s in c.stages ==> StageChain(c, s).Ok?) <==> !HasCycle(c)
  {
    forall s | s in c.stages ensures StageChain(c, s).Err? <==> CycleFrom(c, s.id) {
      StageChainIsOrdered(c, s);
    }
    hide StageChain;
    if HasCycle(c) {
      var id :| Needs(c, id, id);
      var path :| |path| >= 2 && path[0] == id && path[|path| - 1] == id && IsPath(c, path);
      assert DependsOn(c, path[0], path[1]);
      var s :| s in c.stages && s.id == id && path[1] in s.dependsOn;
      assert Reaches(c, s.id, id);
    }
  }

  // ----- the mutable walk

  /** The nested function `visit` with the three collections it updates. */
  class StageWalk {
    const checklist: Checklist
    var selected: seq<Stage>
    var visited: set<string>
    var visiting: set<string>

    function View(): Walk
      reads this
    {
      Walk(selected, visited, visiting)
    }

    constructor (checklist: Checklist)
      ensures this.checklist == checklist && View() == Walk([], {}, {})
    {
      this.checklist := checklist;
      selected, visited, visiting := [], {}, {};
    }

    method VisitStage(stage: Stage) returns (ok: bool)
      requires stage in checklist.stages && visiting <= IdSet(checklist)
      modifies this
      ensures ok == Visit(checklist, stage, old(View())).Ok?
      ensures ok ==> View() == Visit(checklist, stage, old(View())).value
      decreases |IdSet(checklist) - visiting|, 1
    {
      if stage.id in visited {
        return true;
      }
      if stage.id in visiting {
        return false;
      }
      assert stage.id in IdSet(checklist) - visiting;
      assert IdSet(checklist) - (visiting + {stage.id}) == IdSet(checklist) - visiting - {stage.id};
      visiting := visiting + {stage.id};
      ok := VisitDependencies(stage.dependsOn);
      if !ok {
        return;
      }
      visiting := visiting - {stage.id};
      visited := visited + {stage.id};
      selected := selected + [stage];
    }

    method VisitDependencies(ids: seq<string>) returns (ok: bool)
      requires visiting <= IdSet(checklist)
      modifies this
      ensures ok == VisitAll(checklist, ids, old(View())).Ok?
      ensures ok ==> View() == VisitAll(checklist, ids, old(View())).value
      decreases |IdSet(checklist) - visiting|, 2
    {
      ghost var start := View();
      for i := 0 to |ids|
        invariant visiting == start.visiting
        invariant VisitAll(checklist, ids[i..], View()) == VisitAll(checklist, ids, start)
      {
        assert ids[i..][0] == ids[i] && ids[i..][1..] == ids[i + 1..];
        var dependency := StageById(checklist.stages, ids[i]);
        if dependency.None? {
          return false;
        }
        ok := VisitStage(dependency.value);
        if !ok {
          return;
        }
      }
      return true;
    }
  }

  method ChainOf(c: Checklist, target: Stage) returns (r: Result<seq<Stage>>)
    requires target in c.stages
    ensures r == StageChain(c, target)
  {
    var walk := new StageWalk(c);
    var ok := walk.VisitStage(target);
    return if ok then Ok(walk.selected) else Err;
  }

  // ----- the constructor's checks

  function Members<T>(s: seq<T>): set<T> {
    set x | x in s
  }

  /** Whether no identifier repeats, within the listing or from `known`. */
  method AddDistinct(ids: seq<string>, known: set<string>) returns (ok: bool, seen: set<string>)
    ensures ok <==> NoDuplicates(ids) && known !! Members(ids)
    ensures ok ==> seen == known + Members(ids)
  {
    seen := known;
    for i := 0 to |ids|
      invariant NoDuplicates(ids[..i]) && known !! Members(ids[..i]) && seen == known + Members(ids[..i])
    {
      assert ids[..i + 1] == ids[..i] + [ids[i]] && ids == ids[..i + 1] + ids[i + 1..];
      if ids[i] in seen {
        DistinctConcat(ids[..i + 1], ids[i + 1..]);
        assert ids[..i + 1][..i] == ids[..i];
        return false, seen;
      }
      AppendFresh(ids[..i], ids[i]);
      seen := seen + {ids[i]};
    }
    assert ids[..|ids|] == ids;
    return true, seen;
  }

  lemma AllItemsSnoc(stages: seq<Stage>, i: nat)
    requires i < |stages|
    ensures StageIds(stages[..i + 1]) == StageIds(stages[..i]) + [stages[i].id]
    ensures ItemIds(AllItems(stages[..i + 1])) == ItemIds(AllItems(stages[..i])) + ItemIds(stages[i].items)
  {
    assert stages[..i + 1][..i] == stages[..i];
  }

  /** A duplicate in a prefix of the stages is a duplicate in all of them. */
  lemma {:induction false} DistinctPrefix(stages: seq<Stage>, i: nat)
    requires i <= |stages|
    ensures NoDuplicates(StageIds(stages)) ==> NoDuplicates(StageIds(stages[..i]))
    ensures NoDuplicates(ItemIds(AllItems(stages))) ==> NoDuplicates(ItemIds(AllItems(stages[..i])))
    decreases |stages| - i
  {
    if i == |stages| {
      assert stages[..i] == stages;
    } else {
      DistinctPrefix(stages, i + 1);
      AllItemsSnoc(stages, i);
      DistinctConcat(StageIds(stages[..i]), [stages[i].id]);
      DistinctConcat(ItemIds(AllItems(stages[..i])), ItemIds(stages[i].items));
    }
  }

  ghost predicate UniqueIn(stages: seq<Stage>) {
    NoDuplicates(StageIds(stages)) && NoDuplicates(ItemIds(AllItems(stages)))
  }

  lemma DisjointMembers<T>(a: seq<T>, b: seq<T>)
    ensures Members(a) !! Members(b) <==> forall x :: x in a ==> x !in b
    ensures Members(a + b) == Members(a) + Members(b)
  {
    if Members(a) !! Members(b) {
      forall x | x in a ensures x !in b {
        assert x in Members(a);
      }
    }
  }

  lemma {:induction false} UniqueStep(stages: seq<Stage>, i: nat)
    requires i < |stages|
    ensures UniqueIn(stages) ==> UniqueIn(stages[..i + 1])
    ensures
      var known, items := Members(StageIds(stages[..i])), Members(ItemIds(AllItems(stages[..i])));
      && (UniqueIn(stages[..i + 1]) <==>
            && UniqueIn(stages[..i]) && known !! {stages[i].id}
            && NoDuplicates(ItemIds(stages[i].items)) && items !! Members(ItemIds(stages[i].items)))
      && Members(StageIds(stages[..i + 1])) == known + {stages[i].id}
      && Members(ItemIds(AllItems(stages[..i + 1]))) == items + Members(ItemIds(stages[i].items))
  {
    hide AllItems;
    assert [stages[i].id][..0] == [] && NoDuplicates([stages[i].id]);
    DisjointMembers(StageIds(stages[..i]), [stages[i].id]);
    DisjointMembers(ItemIds(AllItems(stages[..i])), ItemIds(stages[i].items));
    AllItemsSnoc(stages, i);
    DistinctPrefix(stages, i + 1);
    DistinctConcat(StageIds(stages[..i]), [stages[i].id]);
    DistinctConcat(ItemIds(AllItems(stages[..i])), ItemIds(stages[i].items));
  }

  method IdentifiersAreUnique(stages: seq<Stage>) returns (ok: bool, stageIds: set<string>)
    ensures ok <==> UniqueIn(stages)
    ensures ok ==> stageIds == Members(StageIds(stages))
  {
    stageIds := {};
    var itemIds := {};
    assert stages[..0] == [] && UniqueIn([]);
    hide UniqueIn, ItemIds, StageIds, Members, NoDuplicates, AllItems;
    for i := 0 to |stages|
      invariant UniqueIn(stages[..i])
      invariant stageIds == Members(StageIds(stages[..i])) && itemIds == Members(ItemIds(AllItems(stages[..i])))
    {
      UniqueStep(stages, i);
      if stages[i].id in stageIds {
        return false, stageIds;
      }
      stageIds := stageIds + {stages[i].id};
      var distinct;
      distinct, itemIds := AddDistinct(ItemIds(stages[i].items), itemIds);
      if !distinct {
        return false, stageIds;
      }
    }
    assert stages[..|stages|] == stages;
    return true, stageIds;
  }

  method DependenciesAreKnown(stages: seq<Stage>, stageIds: set<string>) returns (ok: bool)
    ensures ok <==> forall s, id :: s in stages && id in s.dependsOn ==> id in stageIds
  {
    for i := 0 to |stages|
      invariant forall s, id :: s in stages[..i] && id in s.dependsOn ==> id in stageIds
    {
      var stage := stages[i];
      for j := 0 to |stage.dependsOn|
        invariant forall id :: id in stage.dependsOn[..j] ==> id in stageIds
      {
        if stage.dependsOn[j] !in stageIds {
          return false;
        }
      }
      assert stage.dependsOn[..|stage.dependsOn|] == stage.dependsOn;
      assert stages[..i + 1] == stages[..i] + [stage];
    }
    assert stages[..|stages|] == stages;
    return true;
  }

  /** The constructor's checks accept a definition exactly when it is well formed and its dependencies are acyclic. */
  method ValidateDefinition(c: Checklist) returns (ok: bool)
    ensures ok <==> Acceptable(c)
  {
    var stageIds;
    ok, stageIds := IdentifiersAreUnique(c.stages);
    if !ok {
      return;
    }
    assert stageIds == IdSet(c) by {
      forall s | s in c.stages ensures s.id in StageIds(c.stages) {
        var i :| 0 <= i < |c.stages| && c.stages[i] == s;
        assert StageIds(c.stages)[i] == s.id;
      }
    }
    ok := DependenciesAreKnown(c.stages, stageIds);
    if !ok {
      return;
    }
    if c.defaultStage.Some? && c.defaultStage.value !in stageIds {
      return false;
    }
    AllChainsSucceed(c);
    for i := 0 to |c.stages|
      invariant forall s :: s in c.stages[..i] ==> StageChain(c, s).Ok?
    {
      var chain := ChainOf(c, c.stages[i]);
      if chain.Err? {
        return false;
      }
      assert c.stages[..i + 1] == c.stages[..i] + [c.stages[i]];
    }
    assert c.stages[..|c.stages|] == c.stages;
    return true;
  }
}
