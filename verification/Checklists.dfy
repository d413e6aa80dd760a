/**
  Evaluating checklists and guiding the pilot through one (cloud/dcs_copilot_cloud/checklists/engine.py
  and models.py). What telemetry, history and time say about an item is an arbitrary input: for each item
  whether it applies, and what is found for it unless only the pilot can say.
 */
module Checklists {
  import opened Wrappers
  import opened InsertionDict
  import opened Stages

  datatype Status = Complete | Incomplete | Unconfirmed | NotApplicable

  datatype Source = Telemetry | DerivedTelemetry | ObservedAction | PilotConfirmation | PilotOverride

  datatype ItemResult = ItemResult(
    id: string, name: string, status: Status, reason: string, verification: Verification, source: Source,
    observedAt: Option<real>)

  datatype Finding = Finding(status: Status, reason: string, observedAt: Option<real>)

  datatype World = World(applicable: Item -> bool, finding: Item -> Finding)

  type Confirmations = map<string, real>

  type Latched = map<(string, string), ItemResult>

  // ----- one item

  function SourceOf(item: Item): Source {
    match item.verification
    case ByState => Telemetry
    case ByDerivation => DerivedTelemetry
    case ByAction => ObservedAction
    case Manual => PilotConfirmation
  }

  function ResultOf(item: Item, f: Finding): ItemResult {
    ItemResult(item.id, item.name, f.status, f.reason, item.verification, SourceOf(item), f.observedAt)
  }

  function EvaluateItem(item: Item, confirmed: Confirmations, world: World): ItemResult {
    if !world.applicable(item) then ResultOf(item, Finding(NotApplicable, "not applicable", None))
    else if item.verification == Manual then
      ResultOf(item, if item.id in confirmed then Finding(Complete, "confirmed", None)
                     else Finding(Unconfirmed, "requires confirmation", None))
    else ResultOf(item, world.finding(item))
  }

  predicate Overrides(item: Item) {
    item.verification != Manual
  }

  function PilotConfirmed(item: Item, at: real): ItemResult {
    ItemResult(item.id, item.name, Complete, if Overrides(item) then "overrides telemetry" else "confirmed",
               item.verification,
               if Overrides(item) then PilotOverride else PilotConfirmation, Some(at))
  }

  /** The pilot's word first, then what was latched, then the evaluation. */
  function ResultFor(checklistId: string, item: Item, confirmed: Confirmations, latched: Latched, world: World)
      : (r: ItemResult)
  {
    if item.id in confirmed then PilotConfirmed(item, confirmed[item.id])
    else if (checklistId, item.id) in latched then latched[(checklistId, item.id)]
    else EvaluateItem(item, confirmed, world)
  }

  function Results(checklistId: string, items: seq<Item>, confirmed: Confirmations, latched: Latched, world: World)
      : (r: seq<ItemResult>)
    ensures |r| == |items|
  {
    seq(|items|, i requires 0 <= i < |items| => ResultFor(checklistId, items[i], confirmed, latched, world))
  }

  function Having(results: seq<ItemResult>, status: Status): seq<ItemResult>
    decreases |results|
  {
    if results == [] then []
    else
      var front, last := Having(results[..|results| - 1], status), results[|results| - 1];
      if last.status == status then front + [last] else front
  }

  /** The incomplete items, then the unconfirmed ones. */
  function Unresolved(results: seq<ItemResult>): seq<ItemResult> {
    Having(results, Incomplete) + Having(results, Unconfirmed)
  }

  // ----- the engine's state

  datatype Session = Session(
    checklistId: Option<string>, stageId: Option<string>, progressId: Option<string>, confirmed: Confirmations)

  datatype Engine = Engine(definitions: Dict<string, Checklist>, session: Session, latched: Latched)

  function NoSession(): Session {
    Session(None, None, None, map[])
  }

  function Started(s: Session, checklistId: string, stageId: string): Session {
    Session(Some(checklistId), Some(stageId), Some(checklistId),
            if s.progressId.Some? && s.progressId.value != checklistId then map[] else s.confirmed)
  }

  function Stopped(s: Session): Session {
    s.(checklistId := None, stageId := None)
  }

  /** Err is an unknown checklist or stage. */
  function Start(e: Engine, checklistId: string, stageId: Option<string>): Result<Engine> {
    if checklistId !in e.definitions.at then Err
    else
      match StageFor(e.definitions.at[checklistId], stageId)
      case None => Err
      case Some(stage) => Ok(e.(session := Started(e.session, checklistId, stage.id)))
  }

  /** The items of the stages the guided stage depends on, in order; Err when nothing is being guided. */
  function GuidedItems(e: Engine): Result<(string, seq<Item>)> {
    if e.session.checklistId.None? || e.session.stageId.None? then Err
    else if e.session.checklistId.value !in e.definitions.at then Err
    else
      var c := e.definitions.at[e.session.checklistId.value];
      match StageFor(c, e.session.stageId)
      case None => Err
      case Some(stage) =>
        match StageChain(c, stage)
        case Err => Err
        case Ok(chain) => Ok((c.id, AllItems(chain)))
  }

  function GuidedResults(e: Engine, world: World): Result<seq<ItemResult>> {
    match GuidedItems(e)
    case Err => Err
    case Ok((id, items)) => Ok(Results(id, items, e.session.confirmed, e.latched, world))
  }

  /** What an evaluation reports: the results by status, complete when none is incomplete or unconfirmed. */
  datatype Evaluation = Evaluation(
    checklistId: string, aircraft: string, stageId: string, complete: bool,
    completed: seq<ItemResult>, incomplete: seq<ItemResult>, unconfirmed: seq<ItemResult>,
    notApplicable: seq<ItemResult>)

  function FirstFor(definitions: seq<Checklist>, aircraft: Option<string>): Option<Checklist>
    decreases |definitions|
  {
    if definitions == [] then None
    else if Some(definitions[0].aircraft) == aircraft then Some(definitions[0])
    else FirstFor(definitions[1..], aircraft)
  }

  /** The first that is given and not empty, as Python's `or` picks it. */
  function Given(asked: Option<string>, otherwise: Option<string>): Option<string> {
    if asked.Some? && asked.value != "" then asked else otherwise
  }

  /** The checklist asked for, else the guided one, else the first for the aircraft; None is a ValueError. */
  function DefinitionFor(e: Engine, aircraft: Option<string>, checklistId: Option<string>): Option<Checklist>
    requires e.definitions.Valid()
  {
    var requested := Given(checklistId, e.session.checklistId);
    if requested.None? then FirstFor(e.definitions.Values(), aircraft)
    else if requested.value in e.definitions.at then Some(e.definitions.at[requested.value])
    else None
  }

  function Partitioned(c: Checklist, stage: Stage, results: seq<ItemResult>): Evaluation {
    Evaluation(c.id, c.aircraft, stage.id, Having(results, Incomplete) == [] && Having(results, Unconfirmed) == [],
               Having(results, Complete), Having(results, Incomplete), Having(results, Unconfirmed),
               Having(results, NotApplicable))
  }

  /** Err is an unknown checklist or stage, or a dependency that cannot be ordered. */
  function Evaluate(e: Engine, aircraft: Option<string>, checklistId: Option<string>, stageId: Option<string>,
                    world: World)
    : Result<Evaluation>
    requires e.definitions.Valid()
  {
    match DefinitionFor(e, aircraft, checklistId)
    case None => Err
    case Some(c) =>
      match StageFor(c, Given(stageId, e.session.stageId))
      case None => Err
      case Some(stage) =>
        match StageChain(c, stage)
        case Err => Err
        case Ok(chain) => Ok(Partitioned(c, stage,
                                         Results(c.id, AllItems(chain), e.session.confirmed, e.latched, world)))
  }

  /** Every result is reported once, under its own status; complete means nothing is left to resolve. */
  lemma {:induction false} PartitionIsExact(c: Checklist, stage: Stage, results: seq<ItemResult>)
    ensures
      var p := Partitioned(c, stage, results);
      && multiset(p.completed) + multiset(p.incomplete) + multiset(p.unconfirmed)
         + multiset(p.notApplicable) == multiset(results)
      && (p.complete <==> forall r :: r in results ==> r.status == Complete || r.status == NotApplicable)
      && (forall r :: r in p.completed ==> r.status == Complete)
         && (forall r :: r in p.incomplete ==> r.status == Incomplete)
      && (forall r :: r in p.unconfirmed ==> r.status == Unconfirmed)
      && (forall r :: r in p.notApplicable ==> r.status == NotApplicable)
    decreases |results|
  {
    hide Having;
    HavingIs(results, Complete);
    HavingIs(results, Incomplete);
    HavingIs(results, Unconfirmed);
    HavingIs(results, NotApplicable);
    HavingAll(results);
    if Having(results, Incomplete) != [] {
      assert Having(results, Incomplete)[0] in Having(results, Incomplete);
    }
    if Having(results, Unconfirmed) != [] {
      assert Having(results, Unconfirmed)[0] in Having(results, Unconfirmed);
    }
  }

  lemma {:induction false} HavingIs(results: seq<ItemResult>, status: Status)
    ensures forall r :: r in Having(results, status) <==> r in results && r.status == status
    decreases |results|
  {
    if results != [] {
      var front, last := results[..|results| - 1], results[|results| - 1];
      assert results == front + [last];
      HavingIs(front, status);
    }
  }

  lemma {:induction false} HavingAll(results: seq<ItemResult>)
    ensures
      multiset(Having(results, Complete)) + multiset(Having(results, Incomplete))
          + multiset(Having(results, Unconfirmed))
      + multiset(Having(results, NotApplicable)) == multiset(results)
    decreases |results|
  {
    if results != [] {
      var front, last := results[..|results| - 1], results[|results| - 1];
      assert results == front + [last];
      HavingAll(front);
    }
  }

  /** For a guided session, the evaluation's unresolved items are those the guide works through. */
  lemma GuidedEvaluation(e: Engine, aircraft: Option<string>, world: World)
    requires e.definitions.Valid() && e.session.checklistId.Some? && e.session.stageId.Some?
    ensures
      match Evaluate(e, aircraft, e.session.checklistId, e.session.stageId, world)
      case Err => NextItem(e, world) == Err
      case Ok(evaluation) =>
        var unresolved := evaluation.incomplete + evaluation.unconfirmed;
        NextItem(e, world) == Ok(if unresolved == [] then None else Some(unresolved[0]))
  {
    hide StageChain, Having, Results;
  }

  function NextItem(e: Engine, world: World): Result<Option<ItemResult>> {
    match GuidedResults(e, world)
    case Err => Err
    case Ok(results) => Ok(if Unresolved(results) == [] then None else Some(Unresolved(results)[0]))
  }

  function Confirm(e: Engine, itemId: string, now: real): Engine {
    e.(session := e.session.(confirmed := e.session.confirmed[itemId := now]))
  }

  /** Only the current item can be confirmed; Ok brings it and whether telemetry was overridden. */
  function ConfirmCurrent(e: Engine, itemId: string, world: World, now: real): Result<(Engine, ItemResult, bool)> {
    if IsBlank(itemId) then Err
    else
      match NextItem(e, world)
      case Err => Err
      case Ok(None) => Err
      case Ok(Some(current)) =>
        if current.id != itemId then Err
        else Ok((Confirm(e, itemId, now), current, current.verification != Manual))
  }

  /** The pilot answers `next` with `confirm`, once for each time given. */
  function Guide(e: Engine, world: World, times: seq<real>): Result<Engine>
    decreases |times|
  {
    if times == [] then Ok(e)
    else
      match NextItem(e, world)
      case Err => Err
      case Ok(None) => Err
      case Ok(Some(current)) =>
        match ConfirmCurrent(e, current.id, world, times[0])
        case Err => Err
        case Ok((next, _, _)) => Guide(next, world, times[1..])
  }

  // ----- confirming one item

  function ResultIds(results: seq<ItemResult>): seq<string> {
    seq(|results|, i requires 0 <= i < |results| => results[i].id)
  }

  function Dropped(results: seq<ItemResult>, id: string): seq<ItemResult>
    decreases |results|
  {
    if results == [] then []
    else
      var front, last := Dropped(results[..|results| - 1], id), results[|results| - 1];
      if last.id == id then front else front + [last]
  }

  /** Latched results were made for the item they are kept under. */
  ghost predicate LatchedInOrder(latched: Latched) {
    forall k :: k in latched ==> latched[k].id == k.1
  }

  lemma ResultsKeepIds(checklistId: string, items: seq<Item>, confirmed: Confirmations, latched: Latched, world: World)
    requires LatchedInOrder(latched)
    ensures ResultIds(Results(checklistId, items, confirmed, latched, world)) == ItemIds(items)
  {
  }

  /** Confirming completes that item's result and changes no other. */
  lemma ConfirmChangesOne(checklistId: string, item: Item, confirmed: Confirmations, latched: Latched, world: World,
                          id: string, now: real)
    ensures
      ResultFor(checklistId, item, confirmed[id := now], latched, world) ==
      if item.id == id then PilotConfirmed(item, now) else ResultFor(checklistId, item, confirmed, latched, world)
  {
  }

  lemma {:induction false} HavingAfterConfirm(checklistId: string, items: seq<Item>, confirmed: Confirmations,
                                              latched: Latched, world: World,
                                             id: string, now: real, status: Status)
    requires LatchedInOrder(latched) && status != Complete
    ensures
      Having(Results(checklistId, items, confirmed[id := now], latched, world), status) ==
      Dropped(Having(Results(checklistId, items, confirmed, latched, world), status), id)
    decreases |items|
  {
    if items != [] {
      var front, last := items[..|items| - 1], items[|items| - 1];
      HavingAfterConfirm(checklistId, front, confirmed, latched, world, id, now, status);
      ConfirmChangesOne(checklistId, last, confirmed, latched, world, id, now);
      var before := Results(checklistId, items, confirmed, latched, world);
      var after := Results(checklistId, items, confirmed[id := now], latched, world);
      assert before[..|items| - 1] == Results(checklistId, front, confirmed, latched, world);
      assert after[..|items| - 1] == Results(checklistId, front, confirmed[id := now], latched, world);
      var kept := Having(Results(checklistId, front, confirmed, latched, world), status);
      var r := before[|items| - 1];
      assert (kept + [r])[..|kept|] == kept;
      assert r.id == last.id;
      hide ResultFor, Results;
    }
  }

  lemma {:induction false} DroppedConcat(a: seq<ItemResult>, b: seq<ItemResult>, id: string)
    ensures Dropped(a + b, id) == Dropped(a, id) + Dropped(b, id)
    decreases |b|
  {
    if b == [] {
      assert a + b == a;
    } else {
      assert (a + b)[..|a + b| - 1] == a + b[..|b| - 1];
      DroppedConcat(a, b[..|b| - 1], id);
    }
  }

  lemma {:induction false} DroppedAbsent(results: seq<ItemResult>, id: string)
    requires id !in ResultIds(results)
    ensures Dropped(results, id) == results
    decreases |results|
  {
    if results != [] {
      var front, last := results[..|results| - 1], results[|results| - 1];
      assert ResultIds(results) == ResultIds(front) + [last.id];
      DroppedAbsent(front, id);
      assert results == front + [last];
    }
  }

  lemma DroppedHead(results: seq<ItemResult>)
    requires results != [] && NoDuplicates(ResultIds(results))
    ensures Dropped(results, results[0].id) == results[1..]
  {
    NoDuplicatesTail(ResultIds(results));
    assert ResultIds(results)[1..] == ResultIds(results[1..]);
    assert results == [results[0]] + results[1..] && [results[0]][..0] == [];
    DroppedConcat([results[0]], results[1..], results[0].id);
    DroppedAbsent(results[1..], results[0].id);
  }

  lemma {:induction false} HavingDistinct(results: seq<ItemResult>, status: Status)
    requires NoDuplicates(ResultIds(results))
    ensures NoDuplicates(ResultIds(Having(results, status)))
    decreases |results|
  {
    if results != [] {
      var front, last := results[..|results| - 1], results[|results| - 1];
      assert ResultIds(results)[..|results| - 1] == ResultIds(front);
      HavingDistinct(front, status);
      HavingIs(front, status);
      var kept := Having(front, status);
      IdsOfMembers(kept, front, last.id);
      assert ResultIds(kept + [last]) == ResultIds(kept) + [last.id];
      AppendFresh(ResultIds(kept), last.id);
    }
  }

  lemma IdsOfMembers(some: seq<ItemResult>, all: seq<ItemResult>, id: string)
    requires forall r :: r in some ==> r in all
    requires id !in ResultIds(all)
    ensures id !in ResultIds(some)
  {
    forall i | 0 <= i < |some| ensures ResultIds(some)[i] != id {
      assert some[i] in all;
      var j :| 0 <= j < |all| && all[j] == some[i];
      assert ResultIds(all)[j] == some[i].id;
    }
  }

  lemma UnresolvedDistinct(results: seq<ItemResult>)
    requires NoDuplicates(ResultIds(results))
    ensures NoDuplicates(ResultIds(Unresolved(results)))
    ensures forall r :: r in Unresolved(results) <==>
            r in results && (r.status == Incomplete || r.status == Unconfirmed)
  {
    HavingDistinct(results, Incomplete);
    HavingDistinct(results, Unconfirmed);
    HavingIs(results, Incomplete);
    HavingIs(results, Unconfirmed);
    var a, b := Having(results, Incomplete), Having(results, Unconfirmed);
    assert ResultIds(a + b) == ResultIds(a) + ResultIds(b);
    forall id | id in ResultIds(a) ensures id !in ResultIds(b) {
      if id in ResultIds(b) {
        var i :| 0 <= i < |a| && ResultIds(a)[i] == id;
        var j :| 0 <= j < |b| && ResultIds(b)[j] == id;
        assert a[i] in results && b[j] in results && a[i].status != b[j].status;
        var k :| 0 <= k < |results| && results[k] == a[i];
        var l :| 0 <= l < |results| && results[l] == b[j];
        assert ResultIds(results)[k] == ResultIds(results)[l];
        DistinctPositions(ResultIds(results));
      }
    }
    DistinctConcat(ResultIds(a), ResultIds(b));
  }

  // ----- the guided session

  /** A guided checklist is open, and no two of its items share an identifier. */
  ghost predicate Guiding(e: Engine) {
    && LatchedInOrder(e.latched)
    && GuidedItems(e).Ok? && NoDuplicates(ItemIds(GuidedItems(e).value.1))
  }

  ghost function Open(e: Engine, world: World): seq<ItemResult>
    requires GuidedItems(e).Ok?
  {
    Unresolved(GuidedResults(e, world).value)
  }

  /**
    Confirming the current item removes exactly it from the unresolved items and changes no other result.
   */
  lemma {:induction false} ConfirmRemovesExactlyTheCurrent(e: Engine, world: World, now: real)
    requires Guiding(e) && Open(e, world) != [] && !IsBlank(Open(e, world)[0].id)
    ensures
      var current := Open(e, world)[0];
      var confirmed := ConfirmCurrent(e, current.id, world, now);
      && confirmed.Ok?
      && var (after, item, overridden) := confirmed.value;
         && item == current && (overridden <==> current.verification != Manual)
         && Guiding(after) && Open(after, world) == Open(e, world)[1..]
         && var (results, results') := (GuidedResults(e, world).value, GuidedResults(after, world).value);
            && |results'| == |results|
            && forall i :: 0 <= i < |results| ==>
                 && results'[i].id == results[i].id
                 && (if results[i].id == current.id then results'[i].status == Complete else results'[i] == results[i])
  {
    var (id, items) := GuidedItems(e).value;
    var current := Open(e, world)[0];
    var after := Confirm(e, current.id, now);
    assert GuidedItems(after) == GuidedItems(e);
    var confirmed := e.session.confirmed;
    ResultsKeepIds(id, items, confirmed, e.latched, world);
    ResultsKeepIds(id, items, after.session.confirmed, e.latched, world);
    UnresolvedDistinct(Results(id, items, confirmed, e.latched, world));
    HavingAfterConfirm(id, items, confirmed, e.latched, world, current.id, now, Incomplete);
    HavingAfterConfirm(id, items, confirmed, e.latched, world, current.id, now, Unconfirmed);
    var results := Results(id, items, confirmed, e.latched, world);
    DroppedConcat(Having(results, Incomplete), Having(results, Unconfirmed), current.id);
    DroppedHead(Unresolved(results));
    forall i | 0 <= i < |items|
      ensures Results(id, items, after.session.confirmed, e.latched, world)[i] ==
              if items[i].id == current.id then PilotConfirmed(items[i], now) else results[i]
      ensures results[i].id == items[i].id
    {
      ConfirmChangesOne(id, items[i], confirmed, e.latched, world, current.id, now);
      assert ItemIds(items)[i] == ResultIds(results)[i];
    }
    hide GuidedItems, ResultFor, Having, Dropped, NoDuplicates, IsBlank;
  }

  /** A confirmation is remembered with its time, says whether it went against telemetry, and changes nothing else. */
  lemma ConfirmationIsStamped(e: Engine, itemId: string, world: World, now: real)
    requires ConfirmCurrent(e, itemId, world, now).Ok?
    ensures
      var (after, item, overridden) := ConfirmCurrent(e, itemId, world, now).value;
      && item.id == itemId && NextItem(e, world) == Ok(Some(item)) && (overridden <==> item.verification != Manual)
      && after == e.(session := e.session.(confirmed := after.session.confirmed))
      && after.session.confirmed.Keys == e.session.confirmed.Keys + {itemId}
      && forall id :: id in after.session.confirmed ==>
           after.session.confirmed[id] == if id == itemId then now else e.session.confirmed[id]
  {
    hide NextItem;
  }

  /** A blank identifier at the head can never be confirmed. */
  lemma BlankItemBlocks(e: Engine, world: World, itemId: string, now: real)
    requires Guiding(e) && Open(e, world) != [] && IsBlank(Open(e, world)[0].id)
    ensures ConfirmCurrent(e, itemId, world, now).Err?
  {
  }

  /**
    The guided checklist ends after exactly as many confirmations as there were unresolved items, if and
    only if none of them has a blank identifier.
   */
  lemma {:induction false} GuidedChecklistTerminates(e: Engine, world: World, times: seq<real>)
    requires Guiding(e) && |times| <= |Open(e, world)|
    ensures
      var guided := Guide(e, world, times);
      && (guided.Ok? <==> forall i :: 0 <= i < |times| ==> !IsBlank(Open(e, world)[i].id))
      && (guided.Ok? ==> Guiding(guided.value) && Open(guided.value, world) == Open(e, world)[|times|..])
    decreases |times|
  {
    hide Guiding, IsBlank;
    if times != [] {
      NextIsOpen(e, world);
      var current := Open(e, world)[0];
      if IsBlank(current.id) {
        BlankItemBlocks(e, world, current.id, times[0]);
      } else {
        ConfirmRemovesExactlyTheCurrent(e, world, times[0]);
        var after := ConfirmCurrent(e, current.id, world, times[0]).value.0;
        GuidedChecklistTerminates(after, world, times[1..]);
        assert forall i :: 0 <= i < |times| - 1 ==> Open(after, world)[i] == Open(e, world)[i + 1];
        assert forall i :: 0 < i < |times| ==> Open(e, world)[i] == Open(after, world)[i - 1];
      }
      hide ConfirmCurrent, Open;
    }
  }

  lemma NextIsOpen(e: Engine, world: World)
    requires Guiding(e)
    ensures GuidedItems(e).Ok?
    ensures NextItem(e, world) == Ok(if Open(e, world) == [] then None else Some(Open(e, world)[0]))
  {
  }

  // ----- a validated definition can be guided

  lemma {:induction false} StageItemsDistinct(stages: seq<Stage>, s: Stage)
    requires UniqueIn(stages) && s in stages
    ensures NoDuplicates(ItemIds(s.items))
    ensures forall x :: x in ItemIds(s.items) ==> x in ItemIds(AllItems(stages))
    ensures forall t :: t in stages && t != s ==> forall x :: x in ItemIds(t.items) ==> x !in ItemIds(s.items)
    decreases |stages|
  {
    var n := |stages| - 1;
    var front, last := stages[..n], stages[n];
    assert stages == front + [last] && stages[..n + 1] == stages;
    AllItemsSnoc(stages, n);
    DistinctConcat(StageIds(front), [last.id]);
    DistinctConcat(ItemIds(AllItems(front)), ItemIds(last.items));
    forall t | t in front ensures forall x :: x in ItemIds(t.items) ==> x in ItemIds(AllItems(front)) {
      StageItemsDistinct(front, t);
    }
    if s in front {
      StageItemsDistinct(front, s);
    }
    hide NoDuplicates, AllItems, ItemIds, StageIds;
  }

  lemma {:induction false} ChainExists(c: Checklist, target: Stage)
    requires Acceptable(c) && target in c.stages
    ensures StageChain(c, target).Ok?
  {
    hide Needs, StageChain;
    StageChainIsOrdered(c, target);
    assert !HasCycle(c);
  }

  lemma {:induction false} ChainItemsDistinct(c: Checklist, chain: seq<Stage>)
    requires UniqueIn(c.stages) && NoDuplicates(StageIds(chain)) && forall s :: s in chain ==> s in c.stages
    ensures NoDuplicates(ItemIds(AllItems(chain)))
    decreases |chain|
  {
    if chain != [] {
      var n := |chain| - 1;
      var front, last := chain[..n], chain[n];
      assert chain == front + [last] && chain[..n + 1] == chain;
      AllItemsSnoc(chain, n);
      DistinctConcat(StageIds(front), [last.id]);
      ChainItemsDistinct(c, front);
      StageItemsDistinct(c.stages, last);
      forall x | x in ItemIds(AllItems(front)) ensures x !in ItemIds(last.items) {
        ItemOfSomeStage(front, x);
        var t :| t in front && x in ItemIds(t.items);
        var i :| 0 <= i < n && front[i] == t;
        assert StageIds(front)[i] == t.id;
      }
      DistinctConcat(ItemIds(AllItems(front)), ItemIds(last.items));
    }
  }

  lemma {:induction false} ItemOfSomeStage(stages: seq<Stage>, id: string)
    requires id in ItemIds(AllItems(stages))
    ensures exists t :: t in stages && id in ItemIds(t.items)
    decreases |stages|
  {
    var n := |stages| - 1;
    assert stages[..n + 1] == stages && stages == stages[..n] + [stages[n]];
    AllItemsSnoc(stages, n);
    if id in ItemIds(AllItems(stages[..n])) {
      ItemOfSomeStage(stages[..n], id);
      var t :| t in stages[..n] && id in ItemIds(t.items);
      assert t in stages;
    } else {
      assert stages[n] in stages;
    }
  }

  /** What the constructor leaves: accepted definitions, each under its own identifier. */
  ghost predicate Validated(definitions: Dict<string, Checklist>) {
    forall id :: id in definitions.at ==> Acceptable(definitions.at[id]) && definitions.at[id].id == id
  }

  /** Starting a stage of a validated checklist opens a guided session over the stages it needs. */
  lemma {:induction false} StartOpensGuide(e: Engine, checklistId: string, stageId: Option<string>)
    requires Validated(e.definitions) && LatchedInOrder(e.latched) && Start(e, checklistId, stageId).Ok?
    ensures Guiding(Start(e, checklistId, stageId).value)
  {
    var c := e.definitions.at[checklistId];
    var stage := StageFor(c, stageId).value;
    var after := Start(e, checklistId, stageId).value;
    StageByIdIs(c, c.stages, stage);
    StageChainIsOrdered(c, stage);
    assert !CycleFrom(c, stage.id) by {
      assert !HasCycle(c);
    }
    ChainItemsDistinct(c, StageChain(c, stage).value);
    hide StageChain, Needs, Reaches;
  }

  // ----- a blank identifier gets that far

  function OneItem(item: Item): Checklist {
    Checklist("list", "aircraft", [Stage("stage", [item], [])], None)
  }

  lemma OneItemIsAcceptable(item: Item)
    ensures Acceptable(OneItem(item))
  {
    var c := OneItem(item);
    assert c.stages[..0] == [] && AllItems(c.stages) == [item];
    IndependentMeansAcyclic(c);
  }

  lemma IndependentMeansAcyclic(c: Checklist)
    requires forall s :: s in c.stages ==> s.dependsOn == []
    ensures !HasCycle(c)
  {
    assert forall a, b :: !DependsOn(c, a, b);
    forall path: seq<string> | |path| >= 2 ensures !IsPath(c, path) {
      assert !DependsOn(c, path[0], path[1]);
    }
  }

  lemma StageAlone(c: Checklist, stage: Stage)
    requires stage in c.stages && stage.dependsOn == []
    ensures StageChain(c, stage) == Ok([stage])
  {
    var w := Walk([], {}, {} + {stage.id});
    assert VisitAll(c, stage.dependsOn, w) == Ok(w) && [] + [stage] == [stage];
  }

  lemma OneItemIsGuided(item: Item, world: World)
    ensures
      var definitions: Dict<string, Checklist> := Empty();
      var e := Engine(definitions.Put("list", OneItem(item)), NoSession(), map[]);
      && Validated(e.definitions) && Start(e, "list", None).Ok?
      && var started := Start(e, "list", None).value;
         && Guiding(started)
         && GuidedResults(started, world) == Ok([EvaluateItem(item, map[], world)])
  {
    hide Acceptable, EvaluateItem, NoDuplicates;
    OneItemIsAcceptable(item);
    var c := OneItem(item);
    var definitions: Dict<string, Checklist> := Empty();
    var e := Engine(definitions.Put("list", c), NoSession(), map[]);
    StartOpensGuide(e, "list", None);
    assert [c.stages[0]][..0] == [] && AllItems([c.stages[0]]) == [item];
    StageAlone(c, c.stages[0]);
    var started := Start(e, "list", None).value;
    assert StageById(c.stages, "stage") == Some(c.stages[0]);
    assert GuidedItems(started) == Ok(("list", [item]));
    assert started.session.confirmed == map[];
    assert Results("list", [item], map[], map[], world) == [EvaluateItem(item, map[], world)];
  }

  /**
    A definition whose item has a blank identifier is accepted and can be started, but while its manual
    item applies the pilot can never confirm it.
   */
  lemma {:induction false} BlankItemIsStuck(id: string, name: string, latch: bool, world: World, now: real)
    requires IsBlank(id) && world.applicable(Item(id, name, Manual, latch))
    ensures
      var item := Item(id, name, Manual, latch);
      var definitions: Dict<string, Checklist> := Empty();
      var e := Engine(definitions.Put("list", OneItem(item)), NoSession(), map[]);
      && Acceptable(OneItem(item)) && Start(e, "list", None).Ok?
      && Guide(Start(e, "list", None).value, world, [now]).Err?
  {
    hide Acceptable, NoDuplicates, IsBlank, GuidedItems, GuidedResults, Start, Guide, Guiding;
    var item := Item(id, name, Manual, latch);
    OneItemIsAcceptable(item);
    OneItemIsGuided(item, world);
    var definitions: Dict<string, Checklist> := Empty();
    var started := Start(Engine(definitions.Put("list", OneItem(item)), NoSession(), map[]), "list", None).value;
    var result := EvaluateItem(item, map[], world);
    assert [result][..0] == [] && Having([], Incomplete) == [] && Having([], Unconfirmed) == [];
    assert Unresolved([result]) == [result];
    OpenIs(started, world);
    GuidedChecklistTerminates(started, world, [now]);
  }

  lemma OpenIs(e: Engine, world: World)
    requires Guiding(e)
    ensures GuidedItems(e).Ok? && GuidedResults(e, world).Ok?
            && Open(e, world) == Unresolved(GuidedResults(e, world).value)
  {
  }

  // ----- what an evaluation says

  /** The source of a result that is not the pilot's word: how the item is verified. */
  ghost predicate SourceFits(v: Verification, source: Source) {
    && (source == Telemetry <==> v == ByState) && (source == DerivedTelemetry <==> v == ByDerivation)
    && (source == ObservedAction <==> v == ByAction) && (source == PilotConfirmation <==> v == Manual)
  }

  /**
    What must be reported for an item: the pilot's word first, then what was latched, then that it does not
    apply, then for a manual item that the pilot has not spoken, then what was found.
   */
  ghost predicate Says(e: Engine, checklistId: string, item: Item, world: World, r: ItemResult) {
    if item.id in e.session.confirmed then
      && r.id == item.id && r.name == item.name && r.verification == item.verification
      && r.status == Complete && r.observedAt == Some(e.session.confirmed[item.id])
      && r.source == if item.verification == Manual then PilotConfirmation else PilotOverride
    else if (checklistId, item.id) in e.latched then r == e.latched[(checklistId, item.id)]
    else
      && r.id == item.id && r.name == item.name && r.verification == item.verification
      && SourceFits(item.verification, r.source)
      && if !world.applicable(item) then r.status == NotApplicable && r.observedAt.None?
         else if item.verification == Manual then r.status == Unconfirmed && r.observedAt.None?
         else
           var found := world.finding(item);
           r.status == found.status && r.reason == found.reason && r.observedAt == found.observedAt
  }

  /** Nothing is left to do about the item. */
  ghost predicate IsSettled(e: Engine, checklistId: string, item: Item, world: World) {
    || item.id in e.session.confirmed
    || ((checklistId, item.id) in e.latched && e.latched[(checklistId, item.id)].status in {Complete, NotApplicable})
    || ((checklistId, item.id) !in e.latched
        && (|| !world.applicable(item)
            || (item.verification != Manual && world.finding(item).status in {Complete, NotApplicable})))
  }

  lemma {:induction false} ResultsSay(e: Engine, checklistId: string, items: seq<Item>, world: World)
    ensures
      var results := Results(checklistId, items, e.session.confirmed, e.latched, world);
      && |results| == |items|
      && forall i :: 0 <= i < |items| ==>
           && Says(e, checklistId, items[i], world, results[i])
           && (IsSettled(e, checklistId, items[i], world) <==> results[i].status in {Complete, NotApplicable})
  {
  }

  /** The item belongs to a stage that the target stage is or needs. */
  ghost predicate NeededFor(c: Checklist, target: Stage, item: Item) {
    exists s :: s in c.stages && Reaches(c, target.id, s.id) && item in s.items
  }

  lemma {:induction false} ItemsOf(stages: seq<Stage>, item: Item)
    ensures item in AllItems(stages) <==> exists s :: s in stages && item in s.items
    decreases |stages|
  {
    if stages != [] {
      var front, last := stages[..|stages| - 1], stages[|stages| - 1];
      assert stages == front + [last];
      ItemsOf(front, item);
    }
  }

  lemma {:induction false} ChainItems(c: Checklist, target: Stage, item: Item)
    requires Acceptable(c) && target in c.stages
    ensures StageChain(c, target).Ok?
    ensures item in AllItems(StageChain(c, target).value) <==> NeededFor(c, target, item)
  {
    hide AllItems, Needs, StageChain, ItemIds;
    StageChainIsOrdered(c, target);
    ChainExists(c, target);
    var chain := StageChain(c, target).value;
    ItemsOf(chain, item);
    forall s | s in c.stages ensures s in chain <==> Reaches(c, target.id, s.id) {
      InChain(c, chain, s);
    }
  }

  lemma InChain(c: Checklist, chain: seq<Stage>, s: Stage)
    requires UniqueStages(c) && s in c.stages && forall t :: t in chain ==> t in c.stages
    ensures s in chain <==> s.id in StageIds(chain)
  {
    if s in chain {
      var i :| 0 <= i < |chain| && chain[i] == s;
      assert StageIds(chain)[i] == s.id;
    }
    if s.id in StageIds(chain) {
      var i :| 0 <= i < |chain| && StageIds(chain)[i] == s.id;
      assert chain[i] in c.stages && chain[i].id == s.id;
      var p :| 0 <= p < |c.stages| && c.stages[p] == s;
      var q :| 0 <= q < |c.stages| && c.stages[q] == chain[i];
      assert StageIds(c.stages)[p] == StageIds(c.stages)[q];
      DistinctPositions(StageIds(c.stages));
    }
  }

  /** All results an evaluation reports. */
  function Listing(v: Evaluation): seq<ItemResult> {
    v.completed + v.incomplete + v.unconfirmed + v.notApplicable
  }

  /** The checklist an evaluation is of, and the stage it is for. */
  ghost predicate IsOf(e: Engine, v: Evaluation, c: Checklist, target: Stage) {
    && v.checklistId in e.definitions.at && e.definitions.at[v.checklistId] == c && v.aircraft == c.aircraft
    && target in c.stages && target.id == v.stageId
  }

  /** The checklist and the stage an evaluation must choose: those asked for, else those being guided, else defaults. */
  ghost predicate IsChosen(e: Engine, aircraft: Option<string>, checklistId: Option<string>, stageId: Option<string>,
                           c: Checklist, target: Stage)
  {
    && (if checklistId.Some? && checklistId.value != "" then c.id == checklistId.value
        else if e.session.checklistId.Some? then c.id == e.session.checklistId.value
        else aircraft == Some(c.aircraft))
    && (if stageId.Some? && stageId.value != "" then target.id == stageId.value
        else if e.session.stageId.Some? then target.id == e.session.stageId.value
        else if c.defaultStage.Some? then target.id == c.defaultStage.value
        else c.stages != [] && target == c.stages[0])
  }

  /** The evaluation reports what it must for every needed item and nothing else; complete means all are settled. */
  ghost predicate Covers(e: Engine, c: Checklist, target: Stage, world: World, v: Evaluation) {
    && (v.complete <==> forall item :: NeededFor(c, target, item) ==> IsSettled(e, c.id, item, world))
    && (forall item :: NeededFor(c, target, item) ==> exists r :: r in Listing(v) && Says(e, c.id, item, world, r))
    && (forall r :: r in Listing(v) ==> exists item :: NeededFor(c, target, item) && Says(e, c.id, item, world, r))
  }

  /** An evaluation that lists results saying what they must of every needed item is what must be reported. */
  lemma {:induction false} ListingCovers(e: Engine, c: Checklist, target: Stage, world: World, items: seq<Item>,
                                         results: seq<ItemResult>, v: Evaluation)
    requires forall item :: item in items <==> NeededFor(c, target, item)
    requires |results| == |items|
    requires forall i :: 0 <= i < |items| ==>
               && Says(e, c.id, items[i], world, results[i])
               && (IsSettled(e, c.id, items[i], world) <==> results[i].status in {Complete, NotApplicable})
    requires forall r :: r in Listing(v) <==> r in results
    requires v.complete <==> forall r :: r in results ==> r.status in {Complete, NotApplicable}
    ensures Covers(e, c, target, world, v)
  {
    hide Says, IsSettled, NeededFor, Listing;
    SettledExactly(e, c.id, items, world, results);
    SaidOfEach(e, c.id, items, world, results);
  }

  lemma {:induction false} ChainCovers(e: Engine, c: Checklist, target: Stage, world: World)
    requires Acceptable(c) && target in c.stages
    ensures StageChain(c, target).Ok?
    ensures
      var items := AllItems(StageChain(c, target).value);
      Covers(e, c, target, world, Partitioned(c, target, Results(c.id, items, e.session.confirmed, e.latched, world)))
  {
    hide Says, IsSettled, StageChain, Results, Needs, Acceptable, NeededFor, AllItems, Covers, Partitioned,
      Listing;
    ChainExists(c, target);
    var items := AllItems(StageChain(c, target).value);
    forall item ensures item in items <==> NeededFor(c, target, item) {
      ChainItems(c, target, item);
    }
    ResultsSay(e, c.id, items, world);
    var results := Results(c.id, items, e.session.confirmed, e.latched, world);
    PartitionIsExact(c, target, results);
    SamePartition(Partitioned(c, target, results), results);
    ListingCovers(e, c, target, world, items, results, Partitioned(c, target, results));
  }

  lemma ChosenIsRight(e: Engine, aircraft: Option<string>, checklistId: Option<string>, stageId: Option<string>)
    requires e.definitions.Valid() && Validated(e.definitions)
    requires DefinitionFor(e, aircraft, checklistId).Some?
    requires StageFor(DefinitionFor(e, aircraft, checklistId).value, Given(stageId, e.session.stageId)).Some?
    ensures
      var c := DefinitionFor(e, aircraft, checklistId).value;
      IsChosen(e, aircraft, checklistId, stageId, c, StageFor(c, Given(stageId, e.session.stageId)).value)
  {
    hide Acceptable, StageById;
    FirstForIsFirst(e.definitions.Values(), aircraft);
    var c := DefinitionFor(e, aircraft, checklistId).value;
    var chosen := Given(stageId, e.session.stageId);
    if chosen.Some? || c.defaultStage.Some? {
      StageIsNamed(c, if chosen.Some? then chosen.value else c.defaultStage.value);
    }
  }

  lemma StageIsNamed(c: Checklist, id: string)
    ensures StageById(c.stages, id).Some? ==> StageById(c.stages, id).value.id == id
  {
  }

  /**
    An evaluation is of the checklist and the stage it must choose, reports what it must for every item of the
    stages that stage needs, and nothing else; it is complete if and only if each of those items is settled.
   */
  lemma {:induction false} EvaluationSays(e: Engine, aircraft: Option<string>, checklistId: Option<string>,
                                          stageId: Option<string>, world: World)
    requires e.definitions.Valid() && Validated(e.definitions)
    requires Evaluate(e, aircraft, checklistId, stageId, world).Ok?
    ensures
      var v := Evaluate(e, aircraft, checklistId, stageId, world).value;
      exists c, target ::
        && IsChosen(e, aircraft, checklistId, stageId, c, target) && IsOf(e, v, c, target)
        && Covers(e, c, target, world, v)
  {
    hide StageChain, Results, Having, Acceptable, AllItems, Covers, IsChosen;
    var c := DefinitionFor(e, aircraft, checklistId).value;
    DefinitionIsListed(e, aircraft, checklistId);
    var target := StageFor(c, Given(stageId, e.session.stageId)).value;
    ChosenIsRight(e, aircraft, checklistId, stageId);
    ChainCovers(e, c, target, world);
    assert IsOf(e, Evaluate(e, aircraft, checklistId, stageId, world).value, c, target);
  }

  lemma {:induction false} SettledExactly(e: Engine, checklistId: string, items: seq<Item>, world: World,
                                          results: seq<ItemResult>)
    requires |results| == |items|
    requires forall i :: 0 <= i < |items| ==>
               && Says(e, checklistId, items[i], world, results[i])
               && (IsSettled(e, checklistId, items[i], world) <==> results[i].status in {Complete, NotApplicable})
    ensures
      (forall r :: r in results ==> r.status in {Complete, NotApplicable}) <==>
      forall item :: item in items ==> IsSettled(e, checklistId, item, world)
  {
    hide Says, IsSettled;
    if forall r :: r in results ==> r.status in {Complete, NotApplicable} {
      forall item | item in items ensures IsSettled(e, checklistId, item, world) {
        var i :| 0 <= i < |items| && items[i] == item;
        assert results[i] in results;
      }
    }
    if forall item :: item in items ==> IsSettled(e, checklistId, item, world) {
      forall r | r in results ensures r.status in {Complete, NotApplicable} {
        var i :| 0 <= i < |results| && results[i] == r;
        assert items[i] in items;
      }
    }
  }

  lemma {:induction false} SaidOfEach(e: Engine, checklistId: string, items: seq<Item>, world: World,
                                      results: seq<ItemResult>)
    requires |results| == |items|
    requires forall i :: 0 <= i < |items| ==> Says(e, checklistId, items[i], world, results[i])
    ensures forall item :: item in items ==> exists r :: r in results && Says(e, checklistId, item, world, r)
    ensures forall r :: r in results ==> exists item :: item in items && Says(e, checklistId, item, world, r)
  {
    hide Says;
    forall item | item in items ensures exists r :: r in results && Says(e, checklistId, item, world, r) {
      var i :| 0 <= i < |items| && items[i] == item;
      assert results[i] in results;
    }
    forall r | r in results ensures exists item :: item in items && Says(e, checklistId, item, world, r) {
      var i :| 0 <= i < |results| && results[i] == r;
      assert items[i] in items;
    }
  }

  lemma SamePartition(v: Evaluation, results: seq<ItemResult>)
    requires multiset(v.completed) + multiset(v.incomplete) + multiset(v.unconfirmed)
             + multiset(v.notApplicable) == multiset(results)
    ensures forall r :: r in Listing(v) <==> r in results
  {
    assert multiset(Listing(v)) == multiset(results);
    forall r ensures r in Listing(v) <==> r in results {
      assert r in Listing(v) <==> r in multiset(Listing(v));
    }
  }

  lemma {:induction false} DefinitionIsListed(e: Engine, aircraft: Option<string>, checklistId: Option<string>)
    requires e.definitions.Valid() && Validated(e.definitions)
    ensures
      match DefinitionFor(e, aircraft, checklistId)
      case None => true
      case Some(c) => c.id in e.definitions.at && e.definitions.at[c.id] == c && Acceptable(c)
  {
    hide Acceptable, NoDuplicates;
    FirstForIsFirst(e.definitions.Values(), aircraft);
    if Given(checklistId, e.session.checklistId).None? && FirstFor(e.definitions.Values(), aircraft).Some? {
      var first := FirstFor(e.definitions.Values(), aircraft).value;
      var i :| 0 <= i < |e.definitions.keys| && e.definitions.Values()[i] == first;
      assert e.definitions.keys[i] in e.definitions.keys;
    }
  }

  /** Without a request and a guided checklist, the first one for the aircraft is meant. */
  lemma {:induction false} FirstForIsFirst(definitions: seq<Checklist>, aircraft: Option<string>)
    ensures
      match FirstFor(definitions, aircraft)
      case None => forall c :: c in definitions ==> Some(c.aircraft) != aircraft
      case Some(c) =>
        exists i :: 0 <= i < |definitions| && definitions[i] == c && Some(c.aircraft) == aircraft
                    && forall k :: 0 <= k < i ==> Some(definitions[k].aircraft) != aircraft
    decreases |definitions|
  {
    if definitions != [] && Some(definitions[0].aircraft) != aircraft {
      FirstForIsFirst(definitions[1..], aircraft);
      assert forall c :: c in definitions <==> c == definitions[0] || c in definitions[1..];
      if FirstFor(definitions, aircraft).Some? {
        var i :| 0 <= i < |definitions[1..]| && definitions[1..][i] == FirstFor(definitions, aircraft).value
                 && forall k :: 0 <= k < i ==> Some(definitions[1..][k].aircraft) != aircraft;
        assert definitions[i + 1] == FirstFor(definitions, aircraft).value;
        assert forall k :: 0 < k < i + 1 ==> definitions[k] == definitions[1..][k - 1];
      }
    }
  }

  /** The lists keep the order of the items. */
  lemma {:induction false} HavingKeepsOrder(results: seq<ItemResult>, status: Status)
    ensures Subsequence(Having(results, status), results)
    decreases |results|
  {
    if results != [] {
      var front, last := results[..|results| - 1], results[|results| - 1];
      assert results == front + [last];
      HavingKeepsOrder(front, status);
      SubsequenceSnoc(Having(front, status), front, last);
      hide Subsequence;
    }
  }

  // ----- latching

  predicate CompletesNow(item: Item, confirmed: Confirmations, world: World) {
    item.latchCompletion && EvaluateItem(item, confirmed, world).status == Complete
  }

  /** Items explicitly latched are remembered once found complete; what is remembered stays. */
  function LatchItems(checklistId: string, items: seq<Item>, latched: Latched, confirmed: Confirmations, world: World)
      : Latched
    decreases |items|
  {
    if items == [] then latched
    else
      var before, item := LatchItems(checklistId, items[..|items| - 1], latched, confirmed, world), items[|items| - 1];
      if (checklistId, item.id) !in before && CompletesNow(item, confirmed, world) then
        before[(checklistId, item.id) := EvaluateItem(item, confirmed, world)]
      else before
  }

  function LatchDefinitions(definitions: seq<Checklist>, aircraft: Option<string>, latched: Latched,
                            confirmed: Confirmations, world: World): Latched
    decreases |definitions|
  {
    if definitions == [] then latched
    else
      var before, c := LatchDefinitions(definitions[..|definitions| - 1], aircraft, latched, confirmed, world),
          definitions[|definitions| - 1];
      if Some(c.aircraft) == aircraft then LatchItems(c.id, AllItems(c.stages), before, confirmed, world) else before
  }

  lemma {:induction false} LatchItemsKeeps(checklistId: string, items: seq<Item>, latched: Latched,
                                           confirmed: Confirmations, world: World)
    requires LatchedInOrder(latched)
    ensures
      var after := LatchItems(checklistId, items, latched, confirmed, world);
      && LatchedInOrder(after)
      && (forall k :: k in latched ==> k in after && after[k] == latched[k])
      && (forall k :: k in after && k !in latched ==> after[k].status == Complete)
      && (forall x :: x in items && CompletesNow(x, confirmed, world) ==> (checklistId, x.id) in after)
    decreases |items|
  {
    if items != [] {
      var front, last := items[..|items| - 1], items[|items| - 1];
      assert items == front + [last];
      LatchItemsKeeps(checklistId, front, latched, confirmed, world);
    }
  }

  lemma {:induction false} LatchDefinitionsKeeps(definitions: seq<Checklist>, aircraft: Option<string>,
                                                 latched: Latched,
                                                 confirmed: Confirmations, world: World)
    requires LatchedInOrder(latched)
    ensures
      var after := LatchDefinitions(definitions, aircraft, latched, confirmed, world);
      && LatchedInOrder(after)
      && (forall k :: k in latched ==> k in after && after[k] == latched[k])
      && (forall k :: k in after && k !in latched ==> after[k].status == Complete)
      && (forall c, x :: c in definitions && Some(c.aircraft) == aircraft && x in AllItems(c.stages) ==>
            CompletesNow(x, confirmed, world) ==> (c.id, x.id) in after)
    decreases |definitions|
  {
    if definitions != [] {
      var front, last := definitions[..|definitions| - 1], definitions[|definitions| - 1];
      assert definitions == front + [last];
      LatchDefinitionsKeeps(front, aircraft, latched, confirmed, world);
      var before := LatchDefinitions(front, aircraft, latched, confirmed, world);
      LatchItemsKeeps(last.id, AllItems(last.stages), before, confirmed, world);
      hide LatchItems, EvaluateItem;
    }
  }

  /** The item is one to remember, applies, and is found complete: what is found, or that the pilot confirmed it. */
  ghost predicate SeenComplete(item: Item, confirmed: Confirmations, world: World, r: ItemResult) {
    && item.latchCompletion && world.applicable(item) && r.status == Complete
    && r.id == item.id && r.name == item.name && r.verification == item.verification
    && SourceFits(item.verification, r.source)
    && if item.verification == Manual then item.id in confirmed && r.observedAt == None
       else
         var found := world.finding(item);
         found.status == Complete && r.reason == found.reason && r.observedAt == found.observedAt
  }

  lemma CompletesExactly(item: Item, confirmed: Confirmations, world: World)
    ensures CompletesNow(item, confirmed, world) ==>
              SeenComplete(item, confirmed, world, EvaluateItem(item, confirmed, world))
    ensures (exists r :: SeenComplete(item, confirmed, world, r)) ==> CompletesNow(item, confirmed, world)
  {
  }

  /** One of the items is behind what is remembered anew. */
  ghost predicate Behind(definitions: seq<Checklist>, aircraft: Option<string>, confirmed: Confirmations, world: World,
                         k: (string, string), r: ItemResult)
  {
    exists c, x :: c in definitions && Some(c.aircraft) == aircraft && c.id == k.0 && x in AllItems(c.stages)
                   && x.id == k.1 && SeenComplete(x, confirmed, world, r)
  }

  lemma {:induction false} ItemsBehind(checklistId: string, items: seq<Item>, latched: Latched,
                                       confirmed: Confirmations, world: World)
    ensures
      var after := LatchItems(checklistId, items, latched, confirmed, world);
      forall k :: k in after && k !in latched ==>
        k.0 == checklistId && exists x :: x in items && x.id == k.1 && SeenComplete(x, confirmed, world, after[k])
    decreases |items|
  {
    hide SeenComplete, EvaluateItem, CompletesNow;
    if items != [] {
      var front, last := items[..|items| - 1], items[|items| - 1];
      assert items == front + [last];
      ItemsBehind(checklistId, front, latched, confirmed, world);
      CompletesExactly(last, confirmed, world);
    }
  }

  /**
    What is remembered anew was seen complete just now, for an item of a checklist of the aircraft; and every
    such item is remembered.
   */
  lemma {:induction false} LatchedExactly(definitions: seq<Checklist>, aircraft: Option<string>, latched: Latched,
                                          confirmed: Confirmations, world: World)
    requires LatchedInOrder(latched)
    ensures
      var after := LatchDefinitions(definitions, aircraft, latched, confirmed, world);
      && (forall k :: k in latched ==> k in after && after[k] == latched[k])
      && (forall k :: k in after && k !in latched ==> Behind(definitions, aircraft, confirmed, world, k, after[k]))
      && (forall k, r :: Behind(definitions, aircraft, confirmed, world, k, r) ==> k in after)
    decreases |definitions|
  {
    hide SeenComplete, EvaluateItem, CompletesNow, AllItems, LatchItems;
    LatchDefinitionsKeeps(definitions, aircraft, latched, confirmed, world);
    forall k, r | Behind(definitions, aircraft, confirmed, world, k, r)
      ensures k in LatchDefinitions(definitions, aircraft, latched, confirmed, world)
    {
      var c, x :| c in definitions && Some(c.aircraft) == aircraft && c.id == k.0 && x in AllItems(c.stages)
                  && x.id == k.1 && SeenComplete(x, confirmed, world, r);
      CompletesExactly(x, confirmed, world);
    }
    if definitions != [] {
      var front, last := definitions[..|definitions| - 1], definitions[|definitions| - 1];
      assert definitions == front + [last];
      LatchedExactly(front, aircraft, latched, confirmed, world);
      LatchDefinitionsKeeps(front, aircraft, latched, confirmed, world);
      var before := LatchDefinitions(front, aircraft, latched, confirmed, world);
      LatchItemsKeeps(last.id, AllItems(last.stages), before, confirmed, world);
      ItemsBehind(last.id, AllItems(last.stages), before, confirmed, world);
      BehindMore(front, last, aircraft, confirmed, world);
      hide Behind;
    }
  }

  lemma BehindMore(front: seq<Checklist>, last: Checklist, aircraft: Option<string>, confirmed: Confirmations,
                   world: World)
    ensures forall k, r :: Behind(front, aircraft, confirmed, world, k, r) ==>
              Behind(front + [last], aircraft, confirmed, world, k, r)
    ensures forall k: (string, string), r, x ::
              && Some(last.aircraft) == aircraft && last.id == k.0 && x in AllItems(last.stages) && x.id == k.1
              && SeenComplete(x, confirmed, world, r)
              ==> Behind(front + [last], aircraft, confirmed, world, k, r)
  {
    hide SeenComplete, AllItems;
  }

  // ----- one session after another

  /** The pilot's confirmations outlive a stop, and last until another checklist is started. */
  lemma RestartKeepsConfirmations(e: Engine, first: string, second: string, stageId: Option<string>,
                                  again: Option<string>)
    requires Start(e, first, stageId).Ok?
    ensures
      var guided := Start(e, first, stageId).value;
      guided.session.confirmed ==
      if e.session.progressId.None? || e.session.progressId.value == first then e.session.confirmed else map[]
    ensures
      var guided := Start(e, first, stageId).value;
      var restarted := Start(guided.(session := Stopped(guided.session)), second, again);
      restarted.Ok? ==>
        restarted.value.session.confirmed == if second == first then guided.session.confirmed else map[]
    ensures
      var guided := Start(e, first, stageId).value;
      GuidedItems(guided.(session := Stopped(guided.session))).Err?
  {
  }

  ghost predicate AllLatchedComplete(latched: Latched) {
    forall k :: k in latched ==> latched[k].status == Complete
  }

  /** Once an explicitly latched item has been observed complete, it stays complete whatever telemetry says later. */
  lemma {:induction false} ObservedStaysComplete(definitions: seq<Checklist>, c: Checklist, item: Item,
                                                 latched: Latched,
                                                 confirmed: Confirmations, seen: World, later: World,
                                                 laterConfirmed: Confirmations)
    requires LatchedInOrder(latched) && AllLatchedComplete(latched)
    requires c in definitions && item in AllItems(c.stages) && CompletesNow(item, confirmed, seen)
    ensures
      var after := LatchDefinitions(definitions, Some(c.aircraft), latched, confirmed, seen);
      AllLatchedComplete(after) && ResultFor(c.id, item, laterConfirmed, after, later).status == Complete
  {
    LatchDefinitionsKeeps(definitions, Some(c.aircraft), latched, confirmed, seen);
    var after := LatchDefinitions(definitions, Some(c.aircraft), latched, confirmed, seen);
    forall k | k in after ensures after[k].status == Complete {
      if k in latched {
        assert after[k] == latched[k];
      }
    }
    hide LatchDefinitions, EvaluateItem;
  }
}
