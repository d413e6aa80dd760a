/** The mutable checklist engine and its guided session. */
module GuidedChecklist {
  import opened Wrappers
  import opened InsertionDict
  import opened Stages
  import opened Checklists

  class ChecklistSession {
    var checklistId: Option<string>
    var stageId: Option<string>
    var progressId: Option<string>
    var confirmedItems: Confirmations

    function View(): Session
      reads this
    {
      Session(checklistId, stageId, progressId, confirmedItems)
    }

    constructor ()
      ensures View() == NoSession()
    {
      checklistId, stageId, progressId, confirmedItems := None, None, None, map[];
    }

    /** Progress survives a restart of the same checklist only. */
    method Begin(newChecklist: string, newStage: string)
      modifies this
      ensures View() == Started(old(View()), newChecklist, newStage)
    {
      if progressId.Some? && progressId.value != newChecklist {
        confirmedItems := map[];
      }
      checklistId, stageId, progressId := Some(newChecklist), Some(newStage), Some(newChecklist);
    }

    method Stop()
      modifies this
      ensures View() == Stopped(old(View()))
    {
      checklistId, stageId := None, None;
    }

    method Reset()
      modifies this
      ensures View() == NoSession()
    {
      Stop();
      progressId, confirmedItems := None, map[];
    }
  }

  /** Definitions by identifier, a later one replacing an earlier one in its place. */
  function ById(definitions: seq<Checklist>): Dict<string, Checklist>
    decreases |definitions|
  {
    if definitions == [] then Empty()
    else ById(definitions[..|definitions| - 1]).Put(definitions[|definitions| - 1].id, definitions[|definitions| - 1])
  }

  lemma {:induction false} ByIdIsKeyed(definitions: seq<Checklist>)
    ensures ById(definitions).Valid()
    ensures forall id :: id in ById(definitions).at ==> ById(definitions).at[id].id == id
    decreases |definitions|
  {
    if definitions != [] {
      var front, last := definitions[..|definitions| - 1], definitions[|definitions| - 1];
      ByIdIsKeyed(front);
      PutKeepsValid(ById(front), last.id, last);
    }
  }

  function FirstItem(items: seq<Item>, id: string): Option<Item>
    decreases |items|
  {
    if items == [] then None else if items[0].id == id then Some(items[0]) else FirstItem(items[1..], id)
  }

  class ChecklistEngine {
    var definitions: Dict<string, Checklist>
    const session: ChecklistSession
    var latched: Latched

    function View(): Engine
      reads this, session
    {
      Engine(definitions, session.View(), latched)
    }

    ghost predicate Valid()
      reads this, session
    {
      definitions.Valid() && Validated(definitions) && LatchedInOrder(latched) && AllLatchedComplete(latched)
    }

    constructor ()
      ensures Valid() && View() == Engine(Empty(), NoSession(), map[]) && fresh(session)
    {
      definitions, latched := Empty(), map[];
      session := new ChecklistSession();
    }

    /** Accepts a set of definitions exactly when every one that is kept is acceptable. */
    method Load(listing: seq<Checklist>) returns (ok: bool)
      requires Valid()
      modifies this, session
      ensures Valid()
      ensures ok <==> forall id :: id in ById(listing).at ==> Acceptable(ById(listing).at[id])
      ensures View() == if ok then Engine(ById(listing), NoSession(), map[]) else old(View())
    {
      hide Acceptable, NoDuplicates;
      var kept := Empty();
      for i := 0 to |listing|
        invariant kept == ById(listing[..i])
      {
        assert listing[..i + 1][..i] == listing[..i];
        kept := kept.Put(listing[i].id, listing[i]);
      }
      assert listing[..|listing|] == listing;
      ByIdIsKeyed(listing);
      for i := 0 to |kept.keys|
        invariant forall k :: 0 <= k < i ==> Acceptable(kept.at[kept.keys[k]])
        invariant Valid() && View() == old(View())
      {
        assert kept.keys[i] in kept.keys;
        var accepted := ValidateDefinition(kept.at[kept.keys[i]]);
        if !accepted {
          return false;
        }
      }
      forall id | id in kept.at ensures Acceptable(kept.at[id]) {
        assert id in kept.keys;
      }
      definitions, latched := kept, map[];
      session.Reset();
      return true;
    }

    /** False is an unknown checklist or stage. */
    method StartGuide(checklistId: string, stageId: Option<string>) returns (ok: bool)
      requires Valid()
      modifies session
      ensures Valid() && ok == Start(old(View()), checklistId, stageId).Ok?
      ensures View() == if ok then Start(old(View()), checklistId, stageId).value else old(View())
      ensures ok ==> Guiding(View())
    {
      if checklistId !in definitions.at {
        return false;
      }
      var stage := StageFor(definitions.at[checklistId], stageId);
      if stage.None? {
        return false;
      }
      StartOpensGuide(View(), checklistId, stageId);
      session.Begin(checklistId, stage.value.id);
      return true;
    }

    method StopGuide()
      requires Valid()
      modifies session
      ensures Valid() && View() == old(View()).(session := Stopped(old(session.View())))
    {
      session.Stop();
    }

    method Reset()
      requires Valid()
      modifies this, session
      ensures Valid() && View() == old(View()).(session := NoSession(), latched := map[])
    {
      session.Reset();
      latched := map[];
    }

    /** Latches what is complete now, for every definition of the current aircraft. */
    method Observe(aircraft: Option<string>, world: World)
      requires Valid()
      modifies this
      ensures Valid() && View() == old(View()).(latched :=
                                                LatchDefinitions(definitions.Values(), aircraft, old(latched),
                                                                 session.confirmedItems, world))
    {
      var all := definitions.Values();
      ghost var before := latched;
      for i := 0 to |all|
        invariant definitions == old(definitions) && session.View() == old(session.View())
        invariant latched == LatchDefinitions(all[..i], aircraft, before, session.confirmedItems, world)
      {
        assert all[..i + 1][..i] == all[..i];
        if Some(all[i].aircraft) == aircraft {
          LatchChecklist(all[i], world);
        }
      }
      assert all[..|all|] == all;
      LatchDefinitionsKeeps(all, aircraft, before, session.confirmedItems, world);
      forall k | k in latched ensures latched[k].status == Complete {
        if k in before {
          assert latched[k] == before[k];
        }
      }
    }

    method LatchChecklist(c: Checklist, world: World)
      modifies this`latched
      ensures latched == LatchItems(c.id, AllItems(c.stages), old(latched), session.confirmedItems, world)
    {
      var items := AllItems(c.stages);
      for i := 0 to |items|
        invariant latched == LatchItems(c.id, items[..i], old(latched), session.confirmedItems, world)
      {
        assert items[..i + 1][..i] == items[..i];
        var key := (c.id, items[i].id);
        if items[i].latchCompletion && key !in latched {
          var result := EvaluateItem(items[i], session.confirmedItems, world);
          if result.status == Complete {
            latched := latched[key := result];
          }
        }
      }
      assert items[..|items|] == items;
    }

    /** The results of the items of a chain of stages, in order. */
    method EvaluateItems(checklistId: string, chain: seq<Stage>, world: World) returns (results: seq<ItemResult>)
      ensures results == Results(checklistId, AllItems(chain), session.confirmedItems, latched, world)
    {
      hide ResultFor;
      results := [];
      for i := 0 to |chain|
        invariant results == Results(checklistId, AllItems(chain[..i]), session.confirmedItems, latched, world)
      {
        assert chain[..i + 1][..i] == chain[..i];
        var items := chain[i].items;
        for j := 0 to |items|
          invariant results == Results(checklistId, AllItems(chain[..i]) + items[..j], session.confirmedItems, latched,
                                       world)
        {
          assert AllItems(chain[..i]) + items[..j + 1] == (AllItems(chain[..i]) + items[..j]) + [items[j]];
          results := results + [ResultFor(checklistId, items[j], session.confirmedItems, latched, world)];
        }
        assert items[..|items|] == items;
      }
      assert chain[..|chain|] == chain;
    }

    method Select(results: seq<ItemResult>, status: Status) returns (picked: seq<ItemResult>)
      ensures picked == Having(results, status)
    {
      picked := [];
      for i := 0 to |results|
        invariant picked == Having(results[..i], status)
      {
        assert results[..i + 1][..i] == results[..i];
        if results[i].status == status {
          picked := picked + [results[i]];
        }
      }
      assert results[..|results|] == results;
    }

    method FindDefinition(aircraft: Option<string>, checklistId: Option<string>) returns (found: Option<Checklist>)
      requires Valid()
      ensures found == DefinitionFor(View(), aircraft, checklistId)
    {
      var requested := Given(checklistId, session.checklistId);
      if requested.Some? {
        return if requested.value in definitions.at then Some(definitions.at[requested.value]) else None;
      }
      var all := definitions.Values();
      assert all[0..] == all;
      for i := 0 to |all|
        invariant FirstFor(all[i..], aircraft) == FirstFor(all, aircraft)
      {
        assert all[i..][0] == all[i] && all[i..][1..] == all[i + 1..];
        if Some(all[i].aircraft) == aircraft {
          return Some(all[i]);
        }
      }
      return None;
    }

    method EvaluateChecklist(aircraft: Option<string>, checklistId: Option<string>, stageId: Option<string>,
                             world: World)
      returns (r: Result<Evaluation>)
      requires Valid()
      ensures r == Evaluate(View(), aircraft, checklistId, stageId, world)
    {
      hide StageChain, DefinitionFor, Results, Having, Acceptable;
      var definition := FindDefinition(aircraft, checklistId);
      if definition.None? {
        return Err;
      }
      var stage := StageFor(definition.value, Given(stageId, session.stageId));
      if stage.None? {
        return Err;
      }
      var chain := ChainOf(definition.value, stage.value);
      if chain.Err? {
        return Err;
      }
      var results := EvaluateItems(definition.value.id, chain.value, world);
      var complete := Select(results, Complete);
      var incomplete := Select(results, Incomplete);
      var unconfirmed := Select(results, Unconfirmed);
      var notApplicable := Select(results, NotApplicable);
      return Ok(Evaluation(definition.value.id, definition.value.aircraft, stage.value.id,
                           incomplete == [] && unconfirmed == [],
                           complete, incomplete, unconfirmed, notApplicable));
    }

    /** The first unresolved item of the guided stage; Err when nothing is being guided. */
    method Next(world: World) returns (r: Result<Option<ItemResult>>)
      requires Valid()
      ensures r == NextItem(View(), world)
    {
      if session.checklistId.None? || session.stageId.None? {
        return Err;
      }
      GuidedEvaluation(View(), None, world);
      var evaluation := EvaluateChecklist(None, session.checklistId, session.stageId, world);
      if evaluation.Err? {
        return Err;
      }
      var unresolved := evaluation.value.incomplete + evaluation.value.unconfirmed;
      return Ok(if unresolved == [] then None else Some(unresolved[0]));
    }

    /** Err leaves the session as it was. */
    method ConfirmCurrentItem(itemId: string, world: World, now: real) returns (r: Result<(ItemResult, bool)>)
      requires Valid()
      modifies session
      ensures Valid()
      ensures
        match ConfirmCurrent(old(View()), itemId, world, now)
        case Err => r == Err && View() == old(View())
        case Ok((after, item, overridden)) => r == Ok((item, overridden)) && View() == after
    {
      if IsBlank(itemId) {
        return Err;
      }
      var current := Next(world);
      if current.Err? || current.value.None? || current.value.value.id != itemId {
        return Err;
      }
      session.confirmedItems := session.confirmedItems[itemId := now];
      return Ok((current.value.value, current.value.value.verification != Manual));
    }

    /** Confirms any manual item of the guided checklist. */
    method ConfirmManualItem(itemId: string) returns (ok: bool)
      requires Valid()
      modifies session
      ensures Valid()
      ensures ok ==> session.View() == old(session.View()).(confirmed := old(session.confirmedItems)[itemId := 0.0])
      ensures !ok ==> View() == old(View())
      ensures
        ok <==>
        && !IsBlank(itemId) && session.checklistId.Some? && session.checklistId.value in definitions.at
        && var item := FirstItem(AllItems(definitions.at[session.checklistId.value].stages), itemId);
           item.Some? && item.value.verification == Manual
    {
      if IsBlank(itemId) || session.checklistId.None? || session.checklistId.value !in definitions.at {
        return false;
      }
      var items := AllItems(definitions.at[session.checklistId.value].stages);
      for i := 0 to |items|
        invariant FirstItem(items[i..], itemId) == FirstItem(items, itemId)
        invariant View() == old(View())
      {
        assert items[i..][0] == items[i] && items[i..][1..] == items[i + 1..];
        if items[i].id == itemId {
          if items[i].verification != Manual {
            return false;
          }
          session.confirmedItems := session.confirmedItems[itemId := 0.0];
          return true;
        }
      }
      return false;
    }
  }
}
