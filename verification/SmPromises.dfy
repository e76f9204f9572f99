/** What the state machine does when it should: every request it sends can be answered, a
    settled preheat moves on, a cook that is done is stopped, and the rest of the house
    follows the oven. All of it is told from the states and effects alone. */
module SmPromises {
  import opened Preheat
  import opened Prelude
  import opened SmModel
  import opened SmProofs

  // ---- Every request is awaited under its own id ----

  /** One of the last `n` controls tracked has this id. */
  ghost predicate Tracks(controls: seq<Tracked>, id: Id, n: nat) {
    exists i :: 0 <= i < |controls| && |controls| - n <= i && controls[i].requestId == id
  }

  /** The state waits for the answer to this request. */
  ghost predicate Awaits(s: Sm, e: Effect) {
    e.Ws? ==>
      match e.ws
      case SendStart(id, _, _, _) => s.start.Some? && s.start.value.requestId == id
      case SendStop(id) => s.stop == Some(id)
      case Control(id, _) => Tracks(s.controls, id, MAX_PENDING_CONTROLS)
  }

  /** A control among the last `n` sent. */
  ghost predicate Recent(s: Sm, e: Effect, n: nat) {
    e.Ws? ==> e.ws.Control? && Tracks(s.controls, e.ws.requestId, n)
  }

  lemma ControlTracked(s: Sm, name: string, control: OvenControl)
    ensures var (t, e) := SendControl(s, name, control); Recent(t, e, 1)
  {
    var t := SendControl(s, name, control).0;
    assert t.controls[|t.controls| - 1].requestId == s.nextId;
  }

  /** Another control sent makes the others one less recent, and forgets none of the last few. */
  lemma ControlKeeps(s: Sm, name: string, control: OvenControl, id: Id, n: nat)
    requires Tracks(s.controls, id, n) && n < MAX_PENDING_CONTROLS
    ensures Tracks(SendControl(s, name, control).0.controls, id, n + 1)
  {
    var (all, t) := (s.controls + [Tracked(s.nextId, name)], SendControl(s, name, control).0);
    var i :| 0 <= i < |s.controls| && |s.controls| - n <= i && s.controls[i].requestId == id;
    var dropped := |all| - |t.controls|;
    assert t.controls == all[dropped..];
    assert t.controls[i - dropped].requestId == id;
  }

  lemma TracksMore(controls: seq<Tracked>, id: Id, n: nat, m: nat)
    requires Tracks(controls, id, n) && n <= m
    ensures Tracks(controls, id, m)
  {
  }

  lemma SettledTracked(s: Sm, r: Report)
    ensures var (t, _, effects) := SettlePreheat(s, r); forall e <- effects :: Recent(t, e, 1)
  {
    var out := Settle(s.watch, s.local, s.tolerance, r);
    if out.start.Some? {
      ControlTracked(s.(watch := out.watch), "next_stage", StartStage(out.start.value));
    }
  }

  lemma EdgeTracked(s: Sm, status: OvenStatus)
    ensures forall e <- Edge(s, status).1 :: Recent(Edge(s, status).0, e, 1)
    ensures forall id :: Tracks(s.controls, id, 1) ==> Tracks(Edge(s, status).0.controls, id, 2)
  {
    if status.cooking && !SaysCooking(s) {
      var origin := if s.lifecycle == StartPending then AckConfirmed
        else if s.status.Some? then WsExternal else StartupSync;
      var began := Enter(s.(start := None), Cooking, origin);
      ControlTracked(began, "lamp", SetLamp(true));
      forall id | Tracks(s.controls, id, 1) ensures Tracks(Edge(s, status).0.controls, id, 2) {
        ControlKeeps(began, "lamp", SetLamp(true), id, 1);
        TracksMore(s.controls, id, 1, 2);
      }
    } else {
      forall id | Tracks(s.controls, id, 1) ensures Tracks(s.controls, id, 2) {
        TracksMore(s.controls, id, 1, 2);
      }
    }
  }

  lemma StopAwaited(s: Sm)
    ensures forall e <- Stop(s).2 :: Awaits(Stop(s).1, e)
    ensures forall id :: Tracks(s.controls, id, 2) ==> Tracks(Stop(s).1.controls, id, 3)
  {
    ControlTracked(s, "lamp", SetLamp(false));
    forall id | Tracks(s.controls, id, 2) ensures Tracks(Stop(s).1.controls, id, 3) {
      ControlKeeps(s, "lamp", SetLamp(false), id, 2);
      TracksMore(s.controls, id, 2, 3);
    }
    forall e | e in Stop(s).2 && e.Ws? && e.ws.Control? ensures Awaits(Stop(s).1, e) {
      TracksMore(Stop(s).1.controls, e.ws.requestId, 1, MAX_PENDING_CONTROLS);
    }
  }

  lemma OffAwaited(s: Sm)
    ensures forall e <- TurnOffWhenDone(s).1 :: Awaits(TurnOffWhenDone(s).0, e)
    ensures forall id :: Tracks(s.controls, id, 2) ==> Tracks(TurnOffWhenDone(s).0.controls, id, 3)
  {
    StopAwaited(s.(turnedOff := ToTurnOff(s)));
    forall id | Tracks(s.controls, id, 2) ensures Tracks(s.controls, id, 3) {
      TracksMore(s.controls, id, 2, 3);
    }
  }

  lemma ReportAwaited(s: Sm, r: Report)
    ensures forall e <- Reported(s, r).1 :: Awaits(Reported(s, r).0, e)
  {
    var (watched, status, settled) := SettlePreheat(s.(ovenCook := r.cook), r);
    var (edged, first) := Edge(watched, status);
    var seen := edged.(status := Some(status));
    var (t, off) := TurnOffWhenDone(seen);
    SettledTracked(s.(ovenCook := r.cook), r);
    EdgeTracked(watched, status);
    OffAwaited(seen);
    ReportParts(s, r);
    forall e | e in settled ensures Awaits(t, e) {
      SoonAwaited(t, e, 3);
    }
    forall e | e in first ensures Awaits(t, e) {
      if e.Ws? {
        TracksMore(edged.controls, e.ws.requestId, 1, 2);
      }
      SoonAwaited(t, e, 3);
    }
    assert Reported(s, r).0 == t;
  }

  lemma SoonAwaited(s: Sm, e: Effect, n: nat)
    requires Recent(s, e, n) && n <= MAX_PENDING_CONTROLS
    ensures Awaits(s, e)
  {
    if e.Ws? {
      TracksMore(s.controls, e.ws.requestId, n, MAX_PENDING_CONTROLS);
    }
  }

  /** Whatever request an input makes the server send, the state after it waits for the
      answer under that very id. */
  lemma SentIsAwaited(s: Sm, i: Input)
    ensures forall e <- Reduce(s, i).1 :: Awaits(Reduce(s, i).0, e)
  {
    match i {
      case On(ApoState(r)) => ReportAwaited(s, r);
      case On(_) =>
      case Do(StopCook) => StopAwaited(s);
      case Do(ControlOven(name, verdict)) =>
        if verdict.Some? {
          ControlTracked(s, name, verdict.value);
          var (t, e) := SendControl(s, name, verdict.value);
          SoonAwaited(t, e, 1);
        }
      case Do(_) =>
    }
  }

  // ---- Answers ----

  lemma OkIsOk(status: string)
    ensures IsOk(status) <==> status in {"ok", "oK", "Ok", "OK"}
  {
    if IsOk(status) {
      assert status == [status[0], status[1]] && status[0] in {'o', 'O'} && status[1] in {'k', 'K'};
    }
  }

  /** A start that was refused, or not answered, is announced and given up. */
  lemma StartRefused(s: Sm, status: string)
    requires s.start.Some? && status !in {"ok", "oK", "Ok", "OK"}
    ensures var (t, effects) := Reduce(s, On(Event.CommandAck(s.start.value.requestId, status)));
      effects == [CommandFailed("start", status)] && t.lifecycle == Idle && t.start.None?
  {
    OkIsOk(status);
  }

  /** A start that was accepted has its cook fetched, and is over with if the oven is
      cooking by its own word; the next report settles it otherwise. */
  lemma StartAccepted(s: Sm, status: string)
    requires s.start.Some? && status in {"ok", "oK", "Ok", "OK"}
    ensures var (t, effects) := Reduce(s, On(Event.CommandAck(s.start.value.requestId, status)));
      && |effects| == 1 && effects[0].Store? && effects[0].store.FetchCurrentCook?
      && (s.local && s.status.Some? && s.status.value.cooking ==> t.lifecycle == Cooking && t.start.None?)
      && (!(s.local && s.status.Some? && s.status.value.cooking) ==> t.lifecycle == s.lifecycle && t.start == s.start)
  {
    OkIsOk(status);
  }

  /** A stop that was refused is announced, and the cook goes on; one that was accepted
      waits for the report that shows it. */
  lemma StopAnswered(s: Sm, status: string)
    requires Inv(s) && s.stop.Some?
    ensures var (t, effects) := Reduce(s, On(Event.CommandAck(s.stop.value, status)));
      if status in {"ok", "oK", "Ok", "OK"} then t == s && effects == []
      else effects == [CommandFailed("stop", status)] && t.lifecycle == Cooking && t.stop.None?
  {
    OkIsOk(status);
  }

  /** A control that was answered is no longer tracked, the others still are, and a refusal
      is announced under its name. */
  lemma ControlAnswered(s: Sm, i: nat, status: string)
    requires Inv(s) && i < |s.controls|
    ensures var (t, effects) := Reduce(s, On(Event.CommandAck(s.controls[i].requestId, status)));
      && t == s.(controls := s.controls[..i] + s.controls[i + 1..])
      && effects == if status in {"ok", "oK", "Ok", "OK"} then [] else [CommandFailed(s.controls[i].name, status)]
  {
    OkIsOk(status);
    assert Apart(s, s.controls[i].requestId);
    var k := IndexOf(s.controls, s.controls[i].requestId);
    assert k.Some? && k.value == i;
  }

  /** An answer nobody waits for changes nothing. */
  lemma StrangerIgnored(s: Sm, id: Id, status: string)
    requires (s.start.Some? ==> s.start.value.requestId != id) && s.stop != Some(id)
    requires forall i :: 0 <= i < |s.controls| ==> s.controls[i].requestId != id
    ensures Reduce(s, On(Event.CommandAck(id, status))) == (s, [])
  {
  }

  // ---- Starting and stopping ----

  /** The first recipe listed under an id. */
  ghost predicate Listed(recipes: seq<Recipe>, id: string, k: nat) {
    k < |recipes| && recipes[k].id == id && forall i :: 0 <= i < k ==> recipes[i].id != id
  }

  lemma {:induction false} FindsListed(recipes: seq<Recipe>, id: string)
    ensures match FindRecipe(recipes, id)
      case Some(recipe) => exists k: nat :: Listed(recipes, id, k) && recipes[k] == recipe
      case None => forall i :: 0 <= i < |recipes| ==> recipes[i].id != id
  {
    if recipes != [] && recipes[0].id == id {
      assert Listed(recipes, id, 0);
    } else if recipes != [] {
      FindsListed(recipes[1..], id);
      if FindRecipe(recipes, id).Some? {
        var k: nat :| Listed(recipes[1..], id, k) && recipes[1..][k] == FindRecipe(recipes, id).value;
        assert Listed(recipes, id, k + 1) && recipes[k + 1] == recipes[1..][k];
      } else {
        forall i | 0 <= i < |recipes| ensures recipes[i].id != id {
          assert i > 0 ==> recipes[i] == recipes[1..][i - 1];
        }
      }
    }
  }

  /** A start of a recipe: refused without an oven, or if the recipe is not listed; otherwise
      the oven is sent its stages and the store told of the same cook, and the machine shows it. */
  lemma StartsRecipe(s: Sm, id: string, startedAt: string)
    ensures var (error, t, effects) := ReduceCommand(s, StartCook(id, startedAt));
      if CookerId(s).None? then (error, t, effects) == (Some(NoOven), s, [])
      else if forall i :: 0 <= i < |s.recipes| ==> s.recipes[i].id != id
      then (error, t, effects) == (Some(RecipeNotFound), s, [])
      else
        && error.None?
        && exists k: nat :: Listed(s.recipes, id, k) && Starts(t, effects, s.recipes[k], Some(id), startedAt)
  {
    FindsListed(s.recipes, id);
    if CookerId(s).Some? && FindRecipe(s.recipes, id).Some? {
      var recipe := FindRecipe(s.recipes, id).value;
      var k: nat :| Listed(s.recipes, id, k) && s.recipes[k] == recipe;
      assert Starts(ReduceCommand(s, StartCook(id, startedAt)).1, ReduceCommand(s, StartCook(id, startedAt)).2, recipe,
                    Some(id), startedAt);
    }
  }

  /** A start of this recipe is under way: the oven and the store are told of one cook. */
  ghost predicate Starts(t: Sm, effects: seq<Effect>, recipe: Recipe, from: Option<string>, startedAt: string) {
    && |effects| == 2 && effects[0].Ws? && effects[0].ws.SendStart? && effects[1].Store?
    && effects[0].ws.stages == recipe.stages && effects[0].ws.recipeId == recipe.id
    && effects[1].store == PatchCookRecipeRef(effects[0].ws.cookId, from, recipe.stages)
    && effects[0].ws.cookId != effects[0].ws.requestId
    && t.lifecycle == StartPending && t.start.Some?
    && t.start.value.firstStageId == (if recipe.stages == [] then None else recipe.stages[0].id)
    && t.currentCook == Some(CurrentCook(recipe.title, from, startedAt, recipe.stages, recipe.stageCount))
  }

  /** A manual start: the stages given, under no recipe, the preheats not counted. */
  lemma StartsManual(s: Sm, title: string, stages: seq<Stage>, startedAt: string)
    ensures var (error, t, effects) := ReduceCommand(s, StartManualCook(title, stages, startedAt));
      if CookerId(s).None? then (error, t, effects) == (Some(NoOven), s, [])
      else error.None? && Starts(t, effects, Recipe("manual", title, stages, CookStages(stages)), None, startedAt)
  {
    CountsCookStages(stages);
  }

  /** How many of the stages are not preheats. */
  function CookStages(stages: seq<Stage>): nat {
    |CookStageSet(stages, 0)|
  }

  /** The places of the stages that are not preheats, counted from `from`. */
  function CookStageSet(stages: seq<Stage>, from: nat): set<nat> {
    set i | from <= i < from + |stages| && IsCookStage(stages, from, i)
  }

  predicate IsCookStage(stages: seq<Stage>, from: nat, i: nat)
    requires from <= i < from + |stages|
  {
    !stages[i - from].isPreheat
  }

  lemma {:induction false} CountsFrom(stages: seq<Stage>, from: nat)
    ensures CountCookStages(stages) == |CookStageSet(stages, from)|
  {
    var all := CookStageSet(stages, from);
    if stages == [] {
      assert all == {};
    } else {
      CountsFrom(stages[1..], from + 1);
      var rest := CookStageSet(stages[1..], from + 1);
      forall i | i > from ensures i in all <==> i in rest {
        assert from < i < from + |stages| ==> stages[i - from] == stages[1..][i - (from + 1)];
      }
      assert all == rest + if stages[0].isPreheat then {} else {from};
    }
  }

  lemma CountsCookStages(stages: seq<Stage>)
    ensures CountCookStages(stages) == CookStages(stages)
  {
    CountsFrom(stages, 0);
  }

  /** A stop is refused when nothing cooks or no oven is known; otherwise it is sent last, after
      the lamp has been put out if the oven is the server's own and lit. */
  lemma StopsCook(s: Sm)
    ensures var (error, t, effects) := ReduceCommand(s, Command.StopCook);
      if s.lifecycle == Idle || (s.status.Some? && !s.status.value.cooking)
      then (error, t, effects) == (Some(NotCooking), s, [])
      else if CookerId(s).None? then (error, t, effects) == (Some(NoOven), s, [])
      else
        && error.None? && t.lifecycle == StopPending
        && var lit := s.local && s.status.Some? && s.status.value.lampOn;
        && |effects| == (if lit then 2 else 1) && IsStop(effects[|effects| - 1])
        && (lit ==> PutsLamp(effects[0], false))
  {
  }

  predicate PutsLamp(e: Effect, on: bool) {
    e.Ws? && e.ws.Control? && e.ws.control == SetLamp(on)
  }

  // ---- A report, whatever came before ----

  /** The lifecycle after a report: idle if the oven has stopped or a start came to nothing;
      cooking if the oven has begun; else as it was; and stopping if the report stops the cook. */
  lemma LifecycleFollows(s: Sm, r: Report)
    ensures var t := Reported(s, r).0;
      t.lifecycle ==
        if !r.status.cooking && (SaysCooking(s) || s.lifecycle == StartPending) then Idle
        else if exists e <- Reported(s, r).1 :: IsStop(e) then StopPending
        else if r.status.cooking && !SaysCooking(s) then Cooking
        else s.lifecycle
  {
    var seen := s.(ovenCook := r.cook);
    var (watched, status, _) := SettlePreheat(seen, r);
    var edged := Edge(watched, status).0.(status := Some(status));
    StopsAreOff(s, r);
    OffStops(edged);
  }

  lemma OffStops(s: Sm)
    ensures var (t, off) := TurnOffWhenDone(s);
      t.lifecycle == (if exists e <- off :: IsStop(e) then StopPending else s.lifecycle)
    ensures (exists e <- TurnOffWhenDone(s).1 :: IsStop(e)) ==> s.lifecycle == Cooking
  {
    var off := TurnOffWhenDone(s).1;
    if off != [] {
      assert IsStop(off[|off| - 1]);
    }
  }

  predicate Fetches(e: Effect, cook: Option<OvenCook>) {
    e.Store? && e.store.FetchCurrentCook? && e.store.fetched == cook
  }

  predicate Refreshes(e: Effect) {
    e.Store? && e.store.RefreshHistory?
  }

  /** What the edge of a report asks of the store: the history when the oven begins or ends
      cooking, the cook when it begins or its timer is set anew. */
  lemma StoreFollowsEdges(s: Sm, r: Report)
    ensures (exists e <- Reported(s, r).1 :: Refreshes(e)) <==> r.status.cooking != SaysCooking(s)
    ensures (exists e <- Reported(s, r).1 :: e.Store? && e.store.FetchCurrentCook?) <==>
      r.status.cooking && (SaysCooking(s) ==> s.status.value.timerTotalSecs != r.status.timerTotalSecs)
    ensures r.status.cooking && !SaysCooking(s) ==> exists e <- Reported(s, r).1 :: Fetches(e, r.cook)
  {
    var (watched, status, _) := SettlePreheat(s.(ovenCook := r.cook), r);
    ReportParts(s, r);
    var p := PartsOf(s, r);
    EdgeAsks(watched, status);
    OffAsksNothing(Edge(watched, status).0.(status := Some(status)));
    assert Reported(s, r).1 == p.told + p.first + p.off + [PublishReadModel] + p.settled;
    assert forall e <- p.first :: e in Reported(s, r).1;
  }

  lemma EdgeAsks(s: Sm, status: OvenStatus)
    ensures var first := Edge(s, status).1;
      && ((exists e <- first :: Refreshes(e)) <==> status.cooking != SaysCooking(s))
      && ((exists e <- first :: e.Store? && e.store.FetchCurrentCook?) <==>
            status.cooking && (SaysCooking(s) ==> s.status.value.timerTotalSecs != status.timerTotalSecs))
      && (status.cooking && !SaysCooking(s) ==> exists e <- first :: Fetches(e, s.ovenCook))
  {
    var (t, first) := Edge(s, status);
    if status.cooking && !SaysCooking(s) {
      assert Refreshes(first[|first| - 1]) && Fetches(first[|first| - 2], s.ovenCook);
    } else if status.cooking {
      assert first != [] ==> first[0].Store? && first[0].store.FetchCurrentCook?;
    } else if SaysCooking(s) {
      assert Refreshes(first[0]);
    }
  }

  lemma OffAsksNothing(s: Sm)
    ensures forall e <- TurnOffWhenDone(s).1 :: e.Ws?
  {
  }

  /** In local mode the lamp is put on when the oven begins to cook, if a report came before
      and it is not on already, and for no other reason. */
  lemma LampComesOn(s: Sm, r: Report)
    ensures (exists e <- Reported(s, r).1 :: PutsLamp(e, true)) <==>
      s.local && s.status.Some? && !s.status.value.cooking && r.status.cooking && !r.status.lampOn
  {
    var (watched, status, _) := SettlePreheat(s.(ovenCook := r.cook), r);
    ReportParts(s, r);
    var p := PartsOf(s, r);
    EdgeLights(watched, status);
    OffDarkens(Edge(watched, status).0.(status := Some(status)));
    assert Reported(s, r).1 == p.told + p.first + p.off + [PublishReadModel] + p.settled;
    assert forall e <- p.settled :: !PutsLamp(e, true);
    assert forall e <- p.first :: e in Reported(s, r).1;
  }

  lemma EdgeLights(s: Sm, status: OvenStatus)
    ensures (exists e <- Edge(s, status).1 :: PutsLamp(e, true)) <==>
      s.local && s.status.Some? && !s.status.value.cooking && status.cooking && !status.lampOn
  {
    var first := Edge(s, status).1;
    if s.local && s.status.Some? && !s.status.value.cooking && status.cooking && !status.lampOn {
      assert PutsLamp(first[0], true);
    }
  }

  lemma OffDarkens(s: Sm)
    ensures forall e <- TurnOffWhenDone(s).1 :: !PutsLamp(e, true)
  {
  }

  // ---- A cook that is done is stopped ----

  /** The stage has ended: the oven says the cook is done, or the stage has a probe and it
      reads at least the target, the status's own before the stage's. */
  ghost predicate StageEnded(status: OvenStatus, stage: Stage) {
    || status.cookDone
    || (stage.probeAdded && exists reading, target: real ::
          && status.probeTemperatureC == Some(reading) && reading >= target
          && (status.probeTargetTemperatureC == Some(target)
              || (status.probeTargetTemperatureC.None? && stage.probeTargetC == Some(target))))
  }

  lemma EndedMeans(status: OvenStatus, stage: Stage)
    ensures LastStageDone(status, stage) <==> StageEnded(status, stage)
  {
    if LastStageDone(status, stage) && !status.cookDone {
      var target := if status.probeTargetTemperatureC.Some? then status.probeTargetTemperatureC else stage.probeTargetC;
      assert status.probeTemperatureC == Some(status.probeTemperatureC.value) && target == Some(target.value);
    }
  }

  /** The recipe started asks for the oven to be turned off at its end. */
  predicate WantsOff(cook: Option<CurrentCook>) {
    cook.Some? && cook.value.stages != [] && cook.value.stages[|cook.value.stages| - 1].turnOffAtEnd
  }

  /** The oven is in the last stage of its cook, and that has ended. */
  ghost predicate CookEnded(cook: OvenCook, status: OvenStatus) {
    && cook.stages != [] && status.activeStageIndex == Some(|cook.stages| - 1)
    && StageEnded(status, cook.stages[|cook.stages| - 1])
  }

  /** In local mode a report stops the oven exactly if its cook has ended, the recipe asks
      for it, no start or stop is under way, that cook was not stopped so before, and an oven
      is known. */
  lemma DoneCookIsStopped(s: Sm, r: Report)
    requires r.status.cooking
    ensures (exists e <- Reported(s, r).1 :: IsStop(e)) <==>
      && s.local && r.cook.Some? && CookEnded(r.cook.value, r.status) && WantsOff(s.currentCook)
      && (SaysCooking(s) ==> s.lifecycle == Cooking)
      && s.turnedOff != Some(r.cook.value.cookId) && CookerId(s).Some?
  {
    var (watched, status, _) := SettlePreheat(s.(ovenCook := r.cook), r);
    var edged := Edge(watched, status).0.(status := Some(status));
    CookingEdge(watched, status);
    EdgeKeeps(watched, status);
    OffWhen(edged);
    StopsAreOff(s, r);
    if r.cook.Some? {
      MarkDoesNotEnd(r.cook.value, r.status, status.waiting);
    }
  }

  lemma MarkDoesNotEnd(cook: OvenCook, status: OvenStatus, waiting: bool)
    ensures CookEnded(cook, status.(waiting := waiting)) <==> CookEnded(cook, status)
  {
  }

  /** The stops a report sends are those of a cook turned off. */
  lemma StopsAreOff(s: Sm, r: Report)
    ensures (exists e <- Reported(s, r).1 :: IsStop(e)) <==> exists e <- PartsOf(s, r).off :: IsStop(e)
  {
    ReportParts(s, r);
    var p := PartsOf(s, r);
    assert Reported(s, r).1 == p.told + p.first + p.off + [PublishReadModel] + p.settled;
    assert forall e <- p.off :: e in Reported(s, r).1;
  }

  lemma CookingEdge(s: Sm, status: OvenStatus)
    requires status.cooking
    ensures var t := Edge(s, status).0;
      && t.lifecycle == (if SaysCooking(s) then s.lifecycle else Cooking) && t.currentCook == s.currentCook
      && t.connectivity == s.connectivity && t.local == s.local
  {
  }

  lemma OffWhen(s: Sm)
    requires s.status.Some? && s.status.value.cooking
    ensures (exists e <- TurnOffWhenDone(s).1 :: IsStop(e)) <==>
      && s.local && s.lifecycle == Cooking && s.ovenCook.Some? && CookEnded(s.ovenCook.value, s.status.value)
      && WantsOff(s.currentCook) && s.turnedOff != Some(s.ovenCook.value.cookId) && CookerId(s).Some?
  {
    var off := TurnOffWhenDone(s).1;
    if s.ovenCook.Some? && s.ovenCook.value.stages != [] {
      EndedMeans(s.status.value, s.ovenCook.value.stages[|s.ovenCook.value.stages| - 1]);
    }
    if off != [] {
      assert IsStop(off[|off| - 1]);
    }
  }

  // ---- A settled preheat moves on ----

  /** A report in local mode of a cooking oven, in stage `i` of its cook: a preheat of this
      id and setpoint with a stage after it. */
  ghost predicate Preheating(local: bool, r: Report, i: nat, h: Heating) {
    && local && r.status.cooking && r.cook.Some? && r.status.activeStageIndex == Some(i)
    && var stages := r.cook.value.stages;
    && i + 1 < |stages| && stages[i].isPreheat && stages[i].id == Some(h.stageId)
    && stages[i].temperatureC == h.target && stages[i + 1] == h.next
  }

  lemma HeatingMeans(local: bool, r: Report, h: Heating)
    ensures HeatingIn(local, r) == Some(h) <==> exists i: nat :: Preheating(local, r, i, h)
  {
    if HeatingIn(local, r) == Some(h) {
      assert Preheating(local, r, r.status.activeStageIndex.value, h);
    }
  }

  ghost predicate NearOf(local: bool, tolerance: real, r: Report, stageId: string, i: nat, h: Heating) {
    Preheating(local, r, i, h) && h.stageId == stageId && r.status.temperatureC >= h.target - tolerance
  }

  /** A report near the setpoint of a preheat: in it, and at or above the setpoint less the tolerance. */
  lemma NearMeans(local: bool, tolerance: real, rs: seq<Report>, k: nat, stageId: string)
    requires k < |rs|
    ensures NearAt(local, tolerance, rs, k, stageId) <==>
      exists i: nat, h :: NearOf(local, tolerance, rs[k], stageId, i, h)
  {
    if NearAt(local, tolerance, rs, k, stageId) {
      var h := HeatingIn(local, rs[k]).value;
      HeatingMeans(local, rs[k], h);
      var i: nat :| Preheating(local, rs[k], i, h);
      assert NearOf(local, tolerance, rs[k], stageId, i, h);
    }
    if i: nat, h :| NearOf(local, tolerance, rs[k], stageId, i, h) {
      HeatingMeans(local, rs[k], h);
    }
  }

  /** Exactly one effect starts a stage, this one. */
  ghost predicate StartsOnly(effects: seq<Effect>, stageId: string) {
    exists k: nat :: k < |effects| && StartsStage(effects[k]) && effects[k].ws.control.stageId == stageId
      && forall j :: 0 <= j < |effects| && j != k ==> !StartsStage(effects[j])
  }

  lemma ReportStartsOne(s: Sm, r: Report)
    ensures var out := Settle(s.watch, s.local, s.tolerance, r);
      if out.start.Some? then StartsOnly(Reported(s, r).1, out.start.value)
      else forall e <- Reported(s, r).1 :: !StartsStage(e)
  {
    ReportParts(s, r);
    var p := PartsOf(s, r);
    var before := p.told + p.first + p.off + [PublishReadModel];
    assert forall e <- before :: !StartsStage(e);
    if p.settled != [] {
      assert Reported(s, r).1 == before + [p.settled[0]];
      assert Reported(s, r).1[|before|] == p.settled[0];
      forall j | 0 <= j < |before| ensures !StartsStage(Reported(s, r).1[j]) {
        assert before[j] in before;
      }
    }
  }

  /** What settling makes of the report it settles on. */
  lemma SettlingMovesOn(local: bool, tolerance: real, rs: seq<Report>, k: nat, h: Heating)
    requires k < |rs| && HeatingIn(local, rs[k]) == Some(h) && !rs[k].status.waiting
    requires var w := WatchAt(local, tolerance, rs, k);
      !(w.Some? && w.value.stageId == h.stageId && w.value.reached)
    requires NearAt(local, tolerance, rs, k, h.stageId)
    requires rs[k].now >= rs[NearFrom(local, tolerance, rs, k, h.stageId)].now + 10000
    ensures var out := SettledAt(local, tolerance, rs, k);
      && out.watch.Some? && out.watch.value.reached && out.waiting == h.next.userActionRequired
      && out.start == if h.next.userActionRequired then None else h.next.id
  {
    SettlesWhenNearLongEnough(local, tolerance, rs, k, h.stageId);
    WatchIsRight(local, tolerance, rs, k);
  }

  /** In any run, a report that the oven does not mark as waiting, in a preheat not taken as
      reached yet, and the last of a stretch of reports of it at or above its setpoint minus
      the tolerance that spans ten seconds, moves the cook on: the next stage is started, by
      one control and its id, or, if that stage waits for the user, this very report is
      recorded as waiting. */
  lemma SettledPreheatMovesOn(local: bool, tolerance: real, inputs: seq<Input>, r: Report, i: nat, h: Heating)
    requires Preheating(local, r, i, h) && !r.status.waiting
    requires var s := Run(Initial(local, tolerance), inputs);
      !(s.watch.Some? && s.watch.value.stageId == h.stageId && s.watch.value.reached)
    requires var (rs, k) := (ReportsIn(inputs) + [r], |ReportsIn(inputs)|);
      && NearAt(local, tolerance, rs, k, h.stageId)
      && r.now >= rs[NearFrom(local, tolerance, rs, k, h.stageId)].now + 10000
    ensures var (t, effects) := Reported(Run(Initial(local, tolerance), inputs), r);
      && t.watch.Some? && t.watch.value.reached && t.status.Some?
      && (if h.next.userActionRequired then t.status.value.waiting && forall e <- effects :: !StartsStage(e)
          else if h.next.id.Some? then StartsOnly(effects, h.next.id.value) && !t.status.value.waiting
          else forall e <- effects :: !StartsStage(e))
  {
    var s := Run(Initial(local, tolerance), inputs);
    var (rs, k) := (ReportsIn(inputs) + [r], |ReportsIn(inputs)|);
    HeatingMeans(local, r, h);
    WatchFollowsReports(local, tolerance, inputs);
    WatchPrefix(local, tolerance, ReportsIn(inputs), r, k);
    assert s.watch == WatchAt(local, tolerance, rs, k) && rs[k] == r;
    SettlingMovesOn(local, tolerance, rs, k, h);
    ReportParts(s, r);
    ReportActsOnWatch(s, r);
    ReportStartsOne(s, r);
  }

  // ---- What the rest of the house sees ----

  /** An event that changes what is shown has it published. */
  lemma ChangesArePublished(s: Sm, e: Event)
    ensures var (t, effects) := ReduceEvent(s, e);
      t.status != s.status || t.currentCook != s.currentCook || t.recipes != s.recipes ==> PublishReadModel in effects
  {
    if e.ApoState? {
      var p := PartsOf(s, e.report);
      ReportParts(s, e.report);
      assert [PublishReadModel][0] in p.told + p.first + p.off + [PublishReadModel] + p.settled;
    }
  }

  /** A fetched cook replaces the one shown; a fetch that found nothing to say leaves it. */
  lemma FetchedIsShown(s: Sm, result: Option<Option<CurrentCook>>)
    ensures ReduceEvent(s, CurrentCookFetched(result)).0 ==
      if result.Some? then s.(currentCook := result.value) else s
  {
  }

  /** A title found for a manual cook goes to the cook it was looked up for, if that has not
      been named since, and does not take away a recipe it has. */
  lemma TitleGoesToItsCook(s: Sm, title: string, id: string, cookKey: string)
    ensures var t := ReduceEvent(s, ManualTitleResolved(Some((title, id)), cookKey)).0;
      match s.currentCook
      case None => t == s
      case Some(cook) =>
        if cook.startedAt != cookKey || cook.title != "[manual]" then t == s
        else t == s.(currentCook := Some(CurrentCook(title, if cook.recipeId.Some? then cook.recipeId else Some(id),
                                                     cook.startedAt, cook.stages, cook.cookStageCount)))
  {
  }

  /** Linking a cook renames it here and in the store alike; without a cook it is refused. */
  lemma LinkRenames(s: Sm, id: string, title: string)
    ensures var (error, t, effects) := ReduceCommand(s, LinkCurrentCook(id, title));
      match s.currentCook
      case None => (error, t, effects) == (Some(NotCooking), s, [])
      case Some(cook) =>
        && error.None? && Store(LinkCookToRecipe(id, title)) in effects && PublishReadModel in effects
        && t == s.(currentCook := Some(CurrentCook(title, Some(id), cook.startedAt, cook.stages, cook.cookStageCount)))
  {
  }

  /** A tick asks the store for what is due, the cook only while one is under way. */
  lemma TicksAsk(s: Sm, kind: TickKind)
    ensures var (t, effects) := ReduceEvent(s, Tick(kind));
      && t == s && |effects| <= 1
      && (kind == CurrentCookRefresh ==> (effects != [] <==> s.lifecycle in {Cooking, StartPending}))
      && (kind == RecipesRefresh ==> effects == [Store(RefreshRecipes)])
      && (kind == HistoryRefresh ==> effects != [] && Refreshes(effects[0]))
      && (kind == PendingTimeout ==> effects == [])
      && (kind == CurrentCookRefresh && effects != [] ==> effects[0].Store? && effects[0].store.FetchCurrentCook?)
  {
  }

  /** Without a link there is no oven to start or stop; a link alone brings back none. */
  lemma LinkDownForgets(s: Sm, id: string, startedAt: string)
    ensures var t := ReduceEvent(s, LinkDown).0;
      && CookerId(t).None? && CookerId(ReduceEvent(t, LinkUp).0).None?
      && ReduceCommand(t, StartCook(id, startedAt)).0 == Some(NoOven)
      && t == s.(connectivity := t.connectivity)
  {
  }

  /** An oven that is named is the one to start and stop from then on. */
  lemma NamedOvenIsKnown(s: Sm, cooker: string)
    ensures var t := ReduceEvent(s, CookerDiscovered(cooker)).0;
      CookerId(t) == Some(cooker) && CookerId(ReduceEvent(t, LinkUp).0) == Some(cooker)
      && t == s.(connectivity := t.connectivity)
  {
  }

  /** The recipes are those last fetched, and the cook of a start is fetched once the store
      has it; asking for the recipes has them fetched. */
  lemma StoreAnswers(s: Sm, recipes: Option<seq<Recipe>>)
    ensures ReduceEvent(s, RecipesRefreshed(recipes)).0 == if recipes.Some? then s.(recipes := recipes.value) else s
    ensures var (t, effects) := ReduceEvent(s, RecipeRefPatched(true));
      t == s && |effects| == 1 && effects[0].Store? && effects[0].store.FetchCurrentCook?
    ensures ReduceEvent(s, RecipeRefPatched(false)) == (s, []) == ReduceEvent(s, HistoryRefreshed(false))
    ensures ReduceEvent(s, HistoryRefreshed(true)) == (s, [PublishReadModel])
    ensures ReduceCommand(s, RefreshRecipesCommand) == (None, s, [Store(RefreshRecipes)])
  {
  }

  /** A control that is accepted is sent, alone, and tracked last under its name; one that is
      not changes nothing. */
  lemma ControlIsSent(s: Sm, name: string, verdict: Option<OvenControl>)
    ensures var (error, t, effects) := ReduceCommand(s, ControlOven(name, verdict));
      if verdict.None? then (error, t, effects) == (Some(Refused), s, [])
      else
        && error.None? && |effects| == 1 && effects[0].Ws? && effects[0].ws.Control?
        && effects[0].ws.control == verdict.value
        && t.controls != [] && t.controls[|t.controls| - 1] == Tracked(effects[0].ws.requestId, name)
        && |t.controls| == if |s.controls| < 16 then |s.controls| + 1 else |s.controls|
  {
  }

  /** A report is what the machine knows of the oven from then on. */
  lemma ReportIsKept(s: Sm, r: Report)
    ensures var t := Reported(s, r).0;
      t.ovenCook == r.cook && t.status.Some? && t.status.value.(waiting := r.status.waiting) == r.status
  {
    ReportActsOnWatch(s, r);
    var (watched, status, _) := SettlePreheat(s.(ovenCook := r.cook), r);
    WatchKeeps(s.(ovenCook := r.cook), r);
    EdgeKeeps(watched, status);
  }
}
