/** The state machine itself, its state updated in place, each step held to SmModel. */
module StateMachine {
  import opened Preheat
  import opened Prelude
  import opened SmModel
  import SmProofs

  class SmState {
    var connectivity: Connectivity
    var lifecycle: Lifecycle
    var lastOrigin: Option<Origin>
    var start: Option<PendingStart>
    var stop: Option<Id>
    var controls: seq<Tracked>
    var status: Option<OvenStatus>
    var ovenCook: Option<OvenCook>
    var currentCook: Option<CurrentCook>
    var recipes: seq<Recipe>
    const local: bool
    const tolerance: real
    var preheatWatch: Option<Watch>
    var turnedOff: Option<string>
    var nextId: Id

    function Value(): Sm reads this {
      Sm(connectivity, lifecycle, lastOrigin, start, stop, controls, status, ovenCook, currentCook,
         recipes, local, tolerance, preheatWatch, turnedOff, nextId)
    }

    /** What every reachable state keeps. */
    ghost predicate Valid() reads this { SmProofs.Inv(Value()) }

    constructor (local: bool, tolerance: real)
      ensures Valid() && Value() == Initial(local, tolerance)
    {
      this.local, this.tolerance := local, tolerance;
      connectivity, lifecycle, lastOrigin, start, stop, controls := Disconnected, Idle, None, None, None, [];
      status, ovenCook, currentCook, recipes, preheatWatch, turnedOff, nextId := None, None, None, [], None, None, 0;
    }

    method SetLifecycle(next: Lifecycle, origin: Origin)
      modifies this
      ensures Value() == Enter(old(Value()), next, origin)
    {
      lifecycle, lastOrigin := next, Some(origin);
    }

    method SendControl(name: string, control: OvenControl) returns (effect: Effect)
      modifies this
      ensures var after := SmModel.SendControl(old(Value()), name, control); Value() == after.0 && effect == after.1
    {
      var requestId := nextId;
      nextId := nextId + 1;
      controls := controls + [Tracked(requestId, name)];
      if |controls| > MAX_PENDING_CONTROLS {
        controls := controls[1..];
      }
      effect := Ws(Control(requestId, control));
    }

    method Start(recipe: Recipe, from: Option<string>, startedAt: string) returns (effects: seq<Effect>)
      modifies this
      ensures var after := Begin(old(Value()), recipe, from, startedAt); Value() == after.0 && effects == after.1
    {
      var requestId := nextId;
      start := Some(PendingStart(requestId, FirstStageId(recipe.stages)));
      SetLifecycle(StartPending, LocalCommand);
      currentCook := Some(CurrentCook(recipe.title, from, startedAt, recipe.stages, recipe.stageCount));
      var cookId := nextId + 1;
      nextId := nextId + 2;
      effects := [Ws(SendStart(requestId, cookId, recipe.id, recipe.stages)),
        Store(PatchCookRecipeRef(cookId, from, recipe.stages))];
    }

    method StopCook() returns (error: Option<Error>, effects: seq<Effect>)
      modifies this
      ensures var after := Stop(old(Value())); error == after.0 && Value() == after.1 && effects == after.2
    {
      if lifecycle == Idle {
        return Some(NotCooking), [];
      }
      if status.Some? && !status.value.cooking {
        return Some(NotCooking), [];
      }
      if CookerId(Value()).None? {
        return Some(NoOven), [];
      }
      effects := [];
      // The lamp goes off with the oven, and first: the oven ignores it once idle.
      if local && status.Some? && status.value.lampOn {
        var lamp := SendControl("lamp", SetLamp(false));
        effects := effects + [lamp];
      }
      var requestId := nextId;
      nextId := nextId + 1;
      stop := Some(requestId);
      SetLifecycle(StopPending, LocalCommand);
      effects := effects + [Ws(SendStop(requestId))];
      error := None;
    }

    method TurnOffWhenDone() returns (effects: seq<Effect>)
      modifies this
      ensures var after := SmModel.TurnOffWhenDone(old(Value())); Value() == after.0 && effects == after.1
    {
      var cook := ToTurnOff(Value());
      if cook.None? {
        return [];
      }
      turnedOff := cook;
      var error;
      error, effects := StopCook();
      if error.Some? {
        effects := [];
      }
    }

    method BeganCooking(s: OvenStatus) returns (effects: seq<Effect>)
      modifies this
      ensures var after := SmModel.BeganCooking(old(Value()), s); Value() == after.0 && effects == after.1
    {
      var seenBefore := status.Some?;
      var reason := if seenBefore then IdleToCooking else ConnectedCookingState;
      var origin := if lifecycle == StartPending then AckConfirmed else if seenBefore then WsExternal else StartupSync;
      start := None;
      SetLifecycle(Cooking, origin);
      effects := [];
      if local && seenBefore && !s.lampOn {
        var lamp := SendControl("lamp", SetLamp(true));
        effects := effects + [lamp];
      }
      effects := effects + [Fetch(Value(), reason), Store(RefreshHistory(HistoryIdleToCooking))];
    }

    method ApplyApoState(s: OvenStatus) returns (effects: seq<Effect>)
      modifies this
      ensures var after := SmModel.ApplyApoState(old(Value()), s); Value() == after.0 && effects == after.1
    {
      var prevCooking := SaysCooking(Value());
      effects := [];
      if s.cooking && !prevCooking {
        effects := BeganCooking(s);
      }
      if !s.cooking && prevCooking {
        effects := effects + [Store(RefreshHistory(HistoryCookToIdle))];
        var origin := if lifecycle == StopPending then AckConfirmed else WsExternal;
        stop, currentCook := None, None;
        SetLifecycle(Idle, origin);
      }
      if s.cooking && prevCooking && status.value.timerTotalSecs != s.timerTotalSecs {
        effects := effects + [Fetch(Value(), StageTransition)];
      }
      if !s.cooking && lifecycle == StartPending {
        start := None;
        SetLifecycle(Idle, TimeoutRecovery);
      }
      if !s.cooking && lifecycle == Idle {
        currentCook := None;
      }
      assert var edged := Edge(old(Value()), s); Value() == edged.0 && effects == edged.1;
      status := Some(s);
      var off := TurnOffWhenDone();
      effects := effects + off + [PublishReadModel];
    }

    method SettlePreheat(r: Report) returns (s: OvenStatus, effects: seq<Effect>)
      modifies this
      ensures var after := SmModel.SettlePreheat(old(Value()), r);
        Value() == after.0 && s == after.1 && effects == after.2
    {
      var heating := HeatingIn(local, r);
      if heating.None? {
        preheatWatch := None;
        return r.status, [];
      }
      var watch := if preheatWatch.Some? && preheatWatch.value.stageId == heating.value.stageId
        then preheatWatch.value else Watch(heating.value.stageId, None, false);
      var start;
      s, start := UpdateWatch(watch, heating.value, r);
      effects := [];
      if start.Some? {
        var effect := SendControl("next_stage", StartStage(start.value));
        effects := [effect];
      }
    }

    /** The watch over the preheat a report is in: the status as marked, and the stage to start. */
    method UpdateWatch(watch: Watch, h: Heating, r: Report) returns (s: OvenStatus, start: Option<string>)
      modifies this`preheatWatch
      ensures var out := SettleOn(watch, h, tolerance, r);
        preheatWatch == out.watch && s == r.status.(waiting := out.waiting) && start == out.start
    {
      var w := watch;
      s, start := r.status, None;
      if s.waiting {
        preheatWatch := Some(w.(reached := true));
        return;
      }
      if w.reached {
        preheatWatch := Some(w);
        if h.next.userActionRequired {
          s := s.(waiting := true);
        }
        return;
      }
      if s.temperatureC < h.target - tolerance {
        preheatWatch := Some(w.(nearSince := None));
        return;
      }
      var since := if w.nearSince.Some? then w.nearSince.value else r.now;
      w := w.(nearSince := Some(since));
      preheatWatch := Some(w);
      if r.now < since + PREHEAT_SETTLE_WINDOW {
        return;
      }
      preheatWatch := Some(w.(reached := true));
      if h.next.userActionRequired {
        s := s.(waiting := true);
        return;
      }
      start := h.next.id;
    }

    method OnReport(r: Report) returns (effects: seq<Effect>)
      modifies this
      ensures var after := Reported(old(Value()), r); Value() == after.0 && effects == after.1
    {
      var told := if lifecycle == StartPending then [] else [Store(OvenReported(r.cook))];
      ovenCook := r.cook;
      var s, settled := SettlePreheat(r);
      var applied := ApplyApoState(s);
      effects := told + applied + settled;
    }

    method OnAck(id: Id, ack: string) returns (effects: seq<Effect>)
      modifies this
      ensures var after := Acked(old(Value()), id, ack); Value() == after.0 && effects == after.1
    {
      var ok := IsOk(ack);
      if start.Some? && start.value.requestId == id {
        if ok {
          lastOrigin := Some(AckConfirmed);
          // A start that replaced a running cook has no idle edge to confirm it.
          if local && SaysCooking(Value()) {
            start := None;
            SetLifecycle(Cooking, AckConfirmed);
          }
          return [Fetch(Value(), StartAccepted)];
        }
        start := None;
        SetLifecycle(Idle, TimeoutRecovery);
        return [CommandFailed("start", ack)];
      }
      if stop == Some(id) && !ok {
        stop := None;
        SetLifecycle(Cooking, TimeoutRecovery);
        return [CommandFailed("stop", ack)];
      }
      effects := [];
      var i := IndexOf(controls, id);
      if i.Some? {
        var name := controls[i.value].name;
        controls := controls[..i.value] + controls[i.value + 1..];
        if !ok {
          effects := [CommandFailed(name, ack)];
        }
      }
    }

    method OnCommand(c: Command) returns (error: Option<Error>, effects: seq<Effect>)
      requires Valid()
      modifies this
      ensures Valid()
      ensures var after := ReduceCommand(old(Value()), c); error == after.0 && Value() == after.1 && effects == after.2
    {
      SmProofs.CommandInv(Value(), c);
      error, effects := None, [];
      match c {
        case Query =>
        case RefreshRecipesCommand =>
          effects := [Store(RefreshRecipes)];
        case StartCook(recipeId, startedAt) =>
          var recipe := FindRecipe(recipes, recipeId);
          if CookerId(Value()).None? {
            error := Some(NoOven);
          } else if recipe.None? {
            error := Some(RecipeNotFound);
          } else {
            effects := Start(recipe.value, Some(recipe.value.id), startedAt);
          }
        case StartManualCook(title, stages, startedAt) =>
          if CookerId(Value()).None? {
            error := Some(NoOven);
          } else {
            effects := Start(Recipe("manual", title, stages, CountCookStages(stages)), None, startedAt);
          }
        case StopCook =>
          error, effects := StopCook();
        case LinkCurrentCook(recipeId, title) =>
          if currentCook.None? {
            error := Some(NotCooking);
          } else {
            currentCook := Some(currentCook.value.(recipeId := Some(recipeId), title := title));
            effects := [Store(LinkCookToRecipe(recipeId, title)), PublishReadModel];
          }
        case ControlOven(name, verdict) =>
          if verdict.None? {
            error := Some(Refused);
          } else {
            var effect := SendControl(name, verdict.value);
            effects := [effect];
          }
      }
    }

    method OnEvent(e: Event) returns (effects: seq<Effect>)
      requires Valid()
      modifies this
      ensures Valid()
      ensures var after := ReduceEvent(old(Value()), e); Value() == after.0 && effects == after.1
    {
      SmProofs.EventInv(Value(), e);
      effects := [];
      match e {
        case LinkUp => connectivity := Connected(CookerId(Value()));
        case LinkDown => connectivity := Disconnected;
        case CookerDiscovered(id) => connectivity := Connected(Some(id));
        case ApoState(report) => effects := OnReport(report);
        case CommandAck(id, ack) => effects := OnAck(id, ack);
        case ParseError =>
        case RecipesRefreshed(fetched) =>
          if fetched.Some? {
            recipes := fetched.value;
            effects := [PublishReadModel];
          }
        case HistoryRefreshed(ok) =>
          if ok {
            effects := [PublishReadModel];
          }
        case CurrentCookFetched(result) =>
          if result.Some? {
            currentCook := result.value;
            effects := [PublishReadModel];
          }
        case RecipeRefPatched(ok) =>
          if ok {
            effects := [Fetch(Value(), StartAccepted)];
          }
        case ManualTitleResolved(resolved, cookKey) =>
          if resolved.Some? {
            if currentCook.Some? && currentCook.value.startedAt == cookKey && currentCook.value.title == "[manual]" {
              var cook := currentCook.value.(title := resolved.value.0);
              currentCook := Some(if cook.recipeId.None? then cook.(recipeId := Some(resolved.value.1)) else cook);
            }
            effects := [PublishReadModel];
          }
        case Tick(kind) =>
          match kind {
            case CurrentCookRefresh =>
              if lifecycle == Cooking || lifecycle == StartPending {
                effects := [Fetch(Value(), CookPeriodic)];
              }
            case RecipesRefresh => effects := [Store(RefreshRecipes)];
            case HistoryRefresh => effects := [Store(RefreshHistory(HistoryPeriodic))];
            case PendingTimeout =>
          }
      }
    }
  }
}
