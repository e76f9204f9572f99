/** The server's state machine as a function of its inputs: every command, oven event and
    store event gives a new state and the effects to carry out, in order. Request and cook
    ids, drawn at random in the source, are drawn here from a counter. */
module SmModel {
  import opened Preheat
  import opened Prelude
  import opened Text

  type Id = nat

  const MAX_PENDING_CONTROLS: nat := 16

  datatype Connectivity = Disconnected | Connected(cookerId: Option<string>)

  datatype Lifecycle = Idle | StartPending | Cooking | StopPending

  datatype Origin = LocalCommand | WsExternal | AckConfirmed | TimeoutRecovery | StartupSync

  datatype PendingStart = PendingStart(requestId: Id, firstStageId: Option<string>)

  datatype Tracked = Tracked(requestId: Id, name: string)

  datatype Recipe = Recipe(id: string, title: string, stages: seq<Stage>, stageCount: nat)

  datatype CurrentCook = CurrentCook(title: string, recipeId: Option<string>, startedAt: string, stages: seq<Stage>,
    cookStageCount: nat)

  datatype Sm = Sm(
    connectivity: Connectivity, lifecycle: Lifecycle, lastOrigin: Option<Origin>,
    start: Option<PendingStart>, stop: Option<Id>, controls: seq<Tracked>,
    status: Option<OvenStatus>, ovenCook: Option<OvenCook>, currentCook: Option<CurrentCook>,
    recipes: seq<Recipe>, local: bool, tolerance: real, watch: Option<Watch>, turnedOff: Option<string>, nextId: Id)

  // ---- Effects ----

  /** What a control asks of the oven; edits of the stage list are left abstract. */
  datatype OvenControl = StartStage(stageId: string) | SetLamp(on: bool) | OtherControl(what: string)

  datatype WsCommand =
    | SendStart(requestId: Id, cookId: Id, recipeId: string, stages: seq<Stage>)
    | SendStop(requestId: Id)
    | Control(requestId: Id, control: OvenControl)

  datatype HistoryReason = HistoryPeriodic | HistoryIdleToCooking | HistoryCookToIdle

  datatype CookReason = CookPeriodic | IdleToCooking | ConnectedCookingState | StageTransition | StartAccepted

  datatype StoreCommand =
    | RefreshRecipes
    | RefreshHistory(why: HistoryReason)
    | FetchCurrentCook(reason: CookReason, fetched: Option<OvenCook>)
    | OvenReported(reported: Option<OvenCook>)
    | PatchCookRecipeRef(cook: Id, from: Option<string>, patchedStages: seq<Stage>)
    | LinkCookToRecipe(linkedRecipe: string, linkedTitle: string)

  datatype Effect = Ws(ws: WsCommand) | Store(store: StoreCommand) | PublishReadModel
    | CommandFailed(command: string, failure: string)

  datatype Error = NotCooking | NoOven | RecipeNotFound | Refused

  // ---- Inputs ----

  datatype Command =
    | Query
    | RefreshRecipesCommand
    | StartCook(recipeId: string, startedAt: string)
    | StartManualCook(title: string, stages: seq<Stage>, startedAt: string)
    | StopCook
    | LinkCurrentCook(recipeId: string, title: string)
    | ControlOven(name: string, verdict: Option<OvenControl>)

  datatype TickKind = CurrentCookRefresh | RecipesRefresh | HistoryRefresh | PendingTimeout

  datatype Event =
    | LinkUp
    | LinkDown
    | CookerDiscovered(cookerId: string)
    | ApoState(report: Report)
    | CommandAck(requestId: Id, status: string)
    | ParseError
    | RecipesRefreshed(recipes: Option<seq<Recipe>>)
    | HistoryRefreshed(ok: bool)
    | CurrentCookFetched(result: Option<Option<CurrentCook>>)
    | RecipeRefPatched(patched: bool)
    | ManualTitleResolved(resolved: Option<(string, string)>, cookKey: string)
    | Tick(kind: TickKind)

  datatype Input = Do(command: Command) | On(event: Event)

  // ---- Pieces ----

  function Enter(s: Sm, next: Lifecycle, origin: Origin): Sm {
    s.(lifecycle := next, lastOrigin := Some(origin))
  }

  function CookerId(s: Sm): Option<string> {
    if s.connectivity.Connected? then s.connectivity.cookerId else None
  }

  function SaysCooking(s: Sm): bool {
    s.status.Some? && s.status.value.cooking
  }

  function Fetch(s: Sm, reason: CookReason): Effect {
    Store(FetchCurrentCook(reason, if s.lifecycle == StartPending then None else s.ovenCook))
  }

  /** Send a control, tracked until it is acked; beyond the limit the oldest is forgotten. */
  function SendControl(s: Sm, name: string, control: OvenControl): (Sm, Effect) {
    var all := s.controls + [Tracked(s.nextId, name)];
    (s.(controls := if |all| > MAX_PENDING_CONTROLS then all[1..] else all, nextId := s.nextId + 1),
     Ws(Control(s.nextId, control)))
  }

  function FirstStageId(stages: seq<Stage>): Option<string> {
    if stages == [] then None else stages[0].id
  }

  function Begin(s: Sm, recipe: Recipe, from: Option<string>, startedAt: string): (Sm, seq<Effect>) {
    var (requestId, cookId) := (s.nextId, s.nextId + 1);
    (Enter(s.(start := Some(PendingStart(requestId, FirstStageId(recipe.stages))),
              currentCook := Some(CurrentCook(recipe.title, from, startedAt, recipe.stages, recipe.stageCount)),
              nextId := s.nextId + 2), StartPending, LocalCommand),
     [Ws(SendStart(requestId, cookId, recipe.id, recipe.stages)),
       Store(PatchCookRecipeRef(cookId, from, recipe.stages))])
  }

  function FindRecipe(recipes: seq<Recipe>, id: string): Option<Recipe> {
    if recipes == [] then None else if recipes[0].id == id then Some(recipes[0]) else FindRecipe(recipes[1..], id)
  }

  function CountCookStages(stages: seq<Stage>): nat {
    if stages == [] then 0 else (if stages[0].isPreheat then 0 else 1) + CountCookStages(stages[1..])
  }

  /** A stop: refused with the reason, or under way. */
  function Stop(s: Sm): (Option<Error>, Sm, seq<Effect>) {
    if s.lifecycle == Idle || (s.status.Some? && !s.status.value.cooking) then (Some(NotCooking), s, [])
    else if CookerId(s).None? then (Some(NoOven), s, [])
    else
      var dark := s.local && s.status.Some? && s.status.value.lampOn;
      var (lit, lamp) := SendControl(s, "lamp", SetLamp(false));
      var t := if dark then lit else s;
      (None, Enter(t.(stop := Some(t.nextId), nextId := t.nextId + 1), StopPending, LocalCommand),
       (if dark then [lamp] else []) + [Ws(SendStop(t.nextId))])
  }

  /** The last stage has ended: the oven says so, or its probe has reached its target. */
  function LastStageDone(status: OvenStatus, stage: Stage): bool {
    var target := if status.probeTargetTemperatureC.Some? then status.probeTargetTemperatureC else stage.probeTargetC;
    status.cookDone ||
    (stage.probeAdded && status.probeTemperatureC.Some? && target.Some?
      && status.probeTemperatureC.value >= target.value)
  }

  /** The cook to stop because it is done and its recipe turns the oven off, if there is one
      and it has not been stopped for that already. */
  function ToTurnOff(s: Sm): Option<string> {
    if !s.local || s.lifecycle != Cooking || s.status.None? || s.ovenCook.None? || s.currentCook.None? then None
    else
      var (cook, stages, mine) := (s.ovenCook.value, s.ovenCook.value.stages, s.currentCook.value.stages);
      if mine == [] || !mine[|mine| - 1].turnOffAtEnd || s.turnedOff == Some(cook.cookId) then None
      else if stages == [] || s.status.value.activeStageIndex != Some(|stages| - 1) then None
      else if LastStageDone(s.status.value, stages[|stages| - 1]) then Some(cook.cookId)
      else None
  }

  function TurnOffWhenDone(s: Sm): (Sm, seq<Effect>) {
    var cook := ToTurnOff(s);
    if cook.None? then (s, [])
    else
      var marked := s.(turnedOff := cook);
      var (error, stopped, effects) := Stop(marked);
      if error.None? then (stopped, effects) else (marked, [])
  }

  // ---- An oven report ----

  /** From idle to cooking: a start confirmed, or a cook begun elsewhere. */
  function BeganCooking(s: Sm, status: OvenStatus): (Sm, seq<Effect>) {
    var seenBefore := s.status.Some?;
    var reason := if seenBefore then IdleToCooking else ConnectedCookingState;
    var origin := if s.lifecycle == StartPending then AckConfirmed else if seenBefore then WsExternal else StartupSync;
    var t := Enter(s.(start := None), Cooking, origin);
    var (lit, lamp) := SendControl(t, "lamp", SetLamp(true));
    var on := s.local && seenBefore && !status.lampOn;
    var u := if on then lit else t;
    (u, (if on then [lamp] else []) + [Fetch(u, reason), Store(RefreshHistory(HistoryIdleToCooking))])
  }

  /** From cooking to idle. */
  function EndedCooking(s: Sm): Sm {
    var origin := if s.lifecycle == StopPending then AckConfirmed else WsExternal;
    Enter(s.(stop := None, currentCook := None), Idle, origin)
  }

  /** An idle report leaves no start pending, and no cook once the lifecycle is idle. */
  function SettledIdle(s: Sm): Sm {
    var t := if s.lifecycle == StartPending then Enter(s.(start := None), Idle, TimeoutRecovery) else s;
    if t.lifecycle == Idle then t.(currentCook := None) else t
  }

  /** The edge a report shows against the last one, with what is fetched for it. */
  function Edge(s: Sm, status: OvenStatus): (Sm, seq<Effect>) {
    var was := SaysCooking(s);
    if status.cooking && !was then BeganCooking(s, status)
    else if status.cooking then
      (s, if s.status.value.timerTotalSecs != status.timerTotalSecs then [Fetch(s, StageTransition)] else [])
    else if was then (SettledIdle(EndedCooking(s)), [Store(RefreshHistory(HistoryCookToIdle))])
    else (SettledIdle(s), [])
  }

  function ApplyApoState(s: Sm, status: OvenStatus): (Sm, seq<Effect>) {
    var (edged, effects) := Edge(s, status);
    var (done, off) := TurnOffWhenDone(edged.(status := Some(status)));
    (done, effects + off + [PublishReadModel])
  }

  /** The preheat watch on a report: the marked status, and the stage start, if one is due. */
  function SettlePreheat(s: Sm, r: Report): (Sm, OvenStatus, seq<Effect>) {
    var out := Settle(s.watch, s.local, s.tolerance, r);
    var t := s.(watch := out.watch);
    var status := r.status.(waiting := out.waiting);
    if out.start.None? then (t, status, [])
    else
      var (u, effect) := SendControl(t, "next_stage", StartStage(out.start.value));
      (u, status, [effect])
  }

  function Reported(s: Sm, r: Report): (Sm, seq<Effect>) {
    var told := if s.lifecycle == StartPending then [] else [Store(OvenReported(r.cook))];
    var (watched, status, settled) := SettlePreheat(s.(ovenCook := r.cook), r);
    var (t, effects) := ApplyApoState(watched, status);
    (t, told + effects + settled)
  }

  // ---- Acks ----

  function IsOk(status: string): bool {
    |status| == 2 && LowerChar(status[0]) == 'o' && LowerChar(status[1]) == 'k'
  }

  function IndexOf(controls: seq<Tracked>, id: Id): (i: Option<nat>)
    ensures i.Some? ==> i.value < |controls| && controls[i.value].requestId == id
    ensures i.None? ==> forall k :: 0 <= k < |controls| ==> controls[k].requestId != id
  {
    if controls == [] then None
    else if controls[0].requestId == id then Some(0)
    else
      match IndexOf(controls[1..], id)
      case None => None
      case Some(i) => Some(i + 1)
  }

  function Acked(s: Sm, id: Id, status: string): (Sm, seq<Effect>) {
    var ok := IsOk(status);
    if s.start.Some? && s.start.value.requestId == id then
      if ok then
        var t := s.(lastOrigin := Some(AckConfirmed));
        var u := if s.local && SaysCooking(s) then Enter(t.(start := None), Cooking, AckConfirmed) else t;
        (u, [Fetch(u, StartAccepted)])
      else (Enter(s.(start := None), Idle, TimeoutRecovery), [CommandFailed("start", status)])
    else if s.stop == Some(id) && !ok then
      (Enter(s.(stop := None), Cooking, TimeoutRecovery), [CommandFailed("stop", status)])
    else
      var i := IndexOf(s.controls, id);
      if i.None? then (s, [])
      else
        (s.(controls := s.controls[..i.value] + s.controls[i.value + 1..]),
         if ok then [] else [CommandFailed(s.controls[i.value].name, status)])
  }

  // ---- The reducers ----

  function ReduceCommand(s: Sm, c: Command): (Option<Error>, Sm, seq<Effect>) {
    match c
    case Query => (None, s, [])
    case RefreshRecipesCommand => (None, s, [Store(RefreshRecipes)])
    case StartCook(recipeId, startedAt) =>
      if CookerId(s).None? then (Some(NoOven), s, [])
      else
        var recipe := FindRecipe(s.recipes, recipeId);
        if recipe.None? then (Some(RecipeNotFound), s, [])
        else
          var (t, effects) := Begin(s, recipe.value, Some(recipe.value.id), startedAt);
          (None, t, effects)
    case StartManualCook(title, stages, startedAt) =>
      if CookerId(s).None? then (Some(NoOven), s, [])
      else
        var (t, effects) := Begin(s, Recipe("manual", title, stages, CountCookStages(stages)), None, startedAt);
        (None, t, effects)
    case StopCook => Stop(s)
    case LinkCurrentCook(recipeId, title) =>
      if s.currentCook.None? then (Some(NotCooking), s, [])
      else (None, s.(currentCook := Some(s.currentCook.value.(recipeId := Some(recipeId), title := title))),
            [Store(LinkCookToRecipe(recipeId, title)), PublishReadModel])
    case ControlOven(name, verdict) =>
      if verdict.None? then (Some(Refused), s, [])
      else
        var (t, effect) := SendControl(s, name, verdict.value);
        (None, t, [effect])
  }

  function Titled(s: Sm, title: string, id: string, cookKey: string): Sm {
    if s.currentCook.Some? && s.currentCook.value.startedAt == cookKey && s.currentCook.value.title == "[manual]" then
      var cook := s.currentCook.value;
      var recipeId := if cook.recipeId.None? then Some(id) else cook.recipeId;
      s.(currentCook := Some(cook.(title := title, recipeId := recipeId)))
    else s
  }

  function ReduceEvent(s: Sm, e: Event): (Sm, seq<Effect>) {
    match e
    case LinkUp => (s.(connectivity := Connected(CookerId(s))), [])
    case LinkDown => (s.(connectivity := Disconnected), [])
    case CookerDiscovered(id) => (s.(connectivity := Connected(Some(id))), [])
    case ApoState(report) => Reported(s, report)
    case CommandAck(id, status) => Acked(s, id, status)
    case ParseError => (s, [])
    case RecipesRefreshed(recipes) => if recipes.Some? then (s.(recipes := recipes.value), [PublishReadModel])
      else (s, [])
    case HistoryRefreshed(ok) => (s, if ok then [PublishReadModel] else [])
    case CurrentCookFetched(result) => if result.Some? then (s.(currentCook := result.value), [PublishReadModel])
      else (s, [])
    case RecipeRefPatched(ok) => (s, if ok then [Fetch(s, StartAccepted)] else [])
    case ManualTitleResolved(resolved, cookKey) =>
      if resolved.Some? then (Titled(s, resolved.value.0, resolved.value.1, cookKey), [PublishReadModel]) else (s, [])
    case Tick(kind) =>
      (s, match kind
          case CurrentCookRefresh => if s.lifecycle == Cooking || s.lifecycle == StartPending
            then [Fetch(s, CookPeriodic)] else []
          case RecipesRefresh => [Store(RefreshRecipes)]
          case HistoryRefresh => [Store(RefreshHistory(HistoryPeriodic))]
          case PendingTimeout => [])
  }

  function Reduce(s: Sm, i: Input): (Sm, seq<Effect>) {
    match i
    case Do(command) =>
      var (_, t, effects) := ReduceCommand(s, command);
      (t, effects)
    case On(event) => ReduceEvent(s, event)
  }

  function Initial(local: bool, tolerance: real): Sm {
    Sm(Disconnected, Idle, None, None, None, [], None, None, None, [], local, tolerance, None, None, 0)
  }
}
