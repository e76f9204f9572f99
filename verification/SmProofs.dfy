/** What the state machine keeps in every state any interleaving of commands, oven reports,
    acks, ticks and store events can reach. */
module SmProofs {
  import opened Preheat
  import opened Prelude
  import opened SmModel

  function Run(s: Sm, inputs: seq<Input>): Sm
    decreases |inputs|
  {
    if inputs == [] then s else Reduce(Run(s, inputs[..|inputs| - 1]), inputs[|inputs| - 1]).0
  }

  // ---- Pending commands match the lifecycle ----

  /** A start or stop that is pending has its request; controls are few, each under its own
      id, and no id is out for two things or yet to be drawn. */
  ghost predicate Inv(s: Sm) {
    && (s.lifecycle == StartPending ==> s.start.Some?)
    && (s.lifecycle == StopPending ==> s.stop.Some?)
    && |s.controls| <= MAX_PENDING_CONTROLS
    && (s.start.Some? ==> s.start.value.requestId < s.nextId)
    && (s.stop.Some? ==> s.stop.value < s.nextId)
    && (s.start.Some? && s.stop.Some? ==> s.start.value.requestId != s.stop.value)
    && (forall i :: 0 <= i < |s.controls| ==> Apart(s, s.controls[i].requestId))
    && (forall i, j :: 0 <= i < j < |s.controls| ==> s.controls[i].requestId != s.controls[j].requestId)
  }

  predicate Apart(s: Sm, id: Id) {
    id < s.nextId && (s.start.Some? ==> s.start.value.requestId != id) && s.stop != Some(id)
  }

  lemma SendControlInv(s: Sm, name: string, control: OvenControl)
    requires Inv(s)
    ensures Inv(SendControl(s, name, control).0)
  {
  }

  lemma BeginInv(s: Sm, recipe: Recipe, from: Option<string>, startedAt: string)
    requires Inv(s)
    ensures Inv(Begin(s, recipe, from, startedAt).0)
  {
  }

  lemma StopInv(s: Sm)
    requires Inv(s)
    ensures Inv(Stop(s).1)
  {
    SendControlInv(s, "lamp", SetLamp(false));
  }

  lemma TurnOffInv(s: Sm)
    requires Inv(s)
    ensures Inv(TurnOffWhenDone(s).0)
  {
    var marked := s.(turnedOff := ToTurnOff(s));
    assert Inv(marked);
    StopInv(marked);
  }

  lemma BeganInv(s: Sm, status: OvenStatus)
    requires Inv(s)
    ensures Inv(BeganCooking(s, status).0)
  {
    var origin := if s.lifecycle == StartPending then AckConfirmed else if s.status.Some? then WsExternal
      else StartupSync;
    var began := Enter(s.(start := None), Cooking, origin);
    assert Inv(began);
    SendControlInv(began, "lamp", SetLamp(true));
  }

  lemma SettledIdleInv(s: Sm)
    requires Inv(s)
    ensures Inv(SettledIdle(s)) && Inv(EndedCooking(s))
  {
  }

  lemma EdgeInv(s: Sm, status: OvenStatus)
    requires Inv(s)
    ensures Inv(Edge(s, status).0)
  {
    BeganInv(s, status);
    SettledIdleInv(s);
    SettledIdleInv(EndedCooking(s));
  }

  lemma ReportedInv(s: Sm, r: Report)
    requires Inv(s)
    ensures Inv(Reported(s, r).0)
  {
    var seen := s.(ovenCook := r.cook, watch := Settle(s.watch, s.local, s.tolerance, r).watch);
    assert Inv(seen);
    var (watched, status, settled) := SettlePreheat(s.(ovenCook := r.cook), r);
    var out := Settle(s.watch, s.local, s.tolerance, r);
    if out.start.Some? {
      SendControlInv(seen, "next_stage", StartStage(out.start.value));
    }
    EdgeInv(watched, status);
    var edged := Edge(watched, status).0.(status := Some(status));
    assert Inv(edged);
    TurnOffInv(edged);
  }

  lemma ForgetInv(s: Sm, i: nat)
    requires Inv(s) && i < |s.controls|
    ensures Inv(s.(controls := s.controls[..i] + s.controls[i + 1..]))
  {
  }

  lemma AckedInv(s: Sm, id: Id, status: string)
    requires Inv(s)
    ensures Inv(Acked(s, id, status).0)
  {
    var i := IndexOf(s.controls, id);
    if i.Some? {
      ForgetInv(s, i.value);
    }
  }

  lemma ReduceInv(s: Sm, i: Input)
    requires Inv(s)
    ensures Inv(Reduce(s, i).0)
  {
    match i {
      case Do(command) => CommandInv(s, command);
      case On(event) => EventInv(s, event);
    }
  }

  lemma CommandInv(s: Sm, c: Command)
    requires Inv(s)
    ensures Inv(ReduceCommand(s, c).1)
  {
    match c {
      case StartCook(recipeId, startedAt) =>
        var recipe := FindRecipe(s.recipes, recipeId);
        if recipe.Some? {
          BeginInv(s, recipe.value, Some(recipe.value.id), startedAt);
        }
      case StartManualCook(title, stages, startedAt) =>
        BeginInv(s, Recipe("manual", title, stages, CountCookStages(stages)), None, startedAt);
      case StopCook => StopInv(s);
      case ControlOven(name, verdict) =>
        if verdict.Some? {
          SendControlInv(s, name, verdict.value);
        }
      case _ =>
    }
  }

  lemma EventInv(s: Sm, e: Event)
    requires Inv(s)
    ensures Inv(ReduceEvent(s, e).0)
  {
    match e {
      case ApoState(report) => ReportedInv(s, report);
      case CommandAck(id, status) => AckedInv(s, id, status);
      case _ =>
    }
  }

  /** In every reachable state a pending start or stop has its request, and at most sixteen
      controls are tracked, each under an id of its own. */
  lemma {:induction false} RunInv(local: bool, tolerance: real, inputs: seq<Input>)
    ensures Inv(Run(Initial(local, tolerance), inputs))
    decreases |inputs|
  {
    if inputs != [] {
      RunInv(local, tolerance, inputs[..|inputs| - 1]);
      ReduceInv(Run(Initial(local, tolerance), inputs[..|inputs| - 1]), inputs[|inputs| - 1]);
    }
  }

  // ---- A report's effects ----

  predicate IsReport(e: Effect) { e.Store? && e.store.OvenReported? }

  predicate IsStop(e: Effect) { e.Ws? && e.ws.SendStop? }

  predicate StartsStage(e: Effect) { e.Ws? && e.ws.Control? && e.ws.control.StartStage? }

  /** An idle report that leaves the lifecycle idle leaves no current cook. */
  lemma IdleReportClearsCook(s: Sm, r: Report)
    requires !r.status.cooking && Reported(s, r).0.lifecycle == Idle
    ensures Reported(s, r).0.currentCook.None?
  {
  }

  /** While a start is pending, nothing the machine sends the store names the oven's cook:
      that is the cook being replaced. */
  ghost predicate NamesNoOldCook(s: Sm, effects: seq<Effect>) {
    s.lifecycle == StartPending ==>
      forall e <- effects :: e.Store? && e.store.FetchCurrentCook? ==> e.store.fetched.None?
  }

  /** A report leaves a start pending only if it shows the cook being replaced still going. */
  lemma ReportLeavesNoStartPending(s: Sm, r: Report)
    ensures Reported(s, r).0.lifecycle == StartPending ==>
      s.lifecycle == StartPending && SaysCooking(s) && r.status.cooking
  {
    var (watched, status, _) := SettlePreheat(s.(ovenCook := r.cook), r);
    EdgeStartPending(watched, status);
    TurnOffStartPending(Edge(watched, status).0.(status := Some(status)));
  }

  lemma EdgeStartPending(s: Sm, status: OvenStatus)
    ensures Edge(s, status).0.lifecycle == StartPending ==>
      s.lifecycle == StartPending && SaysCooking(s) && status.cooking
  {
  }

  lemma TurnOffStartPending(s: Sm)
    ensures TurnOffWhenDone(s).0.lifecycle == StartPending ==> s.lifecycle == StartPending
  {
  }

  lemma FetchesAreSafe(s: Sm, i: Input)
    ensures NamesNoOldCook(Reduce(s, i).0, Reduce(s, i).1)
  {
    if i.On? && i.event.ApoState? {
      ReportFetchesSafe(s, i.event.report);
    }
  }

  lemma ReportFetchesSafe(s: Sm, r: Report)
    ensures NamesNoOldCook(Reported(s, r).0, Reported(s, r).1)
  {
    var (watched, status, settled) := SettlePreheat(s.(ovenCook := r.cook), r);
    var (edged, first) := Edge(watched, status);
    var t := Reported(s, r).0;
    if t.lifecycle == StartPending {
      assert edged.lifecycle == StartPending && edged == watched;
      assert forall e <- first :: e.Store? && e.store.FetchCurrentCook? ==> e.store.fetched.None?;
      assert TurnOffWhenDone(edged.(status := Some(status))).1 == [];
    }
  }

  // ---- What each part of a report leaves alone ----

  predicate SameWatching(s: Sm, t: Sm) {
    t.local == s.local && t.tolerance == s.tolerance && t.watch == s.watch
  }

  lemma EdgeKeeps(s: Sm, status: OvenStatus)
    ensures var t := Edge(s, status).0;
      SameWatching(s, t) && t.turnedOff == s.turnedOff && t.ovenCook == s.ovenCook
    ensures forall e <- Edge(s, status).1 :: !IsStop(e) && !IsReport(e) && !StartsStage(e)
  {
  }

  lemma TurnOffKeeps(s: Sm)
    ensures var (t, effects) := TurnOffWhenDone(s);
      && SameWatching(s, t) && t.status == s.status
      && t.turnedOff == (if ToTurnOff(s).Some? then ToTurnOff(s) else s.turnedOff)
      && (ToTurnOff(s).None? ==> effects == [])
      && (ToTurnOff(s).Some? ==>
            && ToTurnOff(s) != s.turnedOff && s.ovenCook.Some?
            && ToTurnOff(s).value == s.ovenCook.value.cookId)
      && forall e <- effects :: !IsReport(e) && !StartsStage(e)
  {
  }

  lemma WatchKeeps(s: Sm, r: Report)
    ensures var (t, status, effects) := SettlePreheat(s, r);
      var out := Settle(s.watch, s.local, s.tolerance, r);
      && t.local == s.local && t.tolerance == s.tolerance && t.watch == out.watch
      && t.turnedOff == s.turnedOff && t.ovenCook == s.ovenCook && status == r.status.(waiting := out.waiting)
      && (out.start.None? ==> effects == [])
      && (out.start.Some? ==>
            && |effects| == 1 && StartsStage(effects[0])
            && effects[0].ws.control.stageId == out.start.value)
      && forall e <- effects :: !IsStop(e) && !IsReport(e)
  {
  }

  /** A report taken apart: told to the store, its edge, a stop, the read model, and the watch's own. */
  datatype Parts = Parts(told: seq<Effect>, first: seq<Effect>, off: seq<Effect>, settled: seq<Effect>)

  ghost function PartsOf(s: Sm, r: Report): Parts {
    var (watched, status, settled) := SettlePreheat(s.(ovenCook := r.cook), r);
    var (edged, first) := Edge(watched, status);
    var off := TurnOffWhenDone(edged.(status := Some(status))).1;
    Parts(if s.lifecycle == StartPending then [] else [Store(OvenReported(r.cook))], first, off, settled)
  }

  lemma ReportParts(s: Sm, r: Report)
    ensures var p := PartsOf(s, r);
      Reported(s, r).1 == p.told + p.first + p.off + [PublishReadModel] + p.settled
    ensures var (p, t, out) := (PartsOf(s, r), Reported(s, r).0, Settle(s.watch, s.local, s.tolerance, r));
      && (forall e <- p.first :: !IsStop(e) && !IsReport(e) && !StartsStage(e))
      && (forall e <- p.off :: !IsReport(e) && !StartsStage(e))
      && (forall e <- p.settled :: !IsStop(e) && !IsReport(e))
      && (p.off != [] ==> r.cook.Some? && t.turnedOff == Some(r.cook.value.cookId) && t.turnedOff != s.turnedOff)
      && (out.start.None? ==> p.settled == [])
      && (out.start.Some? ==>
            && |p.settled| == 1 && StartsStage(p.settled[0])
            && p.settled[0].ws.control.stageId == out.start.value)
      && t.local == s.local && t.tolerance == s.tolerance && t.watch == out.watch
      && t.status == Some(r.status.(waiting := out.waiting))
      && (t.turnedOff != s.turnedOff ==> t.turnedOff.Some?)
  {
    var seen := s.(ovenCook := r.cook);
    var (watched, status, _) := SettlePreheat(seen, r);
    WatchKeeps(seen, r);
    EdgeKeeps(watched, status);
    TurnOffKeeps(Edge(watched, status).0.(status := Some(status)));
  }

  /** The store hears of a report first, and only once, and hears of it exactly when the
      report does not arrive while a start is pending. */
  lemma ReportToldFirst(s: Sm, r: Report)
    ensures var effects := Reported(s, r).1;
      && effects != []
      && (IsReport(effects[0]) <==> s.lifecycle != StartPending)
      && (IsReport(effects[0]) ==> effects[0] == Store(OvenReported(r.cook)))
      && forall k :: 0 < k < |effects| ==> !IsReport(effects[k])
  {
    ReportParts(s, r);
    var p := PartsOf(s, r);
    var rest := p.first + p.off + [PublishReadModel] + p.settled;
    NoneToldAgain(p);
    assert Reported(s, r).1 == p.told + rest;
  }

  lemma NoneToldAgain(p: Parts)
    requires forall e <- p.first + p.off + p.settled :: !IsReport(e)
    ensures var rest := p.first + p.off + [PublishReadModel] + p.settled;
      rest != [] && forall k :: 0 <= k < |rest| ==> !IsReport(rest[k])
  {
  }

  // ---- The preheat watch ----

  function ReportsIn(inputs: seq<Input>): seq<Report>
    decreases |inputs|
  {
    if inputs == [] then []
    else
      var (before, last) := (ReportsIn(inputs[..|inputs| - 1]), inputs[|inputs| - 1]);
      if last.On? && last.event.ApoState? then before + [last.event.report] else before
  }

  lemma {:induction false} WatchPrefix(local: bool, tolerance: real, rs: seq<Report>, r: Report, k: nat)
    requires k <= |rs|
    ensures WatchAt(local, tolerance, rs + [r], k) == WatchAt(local, tolerance, rs, k)
  {
    if k > 0 {
      WatchPrefix(local, tolerance, rs, r, k - 1);
    }
  }

  lemma OthersKeepWatching(s: Sm, i: Input)
    requires !(i.On? && i.event.ApoState?)
    ensures SameWatching(s, Reduce(s, i).0)
  {
  }

  /** Whatever else happens between reports, the machine's watch is the one those reports
      alone lead to, so what holds of runs of reports holds of every run. */
  lemma {:induction false} WatchFollowsReports(local: bool, tolerance: real, inputs: seq<Input>)
    ensures var s := Run(Initial(local, tolerance), inputs);
      s.local == local && s.tolerance == tolerance
      && s.watch == WatchAt(local, tolerance, ReportsIn(inputs), |ReportsIn(inputs)|)
    decreases |inputs|
  {
    if inputs != [] {
      var init, last := inputs[..|inputs| - 1], inputs[|inputs| - 1];
      var before := Run(Initial(local, tolerance), init);
      WatchFollowsReports(local, tolerance, init);
      InputWatches(before, last);
      if last.On? && last.event.ApoState? {
        WatchExtends(local, tolerance, ReportsIn(init), last.event.report);
      }
    }
  }

  lemma WatchExtends(local: bool, tolerance: real, rs: seq<Report>, r: Report)
    ensures WatchAt(local, tolerance, rs + [r], |rs + [r]|) ==
      Settle(WatchAt(local, tolerance, rs, |rs|), local, tolerance, r).watch
  {
    WatchPrefix(local, tolerance, rs, r, |rs|);
  }

  lemma InputWatches(s: Sm, i: Input)
    ensures var t := Reduce(s, i).0;
      t.local == s.local && t.tolerance == s.tolerance
      && t.watch == if i.On? && i.event.ApoState? then Settle(s.watch, s.local, s.tolerance, i.event.report).watch
          else s.watch
  {
    if i.On? && i.event.ApoState? {
      ReportParts(s, i.event.report);
    } else {
      OthersKeepWatching(s, i);
    }
  }

  /** A report makes the server start a stage exactly when the watch says so, and the
      status it records is the one the watch has marked. */
  lemma ReportActsOnWatch(s: Sm, r: Report)
    ensures var out := Settle(s.watch, s.local, s.tolerance, r);
      && ((exists e <- Reported(s, r).1 :: StartsStage(e)) <==> out.start.Some?)
      && (forall e <- Reported(s, r).1 :: StartsStage(e) ==> out.start == Some(e.ws.control.stageId))
      && Reported(s, r).0.status == Some(r.status.(waiting := out.waiting))
  {
    ReportParts(s, r);
    var p := PartsOf(s, r);
    var before := p.told + p.first + p.off + [PublishReadModel];
    assert forall e <- before :: !StartsStage(e);
    if p.settled != [] {
      assert p.settled[0] in p.settled && p.settled[0] in Reported(s, r).1;
    }
  }

  /** The server acts on a preheat itself: it starts the next stage, or marks a report as
      waiting which the oven did not mark and which is not of a watch reached before. */
  ghost predicate ActsOnPreheat(s: Sm, r: Report) {
    || (exists e <- Reported(s, r).1 :: StartsStage(e))
    || (Settle(s.watch, s.local, s.tolerance, r).waiting && !r.status.waiting && !ReachedBefore(s, r))
  }

  predicate ReachedBefore(s: Sm, r: Report) {
    var h := HeatingIn(s.local, r);
    h.Some? && WatchFor(s.watch, h.value.stageId).reached
  }

  /** In any run, the server acts on a preheat itself only after consecutive reports, this
      one the last, that were all of that stage, all at or above its setpoint minus the
      tolerance, and span the settle window; and what it starts is the stage after it. */
  lemma ActionIsEarned(local: bool, tolerance: real, inputs: seq<Input>, r: Report)
    requires ActsOnPreheat(Run(Initial(local, tolerance), inputs), r)
    ensures var (rs, k) := (ReportsIn(inputs) + [r], |ReportsIn(inputs)|);
      && HeatingIn(local, r).Some?
      && NearAt(local, tolerance, rs, k, HeatingIn(local, r).value.stageId)
      && r.now >= rs[NearFrom(local, tolerance, rs, k, HeatingIn(local, r).value.stageId)].now + PREHEAT_SETTLE_WINDOW
    ensures forall e <- Reported(Run(Initial(local, tolerance), inputs), r).1 ::
      StartsStage(e) ==> HeatingIn(local, r).Some? && HeatingIn(local, r).value.next.id == Some(e.ws.control.stageId)
  {
    var s := Run(Initial(local, tolerance), inputs);
    var (rs, k) := (ReportsIn(inputs) + [r], |ReportsIn(inputs)|);
    WatchFollowsReports(local, tolerance, inputs);
    WatchPrefix(local, tolerance, ReportsIn(inputs), r, k);
    assert s.watch == WatchAt(local, tolerance, rs, k) && rs[k] == r;
    ReportActsOnWatch(s, r);
    ActionsComeFromSettling(local, tolerance, rs, k);
    SettlesWhenNearLongEnough(local, tolerance, rs, k, HeatingIn(local, r).value.stageId);
  }
}
