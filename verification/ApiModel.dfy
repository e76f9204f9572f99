/** The API client's runtime as a transition system over its schedule: what a command
    stages, what serving an event re-arms, and the promises kept over every run. */
module ApiModel {
  import opened Prelude
  import opened Scheduler

  const SECOND: nat := 1000
  const POST_ACTION_COOK_REFRESH_DELAY: nat := 1 * SECOND
  const POST_START_CURRENT_COOK_REFRESH_DELAY: nat := 3 * SECOND
  const COOK_POLL_INTERVAL_SECS: nat := 10
  const RECIPE_POLL_INTERVAL_SECS: nat := 3600
  const NORMAL_POLL_INTERVAL_SECS: nat := 1
  const U64_MAX: nat := 0xFFFF_FFFF_FFFF_FFFF

  datatype ApiCommand = Start(recipeId: string) | Stop | NextStage

  /** How a request to the server came out. */
  datatype Outcome = Answered | NoOven | Failed | TimedOut

  datatype Api = Api(schedule: Schedule, staged: Option<string>, failCount: nat)

  function KindOf(c: ApiCommand): EventKind {
    match c
    case Start(_) => ApiStart
    case Stop => ApiStop
    case NextStage => ApiNextStage
  }

  function Sooner(m: Schedule, kind: EventKind, at: nat): Schedule {
    Enqueued(m, kind, at, PreferEarlier)
  }

  function Initial(now: nat): Api {
    Api(map[PollStatus := now, PollCurrentCook := now + 250, PollRecipes := now + 500], None, 0)
  }

  lemma InitialSchedule(now: nat)
    ensures Sooner(Sooner(Sooner(map[], PollStatus, now), PollCurrentCook, now + 250), PollRecipes, now + 500)
      == Initial(now).schedule
    ensures Settled(Initial(now))
  {
  }

  function PostActionRefresh(m: Schedule, now: nat): Schedule {
    var at := now + POST_ACTION_COOK_REFRESH_DELAY;
    Sooner(Sooner(m, PollStatus, at), PollCurrentCook, at)
  }

  function Commanded(a: Api, c: ApiCommand, now: nat): Api {
    match c
    case Start(id) => a.(staged := Some(id), schedule := Sooner(a.schedule, ApiStart, now))
    case Stop => a.(schedule := PostActionRefresh(Sooner(a.schedule, ApiStop, now), now))
    case NextStage => a.(schedule := PostActionRefresh(Sooner(a.schedule, ApiNextStage, now), now))
  }

  predicate ActionInFlight(a: Api) {
    a.staged.Some? || ApiStart in a.schedule || ApiStop in a.schedule || ApiNextStage in a.schedule
  }

  /** Polling backs off as fast-poll failures pile up. */
  function NextPollIntervalSecs(failCount: nat): nat {
    if failCount >= 15 then 30 else if failCount >= 10 then 15 else if failCount >= 5 then 5 else 1
  }

  function CountFailure(failCount: nat, outcome: Outcome): nat {
    match outcome
    case Answered => 0
    case NoOven => 0
    case _ => if failCount < U64_MAX then failCount + 1 else failCount
  }

  /** The state after the handler for `kind`, just popped, finished at `end`. */
  function Handled(a: Api, kind: EventKind, outcome: Outcome, end: nat): Api {
    match kind
    case PollStatus =>
      if ActionInFlight(a) then a.(schedule := Sooner(a.schedule, PollStatus, end + POST_ACTION_COOK_REFRESH_DELAY))
      else
        var fails := CountFailure(a.failCount, outcome);
        var interval := Max(NextPollIntervalSecs(fails), NORMAL_POLL_INTERVAL_SECS);
        a.(failCount := fails, schedule := Sooner(a.schedule, PollStatus, end + interval * SECOND))
    case PollCurrentCook =>
      if ActionInFlight(a)
      then a.(schedule := Sooner(a.schedule, PollCurrentCook, end + POST_ACTION_COOK_REFRESH_DELAY))
      else
        var interval := Max(NextPollIntervalSecs(a.failCount), COOK_POLL_INTERVAL_SECS);
        a.(schedule := Sooner(a.schedule, PollCurrentCook, end + interval * SECOND))
    case PollRecipes =>
      var interval := Max(NextPollIntervalSecs(a.failCount), RECIPE_POLL_INTERVAL_SECS);
      a.(schedule := Sooner(a.schedule, PollRecipes, end + interval * SECOND))
    case ApiStart =>
      if a.staged.None? then a
      else
        var m := Sooner(a.schedule, PollStatus, end + POST_ACTION_COOK_REFRESH_DELAY);
        a.(staged := None, schedule := Sooner(m, PollCurrentCook, end + POST_START_CURRENT_COOK_REFRESH_DELAY))
    case _ => a
  }

  /** What a handler asks of the server. */
  datatype Request = GetStatus | GetCurrentCook | GetRecipes | PostStart(recipeId: string) | PostStop | PostNextStage

  /** The request the handler for `kind`, just popped, makes, if it makes one. */
  function RequestOf(a: Api, kind: EventKind): Option<Request> {
    match kind
    case PollStatus => if ActionInFlight(a) then None else Some(GetStatus)
    case PollCurrentCook => if ActionInFlight(a) then None else Some(GetCurrentCook)
    case PollRecipes => Some(GetRecipes)
    case ApiStart => if a.staged.Some? then Some(PostStart(a.staged.value)) else None
    case ApiStop => Some(PostStop)
    case ApiNextStage => Some(PostNextStage)
  }

  function Popped(a: Api, kind: EventKind): Api {
    a.(schedule := a.schedule - {kind})
  }

  // ---- Steps and runs ----

  /** One thing the client does: take a command, or serve an event popped at `now`, its
      handler finishing at `end`. */
  datatype Action = Arrive(command: ApiCommand, now: nat) | Serve(kind: EventKind, now: nat, outcome: Outcome, end: nat)

  function Began(x: Action): nat { x.now }

  function Ended(x: Action): nat { if x.Serve? then x.end else x.now }

  /** Serving takes the soonest event and only one that is due; which of several equally
      soon it takes depends on the vector's order, so any may be taken. */
  ghost predicate Next(a: Api, x: Action, a': Api) {
    match x
    case Arrive(c, now) => a' == Commanded(a, c, now)
    case Serve(kind, now, outcome, end) =>
      && Soonest(a.schedule, kind) && a.schedule[kind] <= now <= end
      && a' == Handled(Popped(a, kind), kind, outcome, end)
  }

  ghost predicate StepAt(states: seq<Api>, acts: seq<Action>, i: nat)
    requires i < |acts| < |states|
  {
    Next(states[i], acts[i], states[i + 1])
  }

  ghost predicate IsRun(states: seq<Api>, acts: seq<Action>) {
    && |states| == |acts| + 1
    && (forall i :: 0 <= i < |acts| ==> StepAt(states, acts, i))
    && (forall i, j :: 0 <= i < j < |acts| ==> Ended(acts[i]) <= Began(acts[j]))
  }

  /** All three polls are pending, and a recipe id is staged exactly when a start is. */
  ghost predicate Settled(a: Api) {
    && PollStatus in a.schedule && PollCurrentCook in a.schedule && PollRecipes in a.schedule
    && (a.staged.Some? <==> ApiStart in a.schedule)
  }

  lemma NextSettled(a: Api, x: Action, a': Api)
    requires Settled(a) && Next(a, x, a')
    ensures Settled(a')
  {
  }

  /** In every state a run can reach, the polls are all pending, so the client never waits
      without a deadline, and a staged start always has its event. */
  lemma {:induction false} RunSettled(states: seq<Api>, acts: seq<Action>, now: nat, i: nat)
    requires IsRun(states, acts) && states[0] == Initial(now) && i < |states|
    ensures Settled(states[i])
  {
    if i > 0 {
      RunSettled(states, acts, now, i - 1);
      assert StepAt(states, acts, i - 1);
      NextSettled(states[i - 1], acts[i - 1], states[i]);
    }
  }

  // ---- Bounded bypass ----

  /** What may come before a command due by time `t`: the other commands due by then, and
      the polls due strictly before. */
  ghost function Ahead(m: Schedule, kind: EventKind, t: nat): set<EventKind> {
    set k | k in m && k != kind && if k.IsCommand() then m[k] <= t else m[k] < t
  }

  ghost function Serves(acts: seq<Action>): nat {
    if acts == [] then 0 else (if acts[0].Serve? then 1 else 0) + Serves(acts[1..])
  }

  ghost function ArrivalsAt(acts: seq<Action>, t: nat): nat {
    if acts == [] then 0 else (if acts[0].Arrive? && acts[0].now == t then 1 else 0) + ArrivalsAt(acts[1..], t)
  }

  /** Serving another event before the command uses one up: it was due by then, and nothing
      its handler re-arms is. */
  lemma ServeUsesOneUp(a: Api, x: Action, a': Api, kind: EventKind, t: nat)
    requires Next(a, x, a') && x.Serve? && x.kind != kind && t <= x.now
    requires kind.IsCommand() && kind in a.schedule && a.schedule[kind] <= t
    ensures kind in a'.schedule && a'.schedule[kind] <= t
    ensures x.kind in Ahead(a.schedule, kind, t)
    ensures Ahead(a'.schedule, kind, t) <= Ahead(a.schedule, kind, t) - {x.kind}
  {
  }

  lemma SoonerAhead(m: Schedule, other: EventKind, at: nat, kind: EventKind, t: nat)
    requires kind in m && m[kind] <= t
    ensures var m' := Sooner(m, other, at);
      kind in m' && m'[kind] <= t && Ahead(m', kind, t) <= Ahead(m, kind, t) + if at <= t then {other} else {}
  {
  }

  lemma CommandAhead(m: Schedule, c: ApiCommand, now: nat, kind: EventKind, t: nat)
    requires kind in m && m[kind] <= t <= now
    ensures var m' := Sooner(m, KindOf(c), now);
      kind in m' && m'[kind] <= t && Ahead(m', kind, t) <= Ahead(m, kind, t) + if now == t then {KindOf(c)} else {}
  {
    SoonerAhead(m, KindOf(c), now, kind, t);
  }

  lemma RefreshAhead(m: Schedule, now: nat, kind: EventKind, t: nat)
    requires kind in m && m[kind] <= t <= now
    ensures var m' := PostActionRefresh(m, now);
      kind in m' && m'[kind] <= t && Ahead(m', kind, t) <= Ahead(m, kind, t)
  {
    var at := now + POST_ACTION_COOK_REFRESH_DELAY;
    SoonerAhead(m, PollStatus, at, kind, t);
    SoonerAhead(Sooner(m, PollStatus, at), PollCurrentCook, at, kind, t);
  }

  /** A later command adds nothing due by then; one at that very instant at most its own kind. */
  lemma ArrivalAdds(a: Api, x: Action, a': Api, kind: EventKind, t: nat)
    requires Next(a, x, a') && x.Arrive? && t <= x.now
    requires kind in a.schedule && a.schedule[kind] <= t
    ensures kind in a'.schedule && a'.schedule[kind] <= t
    ensures Ahead(a'.schedule, kind, t) <= Ahead(a.schedule, kind, t) + if x.now == t then {KindOf(x.command)} else {}
  {
    CommandAhead(a.schedule, x.command, x.now, kind, t);
    if !x.command.Start? {
      RefreshAhead(Sooner(a.schedule, KindOf(x.command), x.now), x.now, kind, t);
    }
  }

  lemma RunTail(states: seq<Api>, acts: seq<Action>)
    requires IsRun(states, acts) && acts != []
    ensures IsRun(states[1..], acts[1..]) && Next(states[0], acts[0], states[1])
  {
    assert StepAt(states, acts, 0);
    var rest, later := states[1..], acts[1..];
    forall i | 0 <= i < |later| ensures Next(rest[i], later[i], rest[i + 1]) {
      var k := i + 1;
      assert StepAt(states, acts, k);
    }
  }

  /** While a command due by time `t` waits, the events served before it number at most the
      commands already due by then and the polls due before, plus one for each command that
      arrives at that same instant. */
  lemma {:induction false} BypassBound(states: seq<Api>, acts: seq<Action>, kind: EventKind, t: nat)
    requires IsRun(states, acts) && kind.IsCommand()
    requires kind in states[0].schedule && states[0].schedule[kind] <= t
    requires forall x <- acts :: t <= Began(x) && !(x.Serve? && x.kind == kind)
    ensures Serves(acts) <= |Ahead(states[0].schedule, kind, t)| + ArrivalsAt(acts, t)
    decreases |acts|
  {
    if acts != [] {
      var (a, x, a') := (states[0], acts[0], states[1]);
      RunTail(states, acts);
      assert x in acts;
      var (rest, later) := (states[1..], acts[1..]);
      var before, after := Ahead(a.schedule, kind, t), Ahead(a'.schedule, kind, t);
      if x.Serve? {
        ServeUsesOneUp(a, x, a', kind, t);
        SubsetSize(after, before - {x.kind});
      } else {
        ArrivalAdds(a, x, a', kind, t);
        SubsetSize(after, before + if x.now == t then {KindOf(x.command)} else {});
      }
      BypassBound(rest, later, kind, t);
    }
  }

  lemma AheadAtMostFive(m: Schedule, kind: EventKind, t: nat)
    ensures |Ahead(m, kind, t)| <= 5
  {
    var ahead := Ahead(m, kind, t);
    SixKinds(ahead + {kind});
    assert |ahead + {kind}| == |ahead| + 1;
  }

  /** No two of the events served are of the same kind. */
  ghost predicate EachKindOnce(acts: seq<Action>) {
    forall i, j :: 0 <= i < j < |acts| && acts[i].Serve? && acts[j].Serve? ==> acts[i].kind != acts[j].kind
  }

  ghost predicate ServedFrom(acts: seq<Action>, kinds: set<EventKind>) {
    forall i :: 0 <= i < |acts| && acts[i].Serve? ==> acts[i].kind in kinds
  }

  /** While a command due by time `t` waits, and no other comes at that same instant, what is
      served was due by then from the start, each kind at most once. */
  lemma {:induction false} EachServedOnce(states: seq<Api>, acts: seq<Action>, kind: EventKind, t: nat)
    requires IsRun(states, acts) && kind.IsCommand()
    requires kind in states[0].schedule && states[0].schedule[kind] <= t
    requires forall i :: 0 <= i < |acts| ==> Bypasses(acts[i], kind, t)
    ensures EachKindOnce(acts) && ServedFrom(acts, Ahead(states[0].schedule, kind, t))
    decreases |acts|
  {
    if acts != [] {
      var (a, x, a') := (states[0], acts[0], states[1]);
      var (rest, later) := (states[1..], acts[1..]);
      RunTail(states, acts);
      assert Bypasses(x, kind, t);
      if x.Serve? {
        ServeUsesOneUp(a, x, a', kind, t);
      } else {
        ArrivalAdds(a, x, a', kind, t);
      }
      EachServedOnce(rest, later, kind, t);
      FirstServedOnce(x, later, Ahead(a.schedule, kind, t), Ahead(a'.schedule, kind, t));
      assert acts == [x] + later;
    }
  }

  /** Something done, after the command came, other than serving it. */
  ghost predicate Bypasses(x: Action, kind: EventKind, t: nat) {
    if x.Serve? then t <= x.now && x.kind != kind else t < x.now
  }

  lemma FirstServedOnce(x: Action, later: seq<Action>, before: set<EventKind>, after: set<EventKind>)
    requires EachKindOnce(later) && ServedFrom(later, after)
    requires if x.Serve? then x.kind in before && after <= before - {x.kind} else after <= before
    ensures EachKindOnce([x] + later) && ServedFrom([x] + later, before)
  {
    var acts := [x] + later;
    forall j | 0 < j < |acts| ensures acts[j] == later[j - 1] {
    }
  }

  lemma LaterBypass(states: seq<Api>, acts: seq<Action>, c: ApiCommand, t: nat)
    requires IsRun(states, acts) && acts != [] && acts[0] == Arrive(c, t)
    requires forall i :: 0 < i < |acts| && acts[i].Arrive? ==> acts[i].now > t
    requires forall i :: 0 < i < |acts| && acts[i].Serve? ==> acts[i].kind != KindOf(c)
    ensures forall i :: 0 < i < |acts| ==> Bypasses(acts[i], KindOf(c), t)
  {
  }

  lemma BypassAtMostFive(states: seq<Api>, acts: seq<Action>, kind: EventKind, t: nat)
    requires IsRun(states, acts) && kind.IsCommand()
    requires kind in states[0].schedule && states[0].schedule[kind] <= t
    requires forall i :: 0 <= i < |acts| ==> Bypasses(acts[i], kind, t)
    ensures Serves(acts) <= 5
  {
    forall x | x in acts ensures Bypasses(x, kind, t) {
      var i :| 0 <= i < |acts| && acts[i] == x;
      assert Bypasses(acts[i], kind, t);
    }
    BypassBound(states, acts, kind, t);
    AheadAtMostFive(states[0].schedule, kind, t);
    NoArrivals(acts, t);
  }

  /** While a command taken at time `t` waits, and until another comes at that same instant,
      at most five other events are served, each kind at most once. */
  lemma CommandWaits(states: seq<Api>, acts: seq<Action>, c: ApiCommand, t: nat)
    requires IsRun(states, acts) && acts != [] && acts[0] == Arrive(c, t)
    requires forall i :: 0 < i < |acts| && acts[i].Arrive? ==> acts[i].now > t
    requires forall i :: 0 < i < |acts| && acts[i].Serve? ==> acts[i].kind != KindOf(c)
    ensures EachKindOnce(acts) && Serves(acts) <= 5
  {
    var (rest, later) := (states[1..], acts[1..]);
    RunTail(states, acts);
    LaterBypass(states, acts, c, t);
    assert forall i :: 0 <= i < |later| ==> later[i] == acts[i + 1];
    EachServedOnce(rest, later, KindOf(c), t);
    BypassAtMostFive(rest, later, KindOf(c), t);
    forall i, j | 0 <= i < j < |acts| && acts[i].Serve? && acts[j].Serve? ensures acts[i].kind != acts[j].kind {
      assert later[i - 1].kind != later[j - 1].kind;
    }
  }

  /** A command taken at time `t` is served after at most five other events, whatever else
      is going on, as long as no further command arrives at that same instant. */
  lemma CommandBypassedAtMostFiveTimes(states: seq<Api>, acts: seq<Action>, c: ApiCommand, t: nat)
    requires IsRun(states, acts) && acts != [] && acts[0] == Arrive(c, t)
    requires forall i :: 0 < i < |acts| && acts[i].Arrive? ==> acts[i].now > t
    requires Serves(acts) > 5
    ensures exists i :: 0 < i < |acts| && acts[i].Serve? && acts[i].kind == KindOf(c)
  {
    if forall i :: 0 < i < |acts| && acts[i].Serve? ==> acts[i].kind != KindOf(c) {
      CommandWaits(states, acts, c, t);
      assert false;
    }
  }

  lemma {:induction false} NoArrivals(acts: seq<Action>, t: nat)
    requires forall x <- acts :: x.Arrive? ==> x.now > t
    ensures ArrivalsAt(acts, t) == 0
  {
    if acts != [] {
      assert acts[0] in acts;
      NoArrivals(acts[1..], t);
    }
  }

  // ---- Commands before polls ----

  /** Whatever is served while a command is pending is a command itself, or a poll due
      strictly before it. */
  lemma CommandsFirst(a: Api, x: Action, a': Api, c: ApiCommand)
    requires Next(a, x, a') && x.Serve? && KindOf(c) in a.schedule
    ensures x.kind in {ApiStart, ApiStop, ApiNextStage} || a.schedule[x.kind] < a.schedule[KindOf(c)]
  {
  }

  lemma {:induction false} StillWaits(states: seq<Api>, acts: seq<Action>, kind: EventKind, t: nat, k: nat)
    requires IsRun(states, acts) && k <= |acts|
    requires kind in states[0].schedule && states[0].schedule[kind] <= t
    requires forall i :: 0 <= i < k && acts[i].Serve? ==> acts[i].kind != kind
    requires kind.IsCommand()
    ensures kind in states[k].schedule && states[k].schedule[kind] <= t
  {
    if k > 0 {
      StillWaits(states, acts, kind, t, k - 1);
      assert StepAt(states, acts, k - 1);
    }
  }

  /** While a command taken at time `t` waits, no poll due at `t` or later is served. */
  lemma NoPollOvertakes(states: seq<Api>, acts: seq<Action>, c: ApiCommand, t: nat, k: nat)
    requires IsRun(states, acts) && 0 < k < |acts| && acts[0] == Arrive(c, t)
    requires forall i :: 0 < i < k && acts[i].Serve? ==> acts[i].kind != KindOf(c)
    requires acts[k].Serve? && acts[k].kind in {PollStatus, PollCurrentCook, PollRecipes}
    ensures acts[k].kind in states[k].schedule && states[k].schedule[acts[k].kind] < t
  {
    assert StepAt(states, acts, 0);
    RunFrom(states, acts, 1);
    forall i | 0 <= i < k - 1 && acts[1..][i].Serve? ensures acts[1..][i].kind != KindOf(c) {
      assert acts[1..][i] == acts[i + 1];
    }
    StillWaits(states[1..], acts[1..], KindOf(c), t, k - 1);
    assert StepAt(states, acts, k);
    CommandsFirst(states[k], acts[k], states[k + 1], c);
  }

  lemma RunFrom(states: seq<Api>, acts: seq<Action>, k: nat)
    requires IsRun(states, acts) && k <= |acts|
    ensures IsRun(states[k..], acts[k..])
  {
    forall i | 0 <= i < |acts[k..]| ensures StepAt(states[k..], acts[k..], i) {
      assert StepAt(states, acts, k + i);
    }
  }

  // ---- What is asked of the server ----

  /** The recipe of the last start commanded before action `k` and not yet served. */
  function StartWanted(acts: seq<Action>, k: nat): Option<string>
    requires k <= |acts|
  {
    if k == 0 then None
    else
      match acts[k - 1]
      case Arrive(Start(recipeId), _) => Some(recipeId)
      case Serve(ApiStart, _, _, _) => None
      case _ => StartWanted(acts, k - 1)
  }

  lemma StagedNext(a: Api, x: Action, a': Api)
    requires Next(a, x, a')
    ensures a'.staged ==
      match x
      case Arrive(Start(recipeId), _) => Some(recipeId)
      case Serve(ApiStart, _, _, _) => None
      case _ => a.staged
  {
  }

  lemma {:induction false} StagedIsWanted(states: seq<Api>, acts: seq<Action>, now: nat, k: nat)
    requires IsRun(states, acts) && states[0] == Initial(now) && k <= |acts|
    ensures states[k].staged == StartWanted(acts, k)
  {
    if k > 0 {
      StagedIsWanted(states, acts, now, k - 1);
      assert StepAt(states, acts, k - 1);
      StagedNext(states[k - 1], acts[k - 1], states[k]);
    }
  }

  /** Serving a start posts the last recipe asked for, and there always is one. */
  lemma LatestStartIsPosted(states: seq<Api>, acts: seq<Action>, now: nat, k: nat)
    requires IsRun(states, acts) && states[0] == Initial(now) && k < |acts|
    requires acts[k].Serve? && acts[k].kind == ApiStart
    ensures StartWanted(acts, k).Some?
    ensures RequestOf(Popped(states[k], ApiStart), ApiStart) == Some(PostStart(StartWanted(acts, k).value))
  {
    RunSettled(states, acts, now, k);
    StagedIsWanted(states, acts, now, k);
    assert StepAt(states, acts, k);
  }

  /** A stop or a next stage that is served is posted as such, and the recipes are always asked for. */
  lemma ServedIsPosted(a: Api)
    ensures RequestOf(Popped(a, KindOf(Stop)), KindOf(Stop)) == Some(PostStop)
    ensures RequestOf(Popped(a, KindOf(NextStage)), KindOf(NextStage)) == Some(PostNextStage)
    ensures RequestOf(Popped(a, PollRecipes), PollRecipes) == Some(GetRecipes)
  {
  }

  /** The oven and its cook are not polled while a command is on its way. */
  lemma NoPollDuringAction(a: Api, kind: EventKind)
    requires kind in {PollStatus, PollCurrentCook}
    ensures RequestOf(Popped(a, kind), kind).Some? <==>
      a.staged.None? && forall c: ApiCommand :: KindOf(c) !in a.schedule
  {
    assert KindOf(Start("")) == ApiStart && KindOf(Stop) == ApiStop && KindOf(NextStage) == ApiNextStage;
  }

  // ---- When a poll comes round again ----

  /** Status polls that failed in a row before action `k`, the count ending at 64 bits. */
  function FailuresInARow(states: seq<Api>, acts: seq<Action>, k: nat): nat
    requires k <= |acts| < |states|
  {
    if k == 0 then 0
    else
      var (before, x) := (FailuresInARow(states, acts, k - 1), acts[k - 1]);
      if !x.Serve? || RequestOf(Popped(states[k - 1], x.kind), x.kind) != Some(GetStatus) then before
      else if x.outcome == Failed || x.outcome == TimedOut then Min(before + 1, U64_MAX)
      else 0
  }

  lemma {:induction false} FailCountIsFailures(states: seq<Api>, acts: seq<Action>, now: nat, k: nat)
    requires IsRun(states, acts) && states[0] == Initial(now) && k <= |acts|
    ensures states[k].failCount == FailuresInARow(states, acts, k) <= U64_MAX
  {
    if k > 0 {
      FailCountIsFailures(states, acts, now, k - 1);
      assert StepAt(states, acts, k - 1);
    }
  }

  /** The seconds to wait after a status poll, by the failures in a row. */
  function BackOff(failures: nat): nat {
    if failures < 5 then 1 else if failures < 10 then 5 else if failures < 15 then 15 else 30
  }

  /** After it is served a poll is due again: the status after the back-off, the cook after
      ten seconds or the back-off if that is longer, the recipes after an hour; the first two
      after one second if they were put off. */
  lemma PollComesRound(states: seq<Api>, acts: seq<Action>, now: nat, k: nat)
    requires IsRun(states, acts) && states[0] == Initial(now) && k < |acts|
    requires acts[k].Serve? && acts[k].kind in {PollStatus, PollCurrentCook, PollRecipes}
    ensures acts[k].kind in states[k + 1].schedule
    ensures var wait := BackOff(FailuresInARow(states, acts, k + 1));
      states[k + 1].schedule[acts[k].kind] == acts[k].end + 1000 *
        if RequestOf(Popped(states[k], acts[k].kind), acts[k].kind).None? then 1
        else if acts[k].kind == PollStatus then wait
        else if acts[k].kind == PollCurrentCook then Max(10, wait)
        else 3600
  {
    FailCountIsFailures(states, acts, now, k);
    FailCountIsFailures(states, acts, now, k + 1);
    assert StepAt(states, acts, k);
  }

  /** The oven is looked at again soon after every action: after a stop or a next stage is
      asked for, within a second; after a start is posted, its status within a second and
      its cook within three. */
  lemma ActionIsFollowed(a: Api, x: Action, a': Api)
    requires Settled(a) && Next(a, x, a')
    requires (x.Arrive? && !x.command.Start?) || (x.Serve? && x.kind == ApiStart)
    ensures a'.schedule[PollStatus] <= Ended(x) + 1000
    ensures a'.schedule[PollCurrentCook] <= Ended(x) + if x.Arrive? then 1000 else 3000
  {
  }

  /** An action asked for is due at once, and one already waiting is not put back. */
  lemma CommandDueAtOnce(a: Api, c: ApiCommand, now: nat)
    ensures var m := Commanded(a, c, now).schedule;
      && KindOf(c) in m && m[KindOf(c)] <= now
      && forall k <- a.schedule :: k in m && m[k] <= a.schedule[k]
  {
  }
}
