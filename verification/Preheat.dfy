/** The watch over a preheat that stalls just short of its setpoint: when the server takes
    it as reached. Times are milliseconds, temperatures reals. */
module Preheat {
  import opened Prelude

  const PREHEAT_SETTLE_WINDOW: nat := 10000

  datatype Stage = Stage(
    id: Option<string>, isPreheat: bool, temperatureC: real, userActionRequired: bool,
    turnOffAtEnd: bool, probeAdded: bool, probeTargetC: Option<real>)

  datatype OvenCook = OvenCook(cookId: string, stages: seq<Stage>)

  datatype OvenStatus = OvenStatus(
    cooking: bool, temperatureC: real, timerTotalSecs: nat, lampOn: bool, activeStageIndex: Option<nat>, cookDone: bool,
    waiting: bool, probeTemperatureC: Option<real>, probeTargetTemperatureC: Option<real>)

  /** A report of the oven's, and when it came. */
  datatype Report = Report(status: OvenStatus, cook: Option<OvenCook>, now: nat)

  datatype Watch = Watch(stageId: string, nearSince: Option<nat>, reached: bool)

  /** The preheat a report is in: its stage's id and setpoint, and the stage after it. */
  datatype Heating = Heating(stageId: string, target: real, next: Stage)

  function HeatingIn(local: bool, r: Report): Option<Heating> {
    if !local || !r.status.cooking || r.cook.None? || r.status.activeStageIndex.None? then None
    else
      var (stages, i) := (r.cook.value.stages, r.status.activeStageIndex.value);
      if i + 1 < |stages| && stages[i].isPreheat && stages[i].id.Some?
      then Some(Heating(stages[i].id.value, stages[i].temperatureC, stages[i + 1])) else None
  }

  function WatchFor(w: Option<Watch>, stageId: string): Watch {
    if w.Some? && w.value.stageId == stageId then w.value else Watch(stageId, None, false)
  }

  /** Warm enough to be taken as reached, if it stays so. */
  predicate Near(h: Heating, r: Report, tolerance: real) {
    r.status.temperatureC >= h.target - tolerance
  }

  /** The watch after a report, whether the report is marked as waiting for the user, and
      the stage to start, if one is. */
  datatype Settled = Settled(watch: Option<Watch>, waiting: bool, start: Option<string>)

  /** What a report of this preheat does to its watch. */
  function SettleOn(watch: Watch, h: Heating, tolerance: real, r: Report): Settled {
    var next := h.next;
    if r.status.waiting then Settled(Some(watch.(reached := true)), true, None)
    else if watch.reached then Settled(Some(watch), next.userActionRequired, None)
    else if !Near(h, r, tolerance) then Settled(Some(watch.(nearSince := None)), false, None)
    else
      var since := if watch.nearSince.Some? then watch.nearSince.value else r.now;
      if r.now < since + PREHEAT_SETTLE_WINDOW then Settled(Some(watch.(nearSince := Some(since))), false, None)
      else Settled(Some(Watch(watch.stageId, Some(since), true)), next.userActionRequired,
                   if next.userActionRequired then None else next.id)
  }

  function Settle(w: Option<Watch>, local: bool, tolerance: real, r: Report): Settled {
    var h := HeatingIn(local, r);
    if h.None? then Settled(None, r.status.waiting, None)
    else SettleOn(WatchFor(w, h.value.stageId), h.value, tolerance, r)
  }

  // ---- Runs of reports ----

  /** The watch after the first `k` reports. */
  function WatchAt(local: bool, tolerance: real, rs: seq<Report>, k: nat): Option<Watch>
    requires k <= |rs|
  {
    if k == 0 then None else Settle(WatchAt(local, tolerance, rs, k - 1), local, tolerance, rs[k - 1]).watch
  }

  function SettledAt(local: bool, tolerance: real, rs: seq<Report>, k: nat): Settled
    requires k < |rs|
  {
    Settle(WatchAt(local, tolerance, rs, k), local, tolerance, rs[k])
  }

  /** Report `k` is in the preheat of this stage. */
  predicate Heats(local: bool, rs: seq<Report>, k: nat, stageId: string)
    requires k < |rs|
  {
    var h := HeatingIn(local, rs[k]);
    h.Some? && h.value.stageId == stageId
  }

  predicate NearAt(local: bool, tolerance: real, rs: seq<Report>, k: nat, stageId: string)
    requires k < |rs|
  {
    Heats(local, rs, k, stageId) && Near(HeatingIn(local, rs[k]).value, rs[k], tolerance)
  }

  /** The first of the consecutive reports, ending with `k`, of the stage being near its setpoint. */
  function NearFrom(local: bool, tolerance: real, rs: seq<Report>, k: nat, stageId: string): (j: nat)
    requires k < |rs| && NearAt(local, tolerance, rs, k, stageId)
    ensures j <= k && forall i :: j <= i <= k ==> NearAt(local, tolerance, rs, i, stageId)
    ensures j > 0 ==> !NearAt(local, tolerance, rs, j - 1, stageId)
  {
    if k > 0 && NearAt(local, tolerance, rs, k - 1, stageId) then NearFrom(local, tolerance, rs, k - 1, stageId) else k
  }

  /** The watch is on the stage of the latest report, and, until it is reached, remembers
      when the run of near reports that is still going began. */
  ghost predicate WatchRight(local: bool, tolerance: real, rs: seq<Report>, k: nat)
    requires k <= |rs|
  {
    var w := WatchAt(local, tolerance, rs, k);
    w.Some? ==>
      && k > 0 && Heats(local, rs, k - 1, w.value.stageId)
      && (!w.value.reached ==> w.value.nearSince == NearSince(local, tolerance, rs, k - 1, w.value.stageId))
  }

  /** When the run of near reports that is still going at report `k` began, if there is one. */
  function NearSince(local: bool, tolerance: real, rs: seq<Report>, k: nat, stageId: string): Option<nat>
    requires k < |rs|
  {
    if NearAt(local, tolerance, rs, k, stageId) then Some(rs[NearFrom(local, tolerance, rs, k, stageId)].now) else None
  }

  lemma {:induction false} WatchIsRight(local: bool, tolerance: real, rs: seq<Report>, k: nat)
    requires k <= |rs|
    ensures WatchRight(local, tolerance, rs, k)
    ensures k > 0 ==> (WatchAt(local, tolerance, rs, k).Some? <==> HeatingIn(local, rs[k - 1]).Some?)
  {
    if k > 0 {
      WatchIsRight(local, tolerance, rs, k - 1);
    }
  }

  /** The server itself takes the preheat as reached at report `k`. */
  predicate Settles(local: bool, tolerance: real, rs: seq<Report>, k: nat)
    requires k < |rs|
  {
    var h := HeatingIn(local, rs[k]);
    h.Some? && !rs[k].status.waiting && !WatchFor(WatchAt(local, tolerance, rs, k), h.value.stageId).reached
    && WatchAt(local, tolerance, rs, k + 1).value.reached
  }

  /** It does so exactly when the consecutive reports of that stage at or above setpoint
      minus tolerance, this one included, span the settle window. */
  lemma SettlesWhenNearLongEnough(local: bool, tolerance: real, rs: seq<Report>, k: nat, stageId: string)
    requires k < |rs| && Heats(local, rs, k, stageId) && !rs[k].status.waiting
    requires !WatchFor(WatchAt(local, tolerance, rs, k), stageId).reached
    ensures Settles(local, tolerance, rs, k) <==>
      NearAt(local, tolerance, rs, k, stageId)
      && rs[k].now >= rs[NearFrom(local, tolerance, rs, k, stageId)].now + PREHEAT_SETTLE_WINDOW
  {
    WatchIsRight(local, tolerance, rs, k);
  }

  /** A stage is started, or a report marked as waiting that the oven did not mark and that
      is the first of its watch, only by a settling; that stage is the next one and does
      not wait, or the next one waits. */
  lemma ActionsComeFromSettling(local: bool, tolerance: real, rs: seq<Report>, k: nat)
    requires k < |rs|
    ensures var out := SettledAt(local, tolerance, rs, k);
      && (out.start.Some? ==>
            Settles(local, tolerance, rs, k) && !HeatingIn(local, rs[k]).value.next.userActionRequired
            && out.start == HeatingIn(local, rs[k]).value.next.id)
      && (out.waiting && !rs[k].status.waiting ==>
            && HeatingIn(local, rs[k]).Some? && HeatingIn(local, rs[k]).value.next.userActionRequired
            && (Settles(local, tolerance, rs, k)
                || WatchFor(WatchAt(local, tolerance, rs, k), HeatingIn(local, rs[k]).value.stageId).reached))
  {
  }

  /** Once reached, a watch stays reached for as long as reports stay on its stage. */
  lemma {:induction false} StaysReached(local: bool, tolerance: real, rs: seq<Report>, k: nat, m: nat, stageId: string)
    requires k < m <= |rs| && WatchAt(local, tolerance, rs, k + 1).Some?
    requires WatchAt(local, tolerance, rs, k + 1).value.reached
      && WatchAt(local, tolerance, rs, k + 1).value.stageId == stageId
    requires forall i :: k < i < m ==> Heats(local, rs, i, stageId)
    ensures var w := WatchAt(local, tolerance, rs, m);
      w.Some? && w.value.reached && w.value.stageId == stageId
    decreases m
  {
    if m > k + 1 {
      StaysReached(local, tolerance, rs, k, m - 1, stageId);
      assert Heats(local, rs, m - 1, stageId);
    }
  }

  /** The next stage is started at most once per uninterrupted watch: between two starts
      some report was not of that preheat. */
  lemma StartsOncePerWatch(local: bool, tolerance: real, rs: seq<Report>, k: nat, m: nat, stageId: string)
    requires k < m < |rs| && Heats(local, rs, k, stageId)
    requires SettledAt(local, tolerance, rs, k).start.Some? && SettledAt(local, tolerance, rs, m).start.Some?
    ensures exists i :: k < i <= m && !Heats(local, rs, i, stageId)
  {
    if forall i :: k < i <= m ==> Heats(local, rs, i, stageId) {
      assert Heats(local, rs, m, stageId);
      ActionsComeFromSettling(local, tolerance, rs, k);
      StaysReached(local, tolerance, rs, k, m, stageId);
      assert false;
    }
  }

  /** Once a watch is reached, by the server or by the oven's own word, every later report
      of it whose next stage waits for the user is marked as waiting. */
  lemma ReachedStaysMarked(local: bool, tolerance: real, rs: seq<Report>, k: nat, m: nat, stageId: string)
    requires k < m < |rs| && Heats(local, rs, k, stageId) && Heats(local, rs, m, stageId)
    requires Settles(local, tolerance, rs, k) || rs[k].status.waiting
    requires forall i :: k < i < m ==> Heats(local, rs, i, stageId)
    requires HeatingIn(local, rs[m]).value.next.userActionRequired
    ensures SettledAt(local, tolerance, rs, m).waiting
  {
    assert WatchAt(local, tolerance, rs, k + 1) == SettledAt(local, tolerance, rs, k).watch;
    StaysReached(local, tolerance, rs, k, m, stageId);
  }
}
