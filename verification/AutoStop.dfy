/** Stopping a cook that is done: the server stops each such cook once, and does not stop
    it again before it has stopped another. */
module AutoStop {
  import opened Preheat
  import opened Prelude
  import opened Session
  import opened SmModel
  import opened SmProofs

  /** The cook this input made the server mark as the one it stops of its own accord. */
  function Marked(s: Sm, i: Input): Option<string> {
    var t := Reduce(s, i).0;
    if t.turnedOff == s.turnedOff then None else t.turnedOff
  }

  /** This input is a report of `cook`, and made the server send a stop. */
  ghost predicate Stops(s: Sm, i: Input, cook: string) {
    && i.On? && i.event.ApoState? && i.event.report.cook.Some? && i.event.report.cook.value.cookId == cook
    && exists e <- Reduce(s, i).1 :: IsStop(e)
  }

  /** A stop is sent on a report only for the cook the report shows, and only by marking it. */
  lemma StopOnReportMarks(s: Sm, r: Report)
    requires exists e <- Reported(s, r).1 :: IsStop(e)
    ensures r.cook.Some? && Marked(s, On(ApoState(r))) == Some(r.cook.value.cookId)
  {
    ReportParts(s, r);
  }

  /** A report that marks a cook also stops it, unless the report is an idle one or no oven
      is connected to stop. */
  lemma MarkedUnlessRefused(s: Sm, r: Report)
    requires Marked(s, On(ApoState(r))).Some?
    ensures r.cook.Some? && Marked(s, On(ApoState(r))) == Some(r.cook.value.cookId)
    ensures Stops(s, On(ApoState(r)), r.cook.value.cookId) <==> CookerId(s).Some? && r.status.cooking
  {
    var seen := s.(ovenCook := r.cook);
    var (watched, status, _) := SettlePreheat(seen, r);
    var edged := Edge(watched, status).0.(status := Some(status));
    ReportParts(s, r);
    WatchKeeps(seen, r);
    EdgeKeeps(watched, status);
    TurnOffKeeps(edged);
    assert CookerId(edged) == CookerId(s);
    var p := PartsOf(s, r);
    StopSent(edged);
    assert Reported(s, r).1 == p.told + p.first + p.off + [PublishReadModel] + p.settled;
    if CookerId(s).Some? && r.status.cooking {
      var e :| e in p.off && IsStop(e);
      assert e in Reported(s, r).1;
    }
  }

  lemma StopSent(s: Sm)
    requires ToTurnOff(s).Some?
    ensures var off := TurnOffWhenDone(s).1;
      if CookerId(s).Some? && s.status.value.cooking then exists e <- off :: IsStop(e) else off == []
  {
    var off := TurnOffWhenDone(s).1;
    if CookerId(s).Some? && s.status.value.cooking {
      assert IsStop(off[|off| - 1]);
    }
  }

  lemma OnlyReportsMark(s: Sm, i: Input)
    ensures !(i.On? && i.event.ApoState?) ==> Reduce(s, i).0.turnedOff == s.turnedOff
    ensures Reduce(s, i).0.turnedOff != s.turnedOff ==> Reduce(s, i).0.turnedOff.Some?
  {
    if i.On? && i.event.ApoState? {
      ReportParts(s, i.event.report);
    }
  }

  lemma RunExtends(s: Sm, inputs: seq<Input>, k: nat)
    requires k < |inputs|
    ensures Run(s, inputs[..k + 1]) == Reduce(Run(s, inputs[..k]), inputs[k]).0
  {
    assert inputs[..k + 1][..k] == inputs[..k];
  }

  /** The cook input `k` of the run marked, if it marked one. */
  function MarkedAt(s: Sm, inputs: seq<Input>, k: nat): Option<string>
    requires k < |inputs|
  {
    Marked(Run(s, inputs[..k]), inputs[k])
  }

  lemma MarkStep(s: Sm, inputs: seq<Input>, k: nat)
    requires k < |inputs|
    ensures Run(s, inputs[..k + 1]).turnedOff ==
      if MarkedAt(s, inputs, k).Some? then MarkedAt(s, inputs, k) else Run(s, inputs[..k]).turnedOff
    ensures MarkedAt(s, inputs, k).Some? ==> MarkedAt(s, inputs, k) != Run(s, inputs[..k]).turnedOff
  {
    RunExtends(s, inputs, k);
    OnlyReportsMark(Run(s, inputs[..k]), inputs[k]);
  }

  lemma {:induction false} MarkStays(s: Sm, inputs: seq<Input>, from: nat, end: nat)
    requires from <= end <= |inputs|
    requires forall k :: from <= k < end ==> MarkedAt(s, inputs, k).None?
    ensures Run(s, inputs[..end]).turnedOff == Run(s, inputs[..from]).turnedOff
    decreases end
  {
    if from < end {
      MarkStays(s, inputs, from, end - 1);
      MarkStep(s, inputs, end - 1);
    }
  }

  /** Input `k` of the run marked a cook other than this one. */
  predicate MarkedOther(s: Sm, inputs: seq<Input>, k: nat, cook: string)
    requires k < |inputs|
  {
    MarkedAt(s, inputs, k).Some? && MarkedAt(s, inputs, k) != Some(cook)
  }

  /** The server never marks the same cook twice without marking another in between. */
  lemma {:induction false} MarksOnce(s: Sm, inputs: seq<Input>, i: nat, j: nat, cook: string)
    requires i < j < |inputs|
    requires MarkedAt(s, inputs, i) == MarkedAt(s, inputs, j) == Some(cook)
    ensures exists k :: i < k < j && MarkedOther(s, inputs, k, cook)
    decreases j
  {
    if k :| i < k < j && MarkedAt(s, inputs, k).Some? {
      if MarkedAt(s, inputs, k) == Some(cook) {
        MarksOnce(s, inputs, i, k, cook);
      } else {
        assert MarkedOther(s, inputs, k, cook);
      }
    } else {
      MarkStep(s, inputs, i);
      MarkStays(s, inputs, i + 1, j);
      MarkStep(s, inputs, j);
      assert false;
    }
  }

  /** Input `k` of the run is a report of a cook other than this one, and stops that cook. */
  ghost predicate StopsOther(s: Sm, inputs: seq<Input>, k: nat, cook: string)
    requires k < |inputs|
  {
    exists other :: other != cook && Stops(Run(s, inputs[..k]), inputs[k], other)
  }

  /** An oven is known, to send a stop to, when input `k` of the run comes. */
  ghost predicate Reaches(s: Sm, inputs: seq<Input>, k: nat)
    requires k < |inputs|
  {
    CookerId(Run(s, inputs[..k])).Some?
  }

  // ---- Idle reports mark nothing once a cook has been stopped ----

  /** A report has come, and if the last one was idle, no cook is under way. */
  predicate Awake(s: Sm) {
    s.status.Some? && (!s.status.value.cooking ==> s.stop.None? && s.lifecycle != Cooking && s.lifecycle != StopPending)
  }

  lemma EdgeAwake(s: Sm, status: OvenStatus)
    requires Awake(s) || status.cooking
    ensures var t := Edge(s, status).0;
      !status.cooking ==> t.stop.None? && t.lifecycle != Cooking && t.lifecycle != StopPending
  {
  }

  lemma ReportAwake(s: Sm, r: Report)
    requires Awake(s) || r.status.cooking
    ensures Awake(Reported(s, r).0)
    ensures Marked(s, On(ApoState(r))).Some? ==> r.status.cooking
  {
    var seen := s.(ovenCook := r.cook);
    var (watched, status, _) := SettlePreheat(seen, r);
    WatchKeeps(seen, r);
    EdgeAwake(watched, status);
    EdgeKeeps(watched, status);
    TurnOffKeeps(Edge(watched, status).0.(status := Some(status)));
  }

  lemma StaysAwake(s: Sm, i: Input)
    requires Awake(s)
    ensures Awake(Reduce(s, i).0)
  {
    if i.On? && i.event.ApoState? {
      ReportAwake(s, i.event.report);
    }
  }

  lemma StopAwakes(s: Sm, i: Input, cook: string)
    requires Stops(s, i, cook)
    ensures Marked(s, i) == Some(cook) && Awake(Reduce(s, i).0)
  {
    StopOnReportMarks(s, i.event.report);
    MarkedUnlessRefused(s, i.event.report);
    ReportAwake(s, i.event.report);
  }

  lemma AwakeExtends(s: Sm, inputs: seq<Input>, k: nat)
    requires k < |inputs| && Awake(Run(s, inputs[..k]))
    ensures Awake(Run(s, inputs[..k + 1]))
  {
    RunExtends(s, inputs, k);
    StaysAwake(Run(s, inputs[..k]), inputs[k]);
  }

  lemma StopExtends(s: Sm, inputs: seq<Input>, i: nat, cook: string)
    requires i < |inputs| && Stops(Run(s, inputs[..i]), inputs[i], cook)
    ensures Awake(Run(s, inputs[..i + 1]))
  {
    RunExtends(s, inputs, i);
    StopAwakes(Run(s, inputs[..i]), inputs[i], cook);
  }

  lemma {:induction false} AwakeFrom(s: Sm, inputs: seq<Input>, from: nat, k: nat)
    requires from <= k <= |inputs| && Awake(Run(s, inputs[..from]))
    ensures Awake(Run(s, inputs[..k]))
    decreases k
  {
    if from < k {
      AwakeFrom(s, inputs, from, k - 1);
      AwakeExtends(s, inputs, k - 1);
    }
  }

  // ---- When another cook is stopped in between ----

  /** Once awake, the server stops a cook exactly if it marks it and knows an oven to stop. */
  lemma MarkedIsStopped(s: Sm, i: Input, cook: string)
    requires Awake(s)
    ensures Stops(s, i, cook) <==> Marked(s, i) == Some(cook) && CookerId(s).Some?
  {
    OnlyReportsMark(s, i);
    if i.On? && i.event.ApoState? {
      var r := i.event.report;
      ReportAwake(s, r);
      if Stops(s, i, cook) {
        StopAwakes(s, i, cook);
      }
      if Marked(s, i).Some? {
        MarkedUnlessRefused(s, r);
      }
    }
  }

  /** After a cook was stopped, a later input that marks another stops it exactly if there
      is an oven to send the stop to. */
  lemma MarkedOtherStops(s: Sm, inputs: seq<Input>, i: nat, k: nat, cook: string)
    requires i < k < |inputs| && Stops(Run(s, inputs[..i]), inputs[i], cook)
    ensures StopsOther(s, inputs, k, cook) <==> MarkedOther(s, inputs, k, cook) && Reaches(s, inputs, k)
  {
    var before := Run(s, inputs[..k]);
    StopExtends(s, inputs, i, cook);
    AwakeFrom(s, inputs, i + 1, k);
    forall other ensures Stops(before, inputs[k], other) <==>
      Marked(before, inputs[k]) == Some(other) && CookerId(before).Some?
    {
      MarkedIsStopped(before, inputs[k], other);
    }
  }

  /** The inputs `i` and `j` of the run both stop `cook`. */
  ghost predicate StopsTwice(s: Sm, inputs: seq<Input>, i: nat, j: nat, cook: string)
    requires i < j < |inputs|
  {
    Stops(Run(s, inputs[..i]), inputs[i], cook) && Stops(Run(s, inputs[..j]), inputs[j], cook)
  }

  lemma MarksBetweenStops(s: Sm, inputs: seq<Input>, i: nat, j: nat, cook: string)
    requires i < j < |inputs| && StopsTwice(s, inputs, i, j, cook)
    ensures exists k :: i < k < j && MarkedOther(s, inputs, k, cook)
  {
    StopAwakes(Run(s, inputs[..i]), inputs[i], cook);
    StopAwakes(Run(s, inputs[..j]), inputs[j], cook);
    MarksOnce(s, inputs, i, j, cook);
  }

  /** Between two stops of the same cook another cook is stopped exactly if, at one of the
      reports in between that marked another, an oven was known to send the stop to. */
  lemma StoppedOtherBetween(s: Sm, inputs: seq<Input>, i: nat, j: nat, cook: string)
    requires i < j < |inputs| && StopsTwice(s, inputs, i, j, cook)
    ensures (exists k :: i < k < j && StopsOther(s, inputs, k, cook))
      <==> (exists k :: i < k < j && MarkedOther(s, inputs, k, cook) && Reaches(s, inputs, k))
  {
    forall k | i < k < j
      ensures StopsOther(s, inputs, k, cook) <==> MarkedOther(s, inputs, k, cook) && Reaches(s, inputs, k)
    {
      MarkedOtherStops(s, inputs, i, k, cook);
    }
  }

  /** The server does not stop the same cook of its own accord twice without so stopping
      another in between, if every report in between that shows a cook finds an oven known. */
  lemma StopsOnce(s: Sm, inputs: seq<Input>, i: nat, j: nat, cook: string)
    requires i < j < |inputs| && StopsTwice(s, inputs, i, j, cook)
    requires forall k :: i < k < j && SignalOf(inputs[k]).StateTold? && inputs[k].event.report.cook.Some? ==>
      Reaches(s, inputs, k)
    ensures exists k :: i < k < j && StopsOther(s, inputs, k, cook)
  {
    MarksBetweenStops(s, inputs, i, j, cook);
    var k :| i < k < j && MarkedOther(s, inputs, k, cook);
    OnlyReportsMark(Run(s, inputs[..k]), inputs[k]);
    MarkedUnlessRefused(Run(s, inputs[..k]), inputs[k].event.report);
    MarkedOtherStops(s, inputs, i, k, cook);
  }

  // ---- Inputs in the order the oven's sessions give them ----

  function SignalOf(i: Input): Signal {
    if !i.On? then Other
    else
      match i.event
      case CookerDiscovered(_) => Opened
      case LinkDown => Closed
      case ApoState(_) => StateTold
      case _ => Other
  }

  function Signals(inputs: seq<Input>): (signals: seq<Signal>)
    ensures |signals| == |inputs|
  {
    seq(|inputs|, k requires 0 <= k < |inputs| => SignalOf(inputs[k]))
  }

  lemma CookerKept(s: Sm, i: Input)
    ensures SignalOf(i).Opened? ==> CookerId(Reduce(s, i).0).Some?
    ensures !SignalOf(i).Opened? && !SignalOf(i).Closed? ==> CookerId(Reduce(s, i).0) == CookerId(s)
  {
    if i.On? && i.event.ApoState? {
      ReportKeepsCooker(s, i.event.report);
    }
  }

  lemma ReportKeepsCooker(s: Sm, r: Report)
    ensures Reported(s, r).0.connectivity == s.connectivity
  {
    var (watched, status, _) := SettlePreheat(s.(ovenCook := r.cook), r);
    EdgeKeepsCooker(watched, status);
    TurnOffKeepsCooker(Edge(watched, status).0.(status := Some(status)));
  }

  lemma EdgeKeepsCooker(s: Sm, status: OvenStatus)
    ensures Edge(s, status).0.connectivity == s.connectivity
  {
  }

  lemma TurnOffKeepsCooker(s: Sm)
    ensures TurnOffWhenDone(s).0.connectivity == s.connectivity
  {
  }

  /** While a session is open its oven is known. */
  lemma {:induction false} OpenKnowsOven(s: Sm, inputs: seq<Input>, k: nat)
    requires k <= |inputs| && IsOpen(Signals(inputs), k)
    ensures CookerId(Run(s, inputs[..k])).Some?
  {
    RunExtends(s, inputs, k - 1);
    CookerKept(Run(s, inputs[..k - 1]), inputs[k - 1]);
    if Signals(inputs)[k - 1] != Opened {
      OpenKnowsOven(s, inputs, k - 1);
    }
  }

  /** In any run whose reports come in open sessions, as the device side gives them, the
      server never stops the same cook of its own accord twice without so stopping another
      in between. */
  lemma StopsOnceInSessions(s: Sm, inputs: seq<Input>, i: nat, j: nat, cook: string)
    requires InOrder(Signals(inputs))
    requires i < j < |inputs| && StopsTwice(s, inputs, i, j, cook)
    ensures exists k :: i < k < j && StopsOther(s, inputs, k, cook)
  {
    forall k | i < k < j && SignalOf(inputs[k]).StateTold? ensures Reaches(s, inputs, k) {
      assert Signals(inputs)[k] == StateTold;
      OpenKnowsOven(s, inputs, k);
    }
    StopsOnce(s, inputs, i, j, cook);
  }

  // ---- Outside that order ----

  /** A cook that turns the oven off as its only stage ends, and a report that it has. */
  function TurnOffStage(): Stage { Stage(None, false, 0.0, false, true, false, None) }

  function DoneReport(cook: string): Input {
    On(ApoState(Report(OvenStatus(true, 0.0, 0, false, Some(0), true, false, None, None),
      Some(OvenCook(cook, [TurnOffStage()])), 0)))
  }

  /** Such a report of a cook not marked before, with no start or stop pending. */
  lemma DoneMarks(s: Sm, cook: string)
    requires s.local && s.turnedOff != Some(cook) && s.status.None? == (s.lifecycle == Idle)
    requires s.lifecycle == Idle || (s.lifecycle == Cooking && SaysCooking(s))
    requires s.currentCook.Some? && s.currentCook.value.stages == [TurnOffStage()]
    ensures Marked(s, DoneReport(cook)) == Some(cook)
    ensures Stops(s, DoneReport(cook), cook) <==> CookerId(s).Some?
    ensures var t := Reduce(s, DoneReport(cook)).0;
      && t.local && SaysCooking(t) && t.currentCook == s.currentCook && t.connectivity == s.connectivity
      && t.start == (if s.lifecycle == Idle then None else s.start)
      && if CookerId(s).Some? then t.lifecycle == StopPending && t.stop == Some(s.nextId) && t.nextId == s.nextId + 1
         else t.lifecycle == Cooking && t.nextId == s.nextId
  {
    MarkedUnlessRefused(s, DoneReport(cook).event.report);
  }

  /** The state after a few inputs. */
  function After1(s: Sm, a: Input): Sm { Reduce(s, a).0 }

  function After2(s: Sm, a: Input, b: Input): Sm { Reduce(After1(s, a), b).0 }

  function After3(s: Sm, a: Input, b: Input, c: Input): Sm { Reduce(After2(s, a, b), c).0 }

  /** A done cook is stopped, and the oven refuses the stop. */
  lemma StopRefused(s: Sm, cook: string)
    requires s.local && s.turnedOff != Some(cook) && s.start.None? && CookerId(s).Some?
    requires if s.lifecycle == Idle then s.status.None? else s.lifecycle == Cooking && SaysCooking(s)
    requires s.currentCook.Some? && s.currentCook.value.stages == [TurnOffStage()]
    ensures Stops(s, DoneReport(cook), cook)
    ensures var t := After2(s, DoneReport(cook), On(CommandAck(s.nextId, "timeout")));
      && t.local && t.turnedOff == Some(cook) && t.start.None? && t.connectivity == s.connectivity
      && t.lifecycle == Cooking && SaysCooking(t) && t.currentCook == s.currentCook && t.nextId == s.nextId + 1
  {
    DoneMarks(s, cook);
  }

  lemma StopsTwoMore(t: Sm)
    requires t.local && t.turnedOff == Some("a") && t.start.None? && CookerId(t).Some? && t.nextId == 1
    requires t.lifecycle == Cooking && SaysCooking(t)
    requires t.currentCook.Some? && t.currentCook.value.stages == [TurnOffStage()]
    ensures Stops(t, DoneReport("b"), "b")
    ensures Stops(After2(t, DoneReport("b"), On(CommandAck(1, "timeout"))), DoneReport("a"), "a")
  {
    StopRefused(t, "b");
    StopRefused(After2(t, DoneReport("b"), On(CommandAck(1, "timeout"))), "a");
  }

  /** The same cook can be stopped twice in one session, another between: the theorems above
      are about runs that do occur. */
  lemma StopsAgainAfterOther(fetched: CurrentCook)
    requires fetched.stages == [TurnOffStage()]
    ensures var s := After2(Initial(true, 0.0), On(CookerDiscovered("oven")),
      On(CurrentCookFetched(Some(Some(fetched)))));
      var t := After2(s, DoneReport("a"), On(CommandAck(0, "timeout")));
      var u := After2(t, DoneReport("b"), On(CommandAck(1, "timeout")));
      Stops(s, DoneReport("a"), "a") && Stops(t, DoneReport("b"), "b") && Stops(u, DoneReport("a"), "a")
  {
    var s := After2(Initial(true, 0.0), On(CookerDiscovered("oven")), On(CurrentCookFetched(Some(Some(fetched)))));
    StopRefused(s, "a");
    StopsTwoMore(After2(s, DoneReport("a"), On(CommandAck(0, "timeout"))));
  }

  /** Cook "a" is stopped, and the oven refuses the stop and goes away. */
  lemma StoppedThenRefused(s: Sm)
    requires s.local && s.turnedOff.None? && s.lifecycle == Idle && s.status.None? && s.start.None?
    requires CookerId(s).Some? && s.nextId == 0
    requires s.currentCook.Some? && s.currentCook.value.stages == [TurnOffStage()]
    ensures Stops(s, DoneReport("a"), "a")
    ensures var t := After3(s, DoneReport("a"), On(CommandAck(0, "timeout")), On(LinkDown));
      && t.local && t.turnedOff == Some("a") && t.lifecycle == Cooking && SaysCooking(t) && CookerId(t).None?
      && t.currentCook == s.currentCook
  {
    StopRefused(s, "a");
  }

  /** Cook "b" is reported done with no oven to stop; the oven comes back still on "a". */
  lemma RefusedThenForgotten(t: Sm)
    requires t.local && t.turnedOff == Some("a") && t.lifecycle == Cooking && SaysCooking(t) && CookerId(t).None?
    requires t.currentCook.Some? && t.currentCook.value.stages == [TurnOffStage()]
    ensures !Stops(t, DoneReport("b"), "b")
    ensures Stops(After2(t, DoneReport("b"), On(CookerDiscovered("oven"))), DoneReport("a"), "a")
  {
    DoneMarks(t, "b");
    DoneMarks(After2(t, DoneReport("b"), On(CookerDiscovered("oven"))), "a");
  }

  /** With a report of cook "b" after the link went down, which no session tells, the inputs
      below stop cook "a" twice from the start, and no stop of any cook is sent between the two. */
  lemma RefusedStopForgets(fetched: CurrentCook)
    requires fetched.stages == [TurnOffStage()]
    ensures var s := After2(Initial(true, 0.0), On(CookerDiscovered("oven")),
      On(CurrentCookFetched(Some(Some(fetched)))));
      var t := After3(s, DoneReport("a"), On(CommandAck(0, "timeout")), On(LinkDown));
      var u := After2(t, DoneReport("b"), On(CookerDiscovered("oven")));
      Stops(s, DoneReport("a"), "a") && !Stops(t, DoneReport("b"), "b") && Stops(u, DoneReport("a"), "a")
  {
    var s := After2(Initial(true, 0.0), On(CookerDiscovered("oven")), On(CurrentCookFetched(Some(Some(fetched)))));
    StoppedThenRefused(s);
    RefusedThenForgotten(After3(s, DoneReport("a"), On(CommandAck(0, "timeout")), On(LinkDown)));
  }
}
