/** The local store's cook journal and history: a journal of the cook in flight and a
    history file, both outliving the process, reconciled with every oven report. Times
    are whole seconds. */
module LocalStore {
  import opened Prelude

  const MANUAL_TITLE: string := "[manual]"

  /** What the server does with a cook that the oven does not know. */
  datatype CookExtras = CookExtras(turnOffAtEnd: bool, prompts: map<string, string>)

  const NO_EXTRAS: CookExtras := CookExtras(false, map[])

  /** The oven's own view of its cook. */
  datatype OvenCook = OvenCook(cookId: string, stageCount: nat, secondsElapsed: nat)

  datatype ActiveCook = ActiveCook(
    cookId: string, recipeId: Option<string>, title: string, startedAt: int,
    stageCount: nat, lastSeenAt: Option<int>, extras: CookExtras)

  datatype HistoryEntry = HistoryEntry(title: string, endedAt: int, stageCount: nat)

  datatype CurrentCook = CurrentCook(title: string, recipeId: Option<string>, startedAt: int, stageCount: nat,
    extras: CookExtras)

  /** A start as the server sent it. */
  datatype Started = Started(cookId: string, recipeId: Option<string>, title: string, stageCount: nat,
    extras: CookExtras)

  /** What reaches the journal, in order. */
  datatype Event =
    | Start(start: Started, now: int)
    | Report(cook: OvenCook, now: int)
    | Idle(now: int)
    | Link(recipeId: string, title: string)
    | Restart

  datatype Store = Store(journal: Option<ActiveCook>, history: seq<HistoryEntry>, watched: Option<string>)

  function ManualCook(cook: OvenCook, now: int): ActiveCook {
    ActiveCook(cook.cookId, None, MANUAL_TITLE, now - cook.secondsElapsed, cook.stageCount, Some(now), NO_EXTRAS)
  }

  function StartedCook(s: Started, now: int): ActiveCook {
    ActiveCook(s.cookId, s.recipeId, s.title, now, s.stageCount, None, s.extras)
  }

  /** The journal's cook has ended: into the history if the oven ever reported it. */
  function Finished(s: Store, now: int): Store {
    if s.journal.None? then s
    else
      var a := s.journal.value;
      match a.lastSeenAt
      case None => s.(journal := None)
      case Some(seen) =>
        var endedAt := if s.watched == Some(a.cookId) then now else seen;
        s.(journal := None, history := s.history + [HistoryEntry(a.title, endedAt, a.stageCount)])
  }

  function Stepped(s: Store, e: Event): Store {
    match e
    case Start(start, now) =>
      var ended := if s.journal.Some? && s.journal.value.cookId != start.cookId then Finished(s, now) else s;
      ended.(journal := Some(StartedCook(start, now)))
    case Report(cook, now) =>
      if s.journal.Some? && s.journal.value.cookId == cook.cookId then
        s.(journal := Some(s.journal.value.(lastSeenAt := Some(now), stageCount := cook.stageCount)),
          watched := Some(cook.cookId))
      else Finished(s, now).(journal := Some(ManualCook(cook, now)), watched := Some(cook.cookId))
    case Idle(now) => Finished(s, now).(watched := None)
    case Link(recipeId, title) =>
      if s.journal.Some? then s.(journal := Some(s.journal.value.(recipeId := Some(recipeId), title := title))) else s
    case Restart => s.(watched := None)
  }

  class LocalStore {
    /** `active-cook.json` and `history.jsonl`. */
    var journal: Option<ActiveCook>
    var history: seq<HistoryEntry>
    /** The cook in the previous report this process saw. */
    var watched: Option<string>

    function Value(): Store reads this { Store(journal, history, watched) }

    /** A process starting over whatever files it finds. */
    constructor (journal: Option<ActiveCook>, history: seq<HistoryEntry>)
      ensures Value() == Store(journal, history, None)
    {
      this.journal, this.history, watched := journal, history, None;
    }

    /** Returns whether a history entry was written. */
    method Finish(active: ActiveCook, now: int) returns (recorded: bool)
      requires journal == Some(active)
      modifies this
      ensures Value() == Finished(old(Value()), now) && recorded == active.lastSeenAt.Some?
    {
      recorded := active.lastSeenAt.Some?;
      if recorded {
        var endedAt := if watched == Some(active.cookId) then now else active.lastSeenAt.value;
        history := history + [HistoryEntry(active.title, endedAt, active.stageCount)];
      }
      journal := None;
    }

    /** Journal a cook the server just started, ending the one before it if it was another. */
    method JournalStart(start: Started, now: int) returns (recorded: bool)
      modifies this
      ensures Value() == Stepped(old(Value()), Start(start, now))
      ensures recorded == (|history| > |old(history)|)
    {
      recorded := false;
      if journal.Some? && journal.value.cookId != start.cookId {
        recorded := Finish(journal.value, now);
      }
      journal := Some(StartedCook(start, now));
    }

    /** A start from a saved recipe, recorded as manual if the recipe is gone. */
    method CookStarted(cookId: string, recipeId: string, found: Option<(string, nat)>, extras: CookExtras, now: int)
      returns (recorded: bool)
      modifies this
      ensures var (title, count) := if found.Some? then found.value else (MANUAL_TITLE, 0);
        Value() == Stepped(old(Value()), Start(Started(cookId, Some(recipeId), title, count, extras), now))
    {
      var (title, count) := if found.Some? then found.value else (MANUAL_TITLE, 0);
      recorded := JournalStart(Started(cookId, Some(recipeId), title, count, extras), now);
    }

    method LinkCook(recipeId: string, title: string)
      modifies this
      ensures Value() == Stepped(old(Value()), Link(recipeId, title))
    {
      if journal.Some? {
        journal := Some(journal.value.(recipeId := Some(recipeId), title := title));
      }
    }

    /** Reconcile the journal with an oven report. */
    method OvenReported(cook: Option<OvenCook>, now: int) returns (recorded: bool)
      modifies this
      ensures Value() == Stepped(old(Value()), if cook.Some? then Report(cook.value, now) else Idle(now))
      ensures recorded == (|history| > |old(history)|)
    {
      recorded := false;
      if journal.Some? && cook.Some? && journal.value.cookId == cook.value.cookId {
        journal := Some(journal.value.(lastSeenAt := Some(now), stageCount := cook.value.stageCount));
      } else {
        if journal.Some? {
          recorded := Finish(journal.value, now);
        }
        if cook.Some? {
          journal := Some(ManualCook(cook.value, now));
        }
      }
      watched := if cook.Some? then Some(cook.value.cookId) else None;
    }

    /** The current cook: the oven's stages over the journal's record of it. A cook the
        journal is not on counts as a report first; no cook at all is not answered. */
    method FetchCurrentCook(cook: Option<OvenCook>, now: int) returns (r: Option<CurrentCook>)
      modifies this
      ensures cook.None? ==> r.None? && Value() == old(Value())
      ensures cook.Some? && old(journal.Some? && journal.value.cookId == cook.value.cookId) ==> Value() == old(Value())
      ensures cook.Some? && !old(journal.Some? && journal.value.cookId == cook.value.cookId) ==>
        Value() == Stepped(old(Value()), Report(cook.value, now))
      ensures cook.Some? ==> journal.Some? && journal.value.cookId == cook.value.cookId
      ensures cook.Some? ==>
        var a := journal.value;
        r == Some(CurrentCook(a.title, a.recipeId, a.startedAt, cook.value.stageCount, a.extras))
    {
      if cook.None? {
        return None;
      }
      if !(journal.Some? && journal.value.cookId == cook.value.cookId) {
        var _ := OvenReported(cook, now);
      }
      var a := journal.value;
      r := Some(CurrentCook(a.title, a.recipeId, a.startedAt, cook.value.stageCount, a.extras));
    }
  }

  // ---- What the trace of events says ----

  /** The cook in flight after `n` events: started or reported last, and not seen to end. */
  function CookAt(evs: seq<Event>, n: nat): Option<string>
    requires n <= |evs|
  {
    if n == 0 then None
    else
      match evs[n - 1]
      case Start(s, _) => Some(s.cookId)
      case Report(c, _) => Some(c.cookId)
      case Idle(_) => None
      case _ => CookAt(evs, n - 1)
  }

  /** The latest report of the group in progress after `n` events. A group is a maximal run
      of reports of one cook: an idle report, another cook's report or a start ends it. */
  function LatestReport(evs: seq<Event>, n: nat): (k: Option<nat>)
    requires n <= |evs|
    ensures k.Some? ==> k.value < n && evs[k.value].Report? && CookAt(evs, n) == Some(evs[k.value].cook.cookId)
  {
    if n == 0 then None
    else
      match evs[n - 1]
      case Start(_, _) => None
      case Report(_, _) => Some(n - 1)
      case Idle(_) => None
      case _ => LatestReport(evs, n - 1)
  }

  function TitleAt(evs: seq<Event>, n: nat): string
    requires n <= |evs|
  {
    if n == 0 then MANUAL_TITLE
    else
      match evs[n - 1]
      case Start(s, _) => s.title
      case Report(c, _) => if CookAt(evs, n - 1) == Some(c.cookId) then TitleAt(evs, n - 1) else MANUAL_TITLE
      case Link(_, title) => if CookAt(evs, n - 1).Some? then title else TitleAt(evs, n - 1)
      case _ => TitleAt(evs, n - 1)
  }

  /** Its recipe: a start's, until it is linked to another; none for a cook begun elsewhere. */
  function RecipeAt(evs: seq<Event>, n: nat): Option<string>
    requires n <= |evs|
  {
    if n == 0 then None
    else
      match evs[n - 1]
      case Start(s, _) => s.recipeId
      case Report(c, _) => if CookAt(evs, n - 1) == Some(c.cookId) then RecipeAt(evs, n - 1) else None
      case Link(recipeId, _) => if CookAt(evs, n - 1).Some? then Some(recipeId) else RecipeAt(evs, n - 1)
      case _ => RecipeAt(evs, n - 1)
  }

  /** What the server is to do with it: as its start asked, whatever is reported since. */
  function ExtrasAt(evs: seq<Event>, n: nat): CookExtras
    requires n <= |evs|
  {
    if n == 0 then NO_EXTRAS
    else
      match evs[n - 1]
      case Start(s, _) => s.extras
      case Report(c, _) => if CookAt(evs, n - 1) == Some(c.cookId) then ExtrasAt(evs, n - 1) else NO_EXTRAS
      case _ => ExtrasAt(evs, n - 1)
  }

  /** Its stages, by its start or the latest report. */
  function StagesAt(evs: seq<Event>, n: nat): nat
    requires n <= |evs|
  {
    if n == 0 then 0
    else
      match evs[n - 1]
      case Start(s, _) => s.stageCount
      case Report(c, _) => c.stageCount
      case _ => StagesAt(evs, n - 1)
  }

  function StartedAt(evs: seq<Event>, n: nat): int
    requires n <= |evs|
  {
    if n == 0 then 0
    else
      match evs[n - 1]
      case Start(_, now) => now
      case Report(c, now) => if CookAt(evs, n - 1) == Some(c.cookId) then StartedAt(evs, n - 1)
        else now - c.secondsElapsed
      case _ => StartedAt(evs, n - 1)
  }

  predicate RestartedBetween(evs: seq<Event>, k: nat, n: nat)
    requires k <= n <= |evs|
  {
    exists i :: k <= i < n && evs[i].Restart?
  }

  /** Event `n` ends the group in progress. */
  predicate EndsGroup(evs: seq<Event>, n: nat)
    requires n < |evs|
  {
    LatestReport(evs, n).Some? &&
    match evs[n]
    case Start(_, _) => true
    case Idle(_) => true
    case Report(c, _) => CookAt(evs, n) != Some(c.cookId)
    case _ => false
  }

  function When(e: Event): int
    requires e.Start? || e.Report? || e.Idle?
  {
    e.now
  }

  /** The group that event `n` ends: dated then if this process saw its last report, and
      at that report otherwise. */
  function EntryAt(evs: seq<Event>, n: nat): HistoryEntry
    requires n < |evs| && EndsGroup(evs, n)
  {
    var k := LatestReport(evs, n).value;
    var endedAt := if RestartedBetween(evs, k, n) then evs[k].now else When(evs[n]);
    HistoryEntry(TitleAt(evs, n), endedAt, evs[k].cook.stageCount)
  }

  /** One entry for each group that has ended, in the order they ended. */
  function Entries(evs: seq<Event>, n: nat): seq<HistoryEntry>
    requires n <= |evs|
  {
    if n == 0 then [] else Entries(evs, n - 1) + if EndsGroup(evs, n - 1) then [EntryAt(evs, n - 1)] else []
  }

  /** Report `n` begins a group: it is not of the group in progress. */
  predicate BeginsGroup(evs: seq<Event>, n: nat)
    requires n < |evs|
  {
    evs[n].Report? && !(LatestReport(evs, n).Some? && CookAt(evs, n) == Some(evs[n].cook.cookId))
  }

  function GroupsBegun(evs: seq<Event>, n: nat): nat
    requires n <= |evs|
  {
    if n == 0 then 0 else GroupsBegun(evs, n - 1) + if BeginsGroup(evs, n - 1) then 1 else 0
  }

  /** Every group that has begun has its one entry, or is the one in progress. */
  lemma {:induction false} GroupsAccountedFor(evs: seq<Event>, n: nat)
    requires n <= |evs|
    ensures |Entries(evs, n)| + (if LatestReport(evs, n).Some? then 1 else 0) == GroupsBegun(evs, n)
  {
    if n > 0 {
      GroupsAccountedFor(evs, n - 1);
    }
  }

  // ---- The store says the same ----

  const EMPTY: Store := Store(None, [], None)

  function Run(evs: seq<Event>, n: nat): Store
    requires n <= |evs|
  {
    if n == 0 then EMPTY else Stepped(Run(evs, n - 1), evs[n - 1])
  }

  /** The record of the trace's cook. */
  function JournalAt(evs: seq<Event>, n: nat): Option<ActiveCook>
    requires n <= |evs|
  {
    var (cook, k) := (CookAt(evs, n), LatestReport(evs, n));
    if cook.None? then None
    else Some(ActiveCook(cook.value, RecipeAt(evs, n), TitleAt(evs, n), StartedAt(evs, n), StagesAt(evs, n),
                         if k.Some? then Some(evs[k.value].now) else None, ExtrasAt(evs, n)))
  }

  /** The journal is the record of the trace's cook, every field of it. */
  ghost predicate JournalRight(s: Store, evs: seq<Event>, n: nat)
    requires n <= |evs|
  {
    s.journal == JournalAt(evs, n)
  }

  /** While a group is in progress, the process watches it exactly if it has not restarted since. */
  ghost predicate WatchRight(s: Store, evs: seq<Event>, n: nat)
    requires n <= |evs|
  {
    var k := LatestReport(evs, n);
    k.Some? ==> (s.watched == CookAt(evs, n) <==> !RestartedBetween(evs, k.value, n))
  }

  lemma RestartsExtend(evs: seq<Event>, k: nat, n: nat)
    requires k <= n < |evs|
    ensures RestartedBetween(evs, k, n + 1) <==> RestartedBetween(evs, k, n) || evs[n].Restart?
  {
  }

  lemma {:induction false} StoreFollowsTrace(evs: seq<Event>, n: nat)
    requires n <= |evs|
    ensures JournalRight(Run(evs, n), evs, n) && WatchRight(Run(evs, n), evs, n)
  {
    if n > 0 {
      StoreFollowsTrace(evs, n - 1);
      var k := LatestReport(evs, n - 1);
      if k.Some? {
        RestartsExtend(evs, k.value, n - 1);
      }
    }
  }

  /** A start that reuses the id of the reported cook in flight: the journal is overwritten
      in place, and the group it held is lost. */
  predicate Reuses(evs: seq<Event>, n: nat)
    requires n < |evs|
  {
    evs[n].Start? && LatestReport(evs, n).Some? && CookAt(evs, n) == Some(evs[n].start.cookId)
  }

  function Lost(evs: seq<Event>, n: nat): nat
    requires n <= |evs|
  {
    if n == 0 then 0 else Lost(evs, n - 1) + if Reuses(evs, n - 1) then 1 else 0
  }

  lemma StepHistory(evs: seq<Event>, n: nat)
    requires n < |evs|
    ensures Run(evs, n + 1).history ==
      Run(evs, n).history + if EndsGroup(evs, n) && !Reuses(evs, n) then [EntryAt(evs, n)] else []
  {
    StoreFollowsTrace(evs, n);
    if LatestReport(evs, n).Some? {
      StagesReported(evs, n);
    }
  }

  lemma {:induction false} StagesReported(evs: seq<Event>, n: nat)
    requires n <= |evs| && LatestReport(evs, n).Some?
    ensures StagesAt(evs, n) == evs[LatestReport(evs, n).value].cook.stageCount
  {
    if !evs[n - 1].Report? {
      StagesReported(evs, n - 1);
    }
  }

  lemma {:induction false} HistoryLoses(evs: seq<Event>, n: nat)
    requires n <= |evs|
    ensures |Run(evs, n).history| + Lost(evs, n) == |Entries(evs, n)|
    ensures Lost(evs, n) == 0 ==> Run(evs, n).history == Entries(evs, n)
  {
    if n > 0 {
      HistoryLoses(evs, n - 1);
      StepHistory(evs, n - 1);
    }
  }

  lemma {:induction false} LostNone(evs: seq<Event>, n: nat)
    requires n <= |evs|
    ensures Lost(evs, n) == 0 <==> forall i :: 0 <= i < n ==> !Reuses(evs, i)
  {
    if n > 0 {
      LostNone(evs, n - 1);
    }
  }

  /** Through any sequence of reports, starts, links and restarts, the history is one entry
      for each group of reports that has ended, in order, exactly when no start reused the
      id of a reported cook still in flight, as fresh ids never do. */
  lemma HistoryIsExact(evs: seq<Event>)
    ensures Run(evs, |evs|).history == Entries(evs, |evs|) <==> forall i :: 0 <= i < |evs| ==> !Reuses(evs, i)
  {
    HistoryLoses(evs, |evs|);
    LostNone(evs, |evs|);
  }

  /** A fetch of the cook in flight answers with what its start asked for, and any other
      cook with nothing asked for, as if it had been reported. */
  lemma FetchAnswersTrace(evs: seq<Event>, cook: OvenCook, now: int)
    ensures var n := |evs|;
      var s := Run(evs, n);
      if CookAt(evs, n) == Some(cook.cookId)
      then s.journal.Some? && s.journal.value.extras == ExtrasAt(evs, n) && s.journal.value.recipeId == RecipeAt(evs, n)
      else Stepped(s, Event.Report(cook, now)).journal == Some(ManualCook(cook, now))
  {
    StoreFollowsTrace(evs, |evs|);
  }

  /** A start that reuses the id of a reported cook in flight, as fresh ids never do, loses
      that cook's entry. */
  lemma ReusedStartLoses(cook: OvenCook, start: Started)
    requires start.cookId == cook.cookId
    ensures var evs := [Event.Report(cook, 0), Event.Start(start, 1)];
      Reuses(evs, 1) && Run(evs, 2).history == [] && |Entries(evs, 2)| == 1
  {
    var evs := [Event.Report(cook, 0), Event.Start(start, 1)];
    assert CookAt(evs, 1) == Some(cook.cookId) && LatestReport(evs, 1) == Some(0);
    assert Run(evs, 1) == Stepped(EMPTY, evs[0]);
    assert Run(evs, 2) == Stepped(Run(evs, 1), evs[1]);
    assert !EndsGroup(evs, 0) && EndsGroup(evs, 1) && Entries(evs, 1) == [];
  }

  /** A cook that was started and never reported leaves no entry behind. */
  lemma {:induction false} UnreportedStartLeavesNothing(evs: seq<Event>, n: nat, m: nat)
    requires n < m <= |evs| && evs[n].Start?
    requires forall i :: n < i < m ==> !evs[i].Report?
    ensures Run(evs, m).history == Run(evs, n + 1).history && LatestReport(evs, m).None?
    decreases m
  {
    if m > n + 1 {
      UnreportedStartLeavesNothing(evs, n, m - 1);
      StepHistory(evs, m - 1);
    }
  }

  /** `started_at` does not change while the journal stays on one cook; only a new start
      or another cook sets it. */
  lemma {:induction false} StartedAtConstant(evs: seq<Event>, n: nat, m: nat)
    requires n <= m <= |evs| && Run(evs, n).journal.Some?
    requires forall i :: n <= i < m ==> !evs[i].Start? && CookAt(evs, i + 1) == CookAt(evs, n)
    ensures Run(evs, m).journal.Some? && Run(evs, m).journal.value.startedAt == Run(evs, n).journal.value.startedAt
    decreases m
  {
    StoreFollowsTrace(evs, n);
    StoreFollowsTrace(evs, m);
    CookStays(evs, n, m);
  }

  lemma {:induction false} CookStays(evs: seq<Event>, n: nat, m: nat)
    requires n <= m <= |evs| && CookAt(evs, n).Some?
    requires forall i :: n <= i < m ==> !evs[i].Start? && CookAt(evs, i + 1) == CookAt(evs, n)
    ensures CookAt(evs, m) == CookAt(evs, n) && StartedAt(evs, m) == StartedAt(evs, n)
    decreases m
  {
    if m > n {
      CookStays(evs, n, m - 1);
      assert CookAt(evs, (m - 1) + 1) == CookAt(evs, n);
    }
  }
}
