/** The marquee of a row as its reader sees it: a text too long for the row is shown window
    by window, over and over. The animator keeps to this simple timetable. */
module LcdMarquee {
  import opened LcdCells
  import opened LcdModel
  import opened LcdProofs
  import opened Prelude

  datatype RowId = Top | Bottom

  // ---- The timetable ----

  /** The window a scrolling text is at, and since when. */
  datatype Spot = Spot(at: nat, since: nat)

  /** How long a window stays: the ends of the text longer than what is between. */
  function Hold(text: string, at: nat): nat {
    if at == 0 || at == Overflow(text) then 1200 else 350
  }

  /** The window after this one: three cells on, stopping at the tail, and then the start. */
  function NextWindow(text: string, at: nat): nat {
    if at == Overflow(text) then 0 else Min(at + 3, Overflow(text))
  }

  function Moved(text: string, spot: Spot, now: nat): Spot {
    if now >= spot.since + Hold(text, spot.at) then Spot(NextWindow(text, spot.at), now) else spot
  }

  // ---- The animator keeps it ----

  /** An animation that has been at a spot since then. */
  ghost predicate AtSpot(a: Anim, spot: Spot) {
    && Scrolls(a.text) && a.offset == spot.at <= Overflow(a.text) && a.lastStepAt == spot.since
    && if spot.at == 0 || spot.at == Overflow(a.text)
       then a.pauseUntil == spot.since + 1200 else a.pauseUntil <= spot.since
  }

  lemma LookMoves(a: Anim, spot: Spot, now: nat)
    requires AtSpot(a, spot)
    ensures AtSpot(Look(a, now).0, Moved(a.text, spot, now))
  {
  }

  lemma NewAtStart(text: string, now: nat)
    requires Scrolls(text)
    ensures AtSpot(Look(NewAnim(text, now), now).0, Spot(0, now))
  {
  }

  // ---- On the panel ----

  ghost function CellsOf(p: Panel, row: RowId): string {
    if row.Top? then p.row0 else p.row1
  }

  function RowOf(s: Animator, row: RowId): Row {
    if row.Top? then s.row0 else s.row1
  }

  /** The text the row has to show at tick `i`. */
  ghost function TextAt(tr: seq<Animator>, ins: seq<Input>, row: RowId, i: nat): string
    requires i < |ins| < |tr|
  {
    if row.Top? then ins[i].plan.row0 else SlotText(ins[i].plan, tr[i + 1].slot)
  }

  /** A text goes up afresh at tick `i`: it is another than before, or it is another turn. */
  ghost predicate GoesUp(tr: seq<Animator>, ins: seq<Input>, row: RowId, i: nat)
    requires i < |ins| < |tr|
  {
    if row.Top? then tr[i].row0.anim.None? || tr[i].row0.anim.value.text != ins[i].plan.row0
    else StartsTurn(tr[i], ins[i])
  }

  /** Tick `i` left the row of the panel reading `text` from its character `w` on. */
  ghost predicate RowReads(start: Panel, tr: seq<Animator>, ins: seq<Input>, row: RowId, i: nat, text: string, w: nat)
    requires FullPanel(start) && IsRun(tr, ins) && i < |ins|
  {
    var p := PanelAt(start, tr, ins, i + 1);
    p.Some? && w <= |text| && CellsOf(p.value, row) == Pad(text[w..])
  }

  lemma AnimRow(start: Panel, tr: seq<Animator>, ins: seq<Input>, row: RowId, i: nat)
    requires FullPanel(start) && IsRun(tr, ins) && i < |ins|
    ensures RowOf(tr[i + 1], row).anim.Some?
    ensures var a := RowOf(tr[i + 1], row).anim.value;
      && a.text == TextAt(tr, ins, row, i) && InRange(a)
      && RowReads(start, tr, ins, row, i, a.text, if Scrolls(a.text) then a.offset else 0)
  {
    PanelShowsPlan(start, tr, ins, i + 1);
    var a := RowOf(tr[i + 1], row).anim.value;
    assert Pad(Window(a)) == Pad(a.text[if Scrolls(a.text) then a.offset else 0..]);
  }

  lemma RowGoesUp(tr: seq<Animator>, ins: seq<Input>, row: RowId, i: nat)
    requires IsRun(tr, ins) && i < |ins| && GoesUp(tr, ins, row, i)
    ensures RowOf(tr[i + 1], row).anim == Some(Look(NewAnim(TextAt(tr, ins, row, i), ins[i].now), ins[i].now).0)
  {
    assert Steps(tr, ins, i);
  }

  lemma RowGoesOn(tr: seq<Animator>, ins: seq<Input>, row: RowId, i: nat)
    requires IsRun(tr, ins) && i < |ins| && !GoesUp(tr, ins, row, i)
    ensures var anim := RowOf(tr[i], row).anim;
      && anim.Some? && InRange(anim.value) && anim.value.text == TextAt(tr, ins, row, i)
      && RowOf(tr[i + 1], row).anim == Some(Look(anim.value, ins[i].now).0)
  {
    assert Steps(tr, ins, i);
  }

  /** The spot by the timetable at tick `i`, for a text that went up at tick `j`. */
  ghost function SpotAt(ins: seq<Input>, text: string, j: nat, i: nat): Spot
    requires j <= i < |ins|
  {
    if i == j then Spot(0, ins[j].now) else Moved(text, SpotAt(ins, text, j, i - 1), ins[i].now)
  }

  /** The row has been on the text that went up at tick `j`, and no other, to tick `i`. */
  ghost predicate UpSince(tr: seq<Animator>, ins: seq<Input>, row: RowId, j: nat, i: nat)
    requires j <= i < |ins| < |tr|
  {
    GoesUp(tr, ins, row, j) && forall m :: j < m <= i ==> !GoesUp(tr, ins, row, m)
  }

  /** A scrolling text is where the timetable has it, at every tick from when it went up. */
  lemma {:induction false} MarqueeKeepsTime(start: Panel, tr: seq<Animator>, ins: seq<Input>, row: RowId, j: nat,
    i: nat)
    requires FullPanel(start) && IsRun(tr, ins) && j <= i < |ins| && UpSince(tr, ins, row, j, i)
    requires Scrolls(TextAt(tr, ins, row, i))
    ensures var text := TextAt(tr, ins, row, i);
      && TextAt(tr, ins, row, j) == text
      && RowOf(tr[i + 1], row).anim.Some? && AtSpot(RowOf(tr[i + 1], row).anim.value, SpotAt(ins, text, j, i))
      && RowReads(start, tr, ins, row, i, text, SpotAt(ins, text, j, i).at)
  {
    AnimRow(start, tr, ins, row, i);
    if i == j {
      RowGoesUp(tr, ins, row, i);
      NewAtStart(TextAt(tr, ins, row, i), ins[i].now);
    } else {
      RowGoesOn(tr, ins, row, i);
      AnimRow(start, tr, ins, row, i - 1);
      MarqueeKeepsTime(start, tr, ins, row, j, i - 1);
      LookMoves(RowOf(tr[i], row).anim.value, SpotAt(ins, TextAt(tr, ins, row, i), j, i - 1), ins[i].now);
    }
  }

  /** A text that fits is shown whole. */
  lemma ShortTextStands(start: Panel, tr: seq<Animator>, ins: seq<Input>, row: RowId, i: nat)
    requires FullPanel(start) && IsRun(tr, ins) && i < |ins| && !Scrolls(TextAt(tr, ins, row, i))
    ensures RowReads(start, tr, ins, row, i, TextAt(tr, ins, row, i), 0)
  {
    AnimRow(start, tr, ins, row, i);
  }

  /** When the tail has gone up at tick `i`, the panel reads it until the end pause is over,
      and at the first tick after that it reads the text from the start again. */
  lemma TailThenStart(start: Panel, tr: seq<Animator>, ins: seq<Input>, row: RowId, j: nat, i: nat, m: nat)
    requires FullPanel(start) && IsRun(tr, ins) && j <= i < m < |ins| && UpSince(tr, ins, row, j, m)
    requires var text := TextAt(tr, ins, row, m);
      Scrolls(text) && SpotAt(ins, text, j, i) == Spot(Overflow(text), ins[i].now)
    requires forall n :: i < n < m ==> ins[n].now < ins[i].now + 1200
    ensures var text := TextAt(tr, ins, row, m);
      RowReads(start, tr, ins, row, m, text, if ins[m].now < ins[i].now + 1200 then Overflow(text) else 0)
  {
    var text := TextAt(tr, ins, row, m);
    MarqueeKeepsTime(start, tr, ins, row, j, m);
    StaysPut(ins, text, j, i, m - 1);
    assert SpotAt(ins, text, j, m) == Moved(text, Spot(Overflow(text), ins[i].now), ins[m].now);
  }

  lemma {:induction false} StaysPut(ins: seq<Input>, text: string, j: nat, i: nat, m: nat)
    requires j <= i <= m < |ins| && var spot := SpotAt(ins, text, j, i);
      forall n :: i < n <= m ==> ins[n].now < spot.since + Hold(text, spot.at)
    ensures SpotAt(ins, text, j, m) == SpotAt(ins, text, j, i)
    decreases m
  {
    if m > i {
      StaysPut(ins, text, j, i, m - 1);
    }
  }

  // ---- Every character comes round ----

  /** The steps from the start of the text to its tail. */
  function StepsOf(text: string): nat {
    (Overflow(text) + 2) / 3
  }

  /** Window `m` of the text, counted from the start. */
  function WindowAt(text: string, m: nat): nat {
    Min(3 * m, Overflow(text))
  }

  /** The window that has character `c` in it. */
  function WindowOf(text: string, c: nat): (m: nat)
    requires Scrolls(text) && c < |text|
    ensures m <= StepsOf(text) && WindowAt(text, m) <= c < WindowAt(text, m) + LCD_WIDTH
  {
    if c < LCD_WIDTH then 0 else (c - LCD_WIDTH + 1 + 2) / 3
  }

  /** The longest that `n` moves take with ticks at most `d` apart. */
  function MovesTime(n: nat, d: nat): nat {
    if n == 0 then 0 else 1200 + d + MovesTime(n - 1, d)
  }

  lemma {:induction false} MovesTimeGrows(m: nat, n: nat, d: nat)
    requires m <= n
    ensures MovesTime(m, d) <= MovesTime(n, d)
  {
    if m < n {
      MovesTimeGrows(m, n - 1, d);
    }
  }

  lemma {:induction false} MovesTimeIs(n: nat, d: nat)
    ensures MovesTime(n, d) == n * (1200 + d)
  {
    if n > 0 {
      MovesTimeIs(n - 1, d);
    }
  }

  /** The longest a whole pass over the text takes with ticks at most `d` apart. */
  function PassBound(text: string, d: nat): nat {
    MovesTime(StepsOf(text) + 1, d)
  }

  /** From tick `k` on the text is the row's, with no turn to end it, and ticks are at most
      `d` apart. */
  ghost predicate Unchanging(ins: seq<Input>, row: RowId, k: nat, text: string, d: nat) {
    && (forall i :: k <= i < |ins| ==>
          if row.Top? then ins[i].plan.row0 == text
          else SlotCount(ins[i].plan) == 1 && SlotText(ins[i].plan, 0) == text)
    && (forall i :: k < i < |ins| ==> ins[i].now <= ins[i - 1].now + d)
  }

  lemma UnchangingStays(start: Panel, tr: seq<Animator>, ins: seq<Input>, row: RowId, k: nat, text: string, d: nat,
    i: nat)
    requires FullPanel(start) && IsRun(tr, ins) && Unchanging(ins, row, k, text, d) && k <= i < |ins|
    ensures TextAt(tr, ins, row, i) == text && (i > k ==> !GoesUp(tr, ins, row, i))
  {
    if row.Top? {
      if i > k {
        AnimRow(start, tr, ins, row, i - 1);
      }
    } else {
      OneSlotStays(tr, ins, k, text, i);
    }
  }

  lemma OneSlotStays(tr: seq<Animator>, ins: seq<Input>, k: nat, text: string, i: nat)
    requires IsRun(tr, ins) && k <= i < |ins|
    requires forall i :: k <= i < |ins| ==> SlotCount(ins[i].plan) == 1 && SlotText(ins[i].plan, 0) == text
    ensures TextAt(tr, ins, Bottom, i) == text && (i > k ==> !GoesUp(tr, ins, Bottom, i))
  {
    RunTimely(tr, ins, i + 1);
    if i > k {
      RunTimely(tr, ins, i);
    }
  }

  /** The spot the row is at after tick `i`, for a text that went up before tick `k`. */
  ghost predicate Standing(start: Panel, tr: seq<Animator>, ins: seq<Input>, row: RowId, i: nat, text: string,
    spot: Spot)
    requires FullPanel(start) && IsRun(tr, ins) && i < |ins|
  {
    && RowReads(start, tr, ins, row, i, text, spot.at) && spot.since <= ins[i].now
    && ins[i].now < spot.since + Hold(text, spot.at)
    && RowOf(tr[i + 1], row).anim.Some? && RowOf(tr[i + 1], row).anim.value.text == text
    && AtSpot(RowOf(tr[i + 1], row).anim.value, spot)
  }

  /** Any scrolling row stands at some window of its text. */
  lemma {:induction false} StandsSomewhere(start: Panel, tr: seq<Animator>, ins: seq<Input>, row: RowId, i: nat)
    returns (m: nat, spot: Spot)
    requires FullPanel(start) && IsRun(tr, ins) && i < |ins| && Scrolls(TextAt(tr, ins, row, i))
    ensures Standing(start, tr, ins, row, i, TextAt(tr, ins, row, i), spot)
    ensures m <= StepsOf(TextAt(tr, ins, row, i)) && spot.at == WindowAt(TextAt(tr, ins, row, i), m)
  {
    var text := TextAt(tr, ins, row, i);
    if GoesUp(tr, ins, row, i) {
      StandsFirst(start, tr, ins, row, i);
      m, spot := 0, Spot(0, ins[i].now);
    } else {
      SameTextOn(start, tr, ins, row, i);
      m, spot := StandsSomewhere(start, tr, ins, row, i - 1);
      m, spot := StandsNext(start, tr, ins, row, i, text, m, spot);
    }
  }

  lemma StandsFirst(start: Panel, tr: seq<Animator>, ins: seq<Input>, row: RowId, i: nat)
    requires FullPanel(start) && IsRun(tr, ins) && i < |ins| && GoesUp(tr, ins, row, i)
    requires Scrolls(TextAt(tr, ins, row, i))
    ensures Standing(start, tr, ins, row, i, TextAt(tr, ins, row, i), Spot(0, ins[i].now))
  {
    AnimRow(start, tr, ins, row, i);
    RowGoesUp(tr, ins, row, i);
    NewAtStart(TextAt(tr, ins, row, i), ins[i].now);
  }

  lemma SameTextOn(start: Panel, tr: seq<Animator>, ins: seq<Input>, row: RowId, i: nat)
    requires FullPanel(start) && IsRun(tr, ins) && i < |ins| && !GoesUp(tr, ins, row, i)
    ensures i > 0 && TextAt(tr, ins, row, i - 1) == TextAt(tr, ins, row, i)
  {
    RowGoesOn(tr, ins, row, i);
    AnimRow(start, tr, ins, row, i - 1);
  }

  /** The windows follow one another round the text. */
  lemma WindowsInTurn(text: string, m: nat)
    requires Scrolls(text) && m <= StepsOf(text)
    ensures NextWindow(text, WindowAt(text, m)) == WindowAt(text, if m == StepsOf(text) then 0 else m + 1)
  {
  }

  /** One tick on, the row stands at the same window or at the next. */
  lemma StandsNext(start: Panel, tr: seq<Animator>, ins: seq<Input>, row: RowId, i: nat, text: string, m: nat,
    spot: Spot)
    returns (m': nat, spot': Spot)
    requires FullPanel(start) && IsRun(tr, ins) && 0 < i < |ins| && !GoesUp(tr, ins, row, i)
    requires TextAt(tr, ins, row, i) == text && Scrolls(text)
    requires Standing(start, tr, ins, row, i - 1, text, spot) && m <= StepsOf(text) && spot.at == WindowAt(text, m)
    ensures spot' == Moved(text, spot, ins[i].now)
    ensures Standing(start, tr, ins, row, i, text, spot')
    ensures m' <= StepsOf(text) && spot'.at == WindowAt(text, m')
    ensures m' == if spot' == spot then m else if m == StepsOf(text) then 0 else m + 1
  {
    AnimRow(start, tr, ins, row, i);
    RowGoesOn(tr, ins, row, i);
    LookMoves(RowOf(tr[i], row).anim.value, spot, ins[i].now);
    WindowsInTurn(text, m);
    spot' := Moved(text, spot, ins[i].now);
    m' := if spot' == spot then m else if m == StepsOf(text) then 0 else m + 1;
    assert ins[i - 1].now <= ins[i].now;
  }

  // A row's way round its windows, tick by tick.

  /** The window a row is at after a tick, and since when. */
  datatype Stand = Stand(window: nat, since: nat)

  /** The window after window `m`, of windows 0 to `last`. */
  function After(last: nat, m: nat): nat {
    if m == last then 0 else m + 1
  }

  /** At each tick the row stays at its window, for less than the end pause, or goes on to
      the next one. */
  ghost predicate Walks(last: nat, path: seq<Stand>, nows: seq<nat>, d: nat) {
    && |path| == |nows|
    && (forall i :: 0 <= i < |path| ==> Fits(last, path[i], nows[i]))
    && (forall i :: 0 <= i < |path| - 1 ==> nows[i + 1] <= nows[i] + d && GoesOn(last, path[i], path[i + 1]))
  }

  ghost predicate Fits(last: nat, stand: Stand, now: nat) {
    stand.window <= last && stand.since <= now < stand.since + 1200
  }

  ghost predicate GoesOn(last: nat, before: Stand, after: Stand) {
    after == before || after.window == After(last, before.window)
  }

  /** The next move comes in time. */
  lemma {:induction false} NextMove(last: nat, path: seq<Stand>, nows: seq<nat>, d: nat, k: nat,
    j: nat) returns (i: nat)
    requires Walks(last, path, nows, d) && k <= j < |path| && path[j] == path[k]
    requires nows[|nows| - 1] >= nows[k] + 1200
    ensures k < i < |path| && nows[i] <= nows[k] + 1200 + d && path[i].window == After(last, path[k].window)
    decreases |path| - j
  {
    i := j + 1;
    if path[i] == path[j] {
      i := NextMove(last, path, nows, d, k, i);
    }
  }

  /** The window `moves` moves after window `m`. */
  function Round(last: nat, m: nat, moves: nat): nat
    decreases moves
  {
    if moves == 0 then m else Round(last, After(last, m), moves - 1)
  }

  /** The row makes its moves one after the other, each in time. */
  lemma {:induction false} ComesTo(last: nat, path: seq<Stand>, nows: seq<nat>, d: nat, k: nat,
    moves: nat) returns (i: nat)
    requires Walks(last, path, nows, d) && k < |path| && nows[|nows| - 1] >= nows[k] + MovesTime(moves, d)
    ensures k <= i < |path| && nows[i] <= nows[k] + MovesTime(moves, d)
    ensures path[i].window == Round(last, path[k].window, moves)
    decreases moves
  {
    if moves == 0 {
      return k;
    }
    i := NextMove(last, path, nows, d, k, k);
    i := ComesTo(last, path, nows, d, i, moves - 1);
  }

  /** How many moves it is from window `m` to window `n`. */
  function Distance(last: nat, m: nat, n: nat): nat
    requires m <= last && n <= last
  {
    if m <= n then n - m else last + 1 - m + n
  }

  lemma {:induction false} RoundDistance(last: nat, m: nat, n: nat)
    requires m <= last && n <= last
    ensures Round(last, m, Distance(last, m, n)) == n && Distance(last, m, n) <= last
    decreases Distance(last, m, n)
  {
    if m != n {
      RoundDistance(last, After(last, m), n);
    }
  }

  /** From any tick on every window comes round within a pass. */
  lemma EveryWindow(last: nat, path: seq<Stand>, nows: seq<nat>, d: nat, n: nat) returns (i: nat)
    requires Walks(last, path, nows, d) && path != [] && n <= last
    requires nows[|nows| - 1] >= nows[0] + MovesTime(last + 1, d)
    ensures i < |path| && nows[i] <= nows[0] + MovesTime(last + 1, d) && path[i].window == n
  {
    var moves := Distance(last, path[0].window, n);
    RoundDistance(last, path[0].window, n);
    MovesTimeGrows(moves, last + 1, d);
    i := ComesTo(last, path, nows, d, 0, moves);
  }

  /** Where an animation stands. */
  function StandOf(a: Anim): Stand {
    Stand((a.offset + 2) / 3, a.lastStepAt)
  }

  lemma StandOfSpot(a: Anim, m: nat, spot: Spot)
    requires AtSpot(a, spot) && m <= StepsOf(a.text) && spot.at == WindowAt(a.text, m)
    ensures StandOf(a) == Stand(m, spot.since)
  {
  }

  /** Where the row stands after tick `i`. */
  function StandAt(tr: seq<Animator>, row: RowId, i: nat): Stand
    requires i + 1 < |tr|
  {
    match RowOf(tr[i + 1], row).anim
    case None => Stand(0, 0)
    case Some(a) => StandOf(a)
  }

  lemma StandsAt(start: Panel, tr: seq<Animator>, ins: seq<Input>, row: RowId, i: nat)
    requires FullPanel(start) && IsRun(tr, ins) && i < |ins| && Scrolls(TextAt(tr, ins, row, i))
    ensures var (text, stand) := (TextAt(tr, ins, row, i), StandAt(tr, row, i));
      Fits(StepsOf(text), stand, ins[i].now) && RowReads(start, tr, ins, row, i, text, WindowAt(text, stand.window))
  {
    var m, spot := StandsSomewhere(start, tr, ins, row, i);
    StandOfSpot(RowOf(tr[i + 1], row).anim.value, m, spot);
  }

  lemma StandsOn(start: Panel, tr: seq<Animator>, ins: seq<Input>, row: RowId, i: nat)
    requires FullPanel(start) && IsRun(tr, ins) && 0 < i < |ins| && !GoesUp(tr, ins, row, i)
    requires TextAt(tr, ins, row, i - 1) == TextAt(tr, ins, row, i) && Scrolls(TextAt(tr, ins, row, i))
    ensures GoesOn(StepsOf(TextAt(tr, ins, row, i)), StandAt(tr, row, i - 1), StandAt(tr, row, i))
  {
    var text := TextAt(tr, ins, row, i);
    var m, spot := StandsSomewhere(start, tr, ins, row, i - 1);
    StandOfSpot(RowOf(tr[i], row).anim.value, m, spot);
    var m', spot' := StandsNext(start, tr, ins, row, i, text, m, spot);
    StandOfSpot(RowOf(tr[i + 1], row).anim.value, m', spot');
  }

  /** Where the row stands after tick `k` and each tick after it. */
  function PathFrom(tr: seq<Animator>, row: RowId, k: nat): (path: seq<Stand>)
    requires k < |tr|
    ensures |path| == |tr| - 1 - k && forall i :: 0 <= i < |path| ==> path[i] == StandAt(tr, row, k + i)
    decreases |tr| - k
  {
    if k + 1 == |tr| then [] else [StandAt(tr, row, k)] + PathFrom(tr, row, k + 1)
  }

  function Times(ins: seq<Input>): (nows: seq<nat>)
    ensures |nows| == |ins| && forall i :: 0 <= i < |ins| ==> nows[i] == ins[i].now
  {
    if ins == [] then [] else [ins[0].now] + Times(ins[1..])
  }

  lemma {:induction false} PathWalks(start: Panel, tr: seq<Animator>, ins: seq<Input>, row: RowId, k: nat,
    text: string, d: nat)
    requires FullPanel(start) && IsRun(tr, ins) && Unchanging(ins, row, k, text, d) && Scrolls(text) && k < |ins|
    ensures Walks(StepsOf(text), PathFrom(tr, row, k), Times(ins[k..]), d)
    decreases |ins| - k
  {
    UnchangingStays(start, tr, ins, row, k, text, d, k);
    StandsAt(start, tr, ins, row, k);
    if k + 1 < |ins| {
      UnchangingStays(start, tr, ins, row, k, text, d, k + 1);
      StandsOn(start, tr, ins, row, k + 1);
      PathWalks(start, tr, ins, row, k + 1, text, d);
      var (path, nows) := (PathFrom(tr, row, k + 1), Times(ins[k + 1..]));
      assert ins[k..][1..] == ins[k + 1..] && path[0] == StandAt(tr, row, k + 1) && nows[0] == ins[k + 1].now;
      OneMoreStand(StepsOf(text), StandAt(tr, row, k), path, ins[k].now, nows, d);
    }
  }

  lemma OneMoreStand(last: nat, stand: Stand, path: seq<Stand>, now: nat, nows: seq<nat>, d: nat)
    requires Walks(last, path, nows, d) && path != []
    requires Fits(last, stand, now) && nows[0] <= now + d && GoesOn(last, stand, path[0])
    ensures Walks(last, [stand] + path, [now] + nows, d)
  {
  }

  lemma WindowComes(tr: seq<Animator>, ins: seq<Input>, row: RowId, k: nat, last: nat, d: nat, m: nat) returns (i: nat)
    requires k < |ins| && |tr| == |ins| + 1 && Walks(last, PathFrom(tr, row, k), Times(ins[k..]), d)
    requires m <= last && ins[|ins| - 1].now >= ins[k].now + MovesTime(last + 1, d)
    ensures k <= i < |ins| && ins[i].now <= ins[k].now + MovesTime(last + 1, d) && StandAt(tr, row, i).window == m
  {
    var (path, nows) := (PathFrom(tr, row, k), Times(ins[k..]));
    assert nows[0] == ins[k].now && nows[|nows| - 1] == ins[|ins| - 1].now;
    var j := EveryWindow(last, path, nows, d, m);
    i := k + j;
    assert nows[j] == ins[i].now && path[j] == StandAt(tr, row, i);
  }

  /** Any window of the text is read again within a pass. */
  lemma WindowAgain(start: Panel, tr: seq<Animator>, ins: seq<Input>, row: RowId, k: nat, text: string, d: nat, m: nat)
    returns (i: nat)
    requires FullPanel(start) && IsRun(tr, ins) && k < |ins| && Unchanging(ins, row, k, text, d) && Scrolls(text)
    requires m <= StepsOf(text) && ins[|ins| - 1].now >= ins[k].now + PassBound(text, d)
    ensures k <= i < |ins| && ins[i].now <= ins[k].now + PassBound(text, d)
    ensures RowReads(start, tr, ins, row, i, text, WindowAt(text, m))
  {
    PathWalks(start, tr, ins, row, k, text, d);
    i := WindowComes(tr, ins, row, k, StepsOf(text), d, m);
    UnchangingStays(start, tr, ins, row, k, text, d, i);
    StandsAt(start, tr, ins, row, i);
  }

  /** While a scrolling text stays up, with no turn to end it, every character of it is on
      the panel again within a pass, from whatever tick one starts to watch. */
  lemma EveryCharacterAgain(start: Panel, tr: seq<Animator>, ins: seq<Input>, row: RowId, k: nat, text: string,
                            d: nat, c: nat) returns (i: nat, w: nat)
    requires FullPanel(start) && IsRun(tr, ins) && k < |ins| && Unchanging(ins, row, k, text, d)
    requires Scrolls(text) && c < |text| && ins[|ins| - 1].now >= ins[k].now + PassBound(text, d)
    ensures k <= i < |ins| && ins[i].now <= ins[k].now + PassBound(text, d)
    ensures w <= c < w + LCD_WIDTH && RowReads(start, tr, ins, row, i, text, w)
  {
    w := WindowAt(text, WindowOf(text, c));
    i := WindowAgain(start, tr, ins, row, k, text, d, WindowOf(text, c));
  }

  /** So does the start of the text, once the tail has been read. */
  lemma StartsOverAgain(start: Panel, tr: seq<Animator>, ins: seq<Input>, row: RowId, k: nat, text: string, d: nat)
    returns (i: nat)
    requires FullPanel(start) && IsRun(tr, ins) && k < |ins| && Unchanging(ins, row, k, text, d)
    requires Scrolls(text) && ins[|ins| - 1].now >= ins[k].now + PassBound(text, d)
    ensures k <= i < |ins| && ins[i].now <= ins[k].now + PassBound(text, d)
    ensures RowReads(start, tr, ins, row, i, text, 0)
  {
    i := WindowAgain(start, tr, ins, row, k, text, d, 0);
  }

  /** When the plan has fewer slots than the one the bottom row was on, and its turn is not
      over, its last slot goes up, from the start. */
  lemma ShrunkPlanShowsLast(start: Panel, tr: seq<Animator>, ins: seq<Input>, k: nat)
    requires FullPanel(start) && IsRun(tr, ins) && k < |ins|
    requires tr[k].slot >= SlotCount(ins[k].plan) && !Rotates(tr[k], ins[k].plan, ins[k].now)
    ensures tr[k + 1].slot == SlotCount(ins[k].plan) - 1
    ensures RowReads(start, tr, ins, Bottom, k, SlotText(ins[k].plan, SlotCount(ins[k].plan) - 1), 0)
  {
    assert Steps(tr, ins, k);
    if Scrolls(TextAt(tr, ins, Bottom, k)) {
      MarqueeKeepsTime(start, tr, ins, Bottom, k, k);
    } else {
      ShortTextStands(start, tr, ins, Bottom, k);
    }
  }

  /** A text that goes up is read from its start. */
  lemma NewTextFromStart(start: Panel, tr: seq<Animator>, ins: seq<Input>, row: RowId, k: nat)
    requires FullPanel(start) && IsRun(tr, ins) && k < |ins|
    requires k == 0 || TextAt(tr, ins, row, k) != TextAt(tr, ins, row, k - 1)
    ensures RowReads(start, tr, ins, row, k, TextAt(tr, ins, row, k), 0)
  {
    if !GoesUp(tr, ins, row, k) {
      SameTextOn(start, tr, ins, row, k);
    }
    if Scrolls(TextAt(tr, ins, row, k)) {
      MarqueeKeepsTime(start, tr, ins, row, k, k);
    } else {
      ShortTextStands(start, tr, ins, row, k);
    }
  }
}
