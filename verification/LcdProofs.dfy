/** What the animator promises over whole runs: the panel always shows the rendering of
    the current plan, and the bottom row takes fair turns. */
module LcdProofs {
  import opened LcdCells
  import opened LcdModel
  import opened Prelude

  datatype Input = Input(plan: LcdPlan, now: nat)

  // ---- The panel always shows the row's current window ----

  /** The row remembers what the panel shows, and a running animation is what it shows. */
  ghost predicate Faithful(r: Row, panel: string) {
    && |panel| == LCD_WIDTH && RowInRange(r)
    && (r.lastRendered.Some? ==> panel == r.lastRendered.value)
    && (r.anim.Some? ==> r.lastRendered == Some(Pad(Window(r.anim.value))))
  }

  lemma AdvanceFaithful(r: Row, panel: string, text: string, now: nat)
    requires Faithful(r, panel)
    ensures var (r', spans) := Advance(r, text, now);
      && AllInBounds(spans, LCD_WIDTH) && Faithful(r', ApplySpans(panel, spans))
      && r'.anim.Some? && r'.anim.value.text == text
      && ApplySpans(panel, spans) == Pad(Window(r'.anim.value))
  {
    var (a, redraw) := Look(AnimFor(r, text, now), now);
    var rendered := Pad(Window(a));
    if r.lastRendered.Some? {
      ChangedComplete(r.lastRendered.value, rendered);
    } else {
      assert WriteSpan(panel, CellSpan(0, rendered)) == rendered;
      assert [CellSpan(0, rendered)][1..] == [];
    }
  }

  /** Once a row is on the panel, a tick's spans are the cheapest writes that do the job. */
  lemma AdvanceCheapest(r: Row, panel: string, text: string, now: nat, other: seq<CellSpan>)
    requires Faithful(r, panel) && r.lastRendered.Some?
    requires var spans := Advance(r, text, now).1;
      AllInBounds(spans, LCD_WIDTH) && AllInBounds(other, LCD_WIDTH)
        && ApplySpans(panel, other) == ApplySpans(panel, spans)
    ensures Cost(Advance(r, text, now).1) <= Cost(other)
  {
    AdvanceFaithful(r, panel, text, now);
    var (r', spans) := Advance(r, text, now);
    if spans != [] {
      ChangedIsCheapest(panel, r'.lastRendered.value, other);
    }
  }

  /** A run: the animator before each tick, and after the last. */
  ghost predicate IsRun(tr: seq<Animator>, ins: seq<Input>) {
    && |tr| == |ins| + 1 && tr[0] == INITIAL
    && (forall i :: 0 <= i < |ins| ==> Steps(tr, ins, i))
    && (forall i, j :: 0 <= i < j < |ins| ==> ins[i].now <= ins[j].now)
  }

  ghost predicate Steps(tr: seq<Animator>, ins: seq<Input>, i: nat)
    requires i < |ins| < |tr|
  {
    AnimatorInRange(tr[i]) && tr[i + 1] == Tick(tr[i], ins[i].plan, ins[i].now).0
  }

  ghost function FrameAt(tr: seq<Animator>, ins: seq<Input>, i: nat): LcdFrame
    requires i < |ins| < |tr| && Steps(tr, ins, i)
  {
    Tick(tr[i], ins[i].plan, ins[i].now).1
  }

  /** The two rows of the panel, as cells. */
  datatype Panel = Panel(row0: string, row1: string)

  ghost predicate FrameInBounds(f: LcdFrame) {
    AllInBounds(f.row0, LCD_WIDTH) && AllInBounds(f.row1, LCD_WIDTH)
  }

  ghost predicate FullPanel(p: Panel) {
    |p.row0| == LCD_WIDTH && |p.row1| == LCD_WIDTH
  }

  /** The panel before tick `k`, starting from `start` and applying every frame sent so
      far; `None` if some frame did not fit the panel. */
  ghost function PanelAt(start: Panel, tr: seq<Animator>, ins: seq<Input>, k: nat): (p: Option<Panel>)
    requires FullPanel(start) && IsRun(tr, ins) && k <= |ins|
    ensures p.Some? ==> FullPanel(p.value)
  {
    if k == 0 then Some(start)
    else
      assert Steps(tr, ins, k - 1);
      var f := FrameAt(tr, ins, k - 1);
      match PanelAt(start, tr, ins, k - 1)
      case None => None
      case Some(p) =>
        if !FrameInBounds(f) then None
        else Some(Panel(ApplySpans(p.row0, f.row0), ApplySpans(p.row1, f.row1)))
  }

  /** One tick: each row goes on showing the window of its current text. */
  lemma TickFaithful(s: Animator, p: Panel, i: Input)
    requires Faithful(s.row0, p.row0) && Faithful(s.row1, p.row1)
    ensures var (s', f) := Tick(s, i.plan, i.now);
      && FrameInBounds(f)
      && RowShows(s'.row0, ApplySpans(p.row0, f.row0), i.plan.row0)
      && RowShows(s'.row1, ApplySpans(p.row1, f.row1), SlotText(i.plan, s'.slot))
      && s'.slot < SlotCount(i.plan)
  {
    AdvanceFaithful(s.row0, p.row0, i.plan.row0, i.now);
    AdvanceFaithful(Restarted(s, i.plan, i.now), p.row1, SlotText(i.plan, NextSlot(s, i.plan, i.now)), i.now);
  }

  /** The cells `panel` are the padded window of `text` at the row's current offset. */
  ghost predicate RowShows(r: Row, panel: string, text: string) {
    && Faithful(r, panel)
    && r.anim.Some? && r.anim.value.text == text && panel == Pad(Window(r.anim.value))
  }

  /** Whatever was on the panel, and whatever plans and times came in: after every tick
      the panel shows, in each row, the padded window of that row's current text at its
      current offset, and every span sent fitted the panel. */
  lemma {:induction false} PanelShowsPlan(start: Panel, tr: seq<Animator>, ins: seq<Input>, k: nat)
    requires FullPanel(start) && IsRun(tr, ins) && k <= |ins|
    ensures var p := PanelAt(start, tr, ins, k);
      p.Some? && Faithful(tr[k].row0, p.value.row0) && Faithful(tr[k].row1, p.value.row1)
    ensures k > 0 ==>
      var (p, plan) := (PanelAt(start, tr, ins, k).value, ins[k - 1].plan);
      && RowShows(tr[k].row0, p.row0, plan.row0)
      && RowShows(tr[k].row1, p.row1, SlotText(plan, tr[k].slot))
      && tr[k].slot < SlotCount(plan)
  {
    if k > 0 {
      PanelShowsPlan(start, tr, ins, k - 1);
      assert Steps(tr, ins, k - 1);
      var (p, f) := (PanelAt(start, tr, ins, k - 1).value, FrameAt(tr, ins, k - 1));
      TickFaithful(tr[k - 1], p, ins[k - 1]);
      assert PanelAt(start, tr, ins, k) == Some(Panel(ApplySpans(p.row0, f.row0), ApplySpans(p.row1, f.row1)));
    }
  }

  // ---- A turn ends only once the whole text has been read ----

  /** Tick `i` left character `c` of the bottom row's text on the panel. */
  ghost predicate Shows(tr: seq<Animator>, i: nat, c: nat)
    requires i + 1 < |tr|
  {
    var a := tr[i + 1].row1.anim;
    a.Some? && c < |a.value.text| && (Scrolls(a.value.text) ==> a.value.offset <= c < a.value.offset + LCD_WIDTH)
  }

  ghost predicate Seen(tr: seq<Animator>, j: nat, k: nat, c: nat)
    requires k < |tr|
  {
    exists i :: j <= i < k && Shows(tr, i, c)
  }

  /** Tick `i` left the tail of a scrolling text on the bottom row. */
  ghost predicate ShowsTail(tr: seq<Animator>, i: nat)
    requires i + 1 < |tr|
  {
    var a := tr[i + 1].row1.anim;
    a.Some? && Scrolls(a.value.text) && a.value.offset == Overflow(a.value.text)
  }

  /** Tick `i` left up the text, in the slot, that went up at tick `j`. */
  ghost predicate InTurn(tr: seq<Animator>, ins: seq<Input>, i: nat, j: nat, text: string, slot: nat)
    requires i + 1 < |tr| && j < |ins|
  {
    var a := tr[i + 1].row1.anim;
    a.Some? && a.value.text == text && a.value.shownAt == ins[j].now && tr[i + 1].slot == slot
  }

  /** How many leading characters have been on the panel in this turn. */
  function Frontier(a: Anim): nat {
    if !Scrolls(a.text) || a.cycleComplete then |a.text| else a.offset + LCD_WIDTH
  }

  /** A turn of the bottom row: it began at tick `start`; if the marquee has reached the
      tail, it did so at tick `tail` and had left it, if it has, by tick `left`. */
  datatype Turn = Turn(start: nat, tail: nat, left: nat)

  /** The tail was up from tick `t.tail` until tick `t.left`, at time `until`, for the end pause. */
  ghost predicate TailHeld(tr: seq<Animator>, ins: seq<Input>, t: Turn, until: nat)
    requires |ins| < |tr| && t.left <= |ins|
  {
    && t.start <= t.tail < t.left && until >= ins[t.tail].now + END_PAUSE
    && forall i :: t.tail <= i < t.left ==> ShowsTail(tr, i)
  }

  /** What is known of the turn in progress after `k` ticks. */
  ghost predicate TurnSoFar(tr: seq<Animator>, ins: seq<Input>, k: nat, t: Turn)
    requires IsRun(tr, ins) && 0 < k <= |ins|
  {
    && t.start < k && tr[k].row1.anim.Some?
    && var a := tr[k].row1.anim.value;
    && InRange(a)
    && (forall i :: t.start <= i < k ==> InTurn(tr, ins, i, t.start, a.text, tr[k].slot))
    && (forall c :: 0 <= c < Frontier(a) ==> Seen(tr, t.start, k, c))
    && (!Scrolls(a.text) && a.cycleComplete ==> ins[k - 1].now >= ins[t.start].now + MIN_SLOT_HOLD)
    && (Scrolls(a.text) && !a.cycleComplete ==> a.offset < Overflow(a.text))
    && (Scrolls(a.text) && a.cycleComplete ==>
         && t.left <= k
         && (t.left < k ==> TailHeld(tr, ins, t, ins[t.left].now))
         && (t.left == k ==> TailHeld(tr, ins, t, a.pauseUntil) && a.offset == Overflow(a.text)))
  }

  /** Tick `k` starts the bottom row over. */
  ghost predicate StartsTurn(s: Animator, i: Input) {
    || Rotates(s, i.plan, i.now) || s.slot >= SlotCount(i.plan)
    || s.row1.anim.None? || s.row1.anim.value.text != SlotText(i.plan, s.slot)
  }

  /** A text that has just gone up. */
  lemma TurnBegins(tr: seq<Animator>, ins: seq<Input>, k: nat)
    requires IsRun(tr, ins) && k < |ins| && Steps(tr, ins, k)
    requires StartsTurn(tr[k], ins[k])
    ensures TurnSoFar(tr, ins, k + 1, Turn(k, k, k))
  {
    var text := SlotText(ins[k].plan, tr[k + 1].slot);
    assert tr[k + 1].row1.anim == Some(Look(NewAnim(text, ins[k].now), ins[k].now).0);
    assert InTurn(tr, ins, k, k, text, tr[k + 1].slot);
    var a := tr[k + 1].row1.anim.value;
    var now := k + 1;
    forall c | 0 <= c < Frontier(a) ensures Seen(tr, k, now, c) {
      assert Shows(tr, k, c);
    }
  }

  lemma SameTurn(tr: seq<Animator>, ins: seq<Input>, k: nat)
    requires IsRun(tr, ins) && k < |ins| && !StartsTurn(tr[k], ins[k])
    ensures tr[k].row1.anim.Some? && InRange(tr[k].row1.anim.value) && tr[k + 1].slot == tr[k].slot
    ensures tr[k + 1].row1.anim == Some(Look(tr[k].row1.anim.value, ins[k].now).0)
  {
    assert Steps(tr, ins, k);
  }

  lemma NextTurn(tr: seq<Animator>, ins: seq<Input>, k: nat)
    requires IsRun(tr, ins) && k < |ins| && Rotates(tr[k], ins[k].plan, ins[k].now)
    ensures tr[k + 1].slot == (tr[k].slot + 1) % SlotCount(ins[k].plan)
  {
    assert Steps(tr, ins, k);
  }

  /** One more tick of the same turn. */
  lemma TurnContinues(tr: seq<Animator>, ins: seq<Input>, k: nat, t: Turn) returns (t': Turn)
    requires IsRun(tr, ins) && 0 < k < |ins|
    requires TurnSoFar(tr, ins, k, t) && !StartsTurn(tr[k], ins[k])
    ensures TurnSoFar(tr, ins, k + 1, t') && t'.start == t.start
  {
    var (a, now) := (tr[k].row1.anim.value, ins[k].now);
    var a' := Look(a, now).0;
    SameTurn(tr, ins, k);
    var (end, slot) := (k + 1, tr[k].slot);
    assert InTurn(tr, ins, k - 1, t.start, a.text, slot);
    forall i | t.start <= i < end ensures InTurn(tr, ins, i, t.start, a.text, slot) {
    }
    forall c | 0 <= c < Frontier(a') ensures Seen(tr, t.start, end, c) {
      if c < Frontier(a) {
        assert Seen(tr, t.start, k, c);
      } else {
        assert Shows(tr, k, c);
      }
    }
    t' := t;
    if Scrolls(a.text) {
      if !a.cycleComplete {
        t' := Turn(t.start, k, k + 1);
      } else if t.left == k && a'.offset == a.offset {
        t' := t.(left := k + 1);
      }
      assert ShowsTail(tr, k) <==> a'.offset == Overflow(a.text);
    }
  }

  lemma {:induction false} TurnHistory(tr: seq<Animator>, ins: seq<Input>, k: nat) returns (t: Turn)
    requires IsRun(tr, ins) && 0 < k <= |ins|
    ensures TurnSoFar(tr, ins, k, t)
  {
    assert Steps(tr, ins, k - 1);
    if StartsTurn(tr[k - 1], ins[k - 1]) {
      TurnBegins(tr, ins, k - 1);
      t := Turn(k - 1, k - 1, k - 1);
    } else {
      t := TurnHistory(tr, ins, k - 1);
      t := TurnContinues(tr, ins, k - 1, t);
    }
  }

  /** Tick `i` left the bottom row of the panel reading `text` from its character `w` on. */
  ghost predicate PanelReads(start: Panel, tr: seq<Animator>, ins: seq<Input>, i: nat, text: string, w: nat)
    requires FullPanel(start) && IsRun(tr, ins) && i < |ins|
  {
    var p := PanelAt(start, tr, ins, i + 1);
    p.Some? && w <= |text| && p.value.row1 == Pad(text[w..])
  }

  /** From tick `j` on and before tick `k` the panel read a part of `text` with character `c` in it. */
  ghost predicate Displayed(start: Panel, tr: seq<Animator>, ins: seq<Input>, j: nat, k: nat, text: string, c: nat)
    requires FullPanel(start) && IsRun(tr, ins) && k <= |ins|
  {
    exists i: nat, w: nat :: j <= i < k && w <= c < w + LCD_WIDTH && PanelReads(start, tr, ins, i, text, w)
  }

  lemma AnimIsOnPanel(start: Panel, tr: seq<Animator>, ins: seq<Input>, i: nat)
    requires FullPanel(start) && IsRun(tr, ins) && i < |ins|
    ensures tr[i + 1].row1.anim.Some?
    ensures var a := tr[i + 1].row1.anim.value;
      PanelReads(start, tr, ins, i, a.text, if Scrolls(a.text) then a.offset else 0)
  {
    PanelShowsPlan(start, tr, ins, i + 1);
    var a := tr[i + 1].row1.anim.value;
    assert Pad(Window(a)) == Pad(a.text[if Scrolls(a.text) then a.offset else 0..]);
  }

  /** What was seen in the animator was displayed on the panel. */
  lemma SeenIsDisplayed(start: Panel, tr: seq<Animator>, ins: seq<Input>, k: nat, t: Turn, text: string, c: nat)
    requires FullPanel(start) && IsRun(tr, ins) && t.start < k <= |ins| && c < |text| && Seen(tr, t.start, k, c)
    requires forall i :: t.start <= i < k ==> InTurn(tr, ins, i, t.start, text, tr[k].slot)
    ensures Displayed(start, tr, ins, t.start, k, text, c)
  {
    var i :| t.start <= i < k && Shows(tr, i, c);
    assert InTurn(tr, ins, i, t.start, text, tr[k].slot);
    AnimIsOnPanel(start, tr, ins, i);
  }

  /** When the bottom row rotates away from a text at tick `k`, then since that text went
      up the panel has displayed every character of it; a short text was displayed whole for
      at least the slot hold, and the tail of a long one for at least the end pause. */
  lemma RotationShowsEverything(start: Panel, tr: seq<Animator>, ins: seq<Input>, k: nat) returns (t: Turn)
    requires FullPanel(start) && IsRun(tr, ins) && 0 < k < |ins|
    requires Rotates(tr[k], ins[k].plan, ins[k].now)
    ensures t.start < k
    ensures var text := SlotText(ins[k - 1].plan, tr[k].slot);
      && (forall i :: t.start <= i < k ==> InTurn(tr, ins, i, t.start, text, tr[k].slot))
      && (forall c :: 0 <= c < |text| ==> Displayed(start, tr, ins, t.start, k, text, c))
      && (!Scrolls(text) ==>
            && ins[k].now >= ins[t.start].now + MIN_SLOT_HOLD
            && forall i :: t.start <= i < k ==> PanelReads(start, tr, ins, i, text, 0))
      && (Scrolls(text) ==>
            && t.start <= t.tail < t.left <= k && ins[t.left].now >= ins[t.tail].now + END_PAUSE
            && forall i :: t.tail <= i < t.left ==> PanelReads(start, tr, ins, i, text, Overflow(text)))
  {
    t := TurnHistory(tr, ins, k);
    PanelShowsPlan(start, tr, ins, k);
    assert ins[k - 1].now <= ins[k].now;
    var text := SlotText(ins[k - 1].plan, tr[k].slot);
    forall c | 0 <= c < |text| ensures Displayed(start, tr, ins, t.start, k, text, c) {
      SeenIsDisplayed(start, tr, ins, k, t, text, c);
    }
    var last := k;
    forall i | t.start <= i < last
      ensures !Scrolls(text) ==> PanelReads(start, tr, ins, i, text, 0)
      ensures Scrolls(text) && ShowsTail(tr, i) ==> PanelReads(start, tr, ins, i, text, Overflow(text))
    {
      assert InTurn(tr, ins, i, t.start, text, tr[k].slot);
      AnimIsOnPanel(start, tr, ins, i);
    }
  }

  // ---- Every turn ends in bounded time, and the slots take turns in order ----

  /** Marquee steps left until the tail shows. */
  function StepsLeft(a: Anim): nat
    requires InRange(a)
  {
    (Overflow(a.text) - a.offset + CHAR_SCROLL_COUNT - 1) / CHAR_SCROLL_COUNT
  }

  /** The time `n` marquee steps take when ticks come at most `d` apart. */
  function StepTime(n: nat, d: nat): nat {
    if n == 0 then 0 else SCROLL_STEP + d + StepTime(n - 1, d)
  }

  lemma {:induction false} StepTimeIs(n: nat, d: nat)
    ensures StepTime(n, d) == n * (SCROLL_STEP + d)
  {
    if n > 0 {
      StepTimeIs(n - 1, d);
    }
  }

  /** The latest time the turn can still be going on, when the last tick was at `last` and
      ticks come at most `d` apart. */
  function Deadline(a: Anim, last: nat, d: nat): int
    requires InRange(a)
  {
    if a.cycleComplete then Max(a.pauseUntil, last) + d
    else if !Scrolls(a.text) then Max(a.shownAt + MIN_SLOT_HOLD, last) + 2 * d
    else Max(Max(a.pauseUntil, a.lastStepAt + SCROLL_STEP), last) + d
         + StepTime(Max(StepsLeft(a), 1) - 1, d) + END_PAUSE + d
  }

  /** How long a turn of `text` can last with ticks at most `d` apart. */
  function TurnBound(text: string, d: nat): nat {
    if !Scrolls(text) then MIN_SLOT_HOLD + 2 * d
    else 2 * END_PAUSE + 2 * d + StepTime((Overflow(text) + CHAR_SCROLL_COUNT - 1) / CHAR_SCROLL_COUNT, d)
  }

  /** The times an animation remembers lie where they can after a tick at `last`. */
  ghost predicate Timely(a: Anim, last: nat) {
    && InRange(a) && a.shownAt <= last && a.lastStepAt <= last
    && a.pauseUntil <= last + (if Scrolls(a.text) then END_PAUSE else 0)
    && (Scrolls(a.text) && !a.cycleComplete ==> a.offset < Overflow(a.text))
  }

  lemma LookTimely(a: Anim, last: nat, now: nat)
    requires Timely(a, last) && last <= now
    ensures Timely(Look(a, now).0, now)
  {
  }

  lemma NewTimely(text: string, now: nat)
    ensures Timely(Look(NewAnim(text, now), now).0, now)
  {
  }

  lemma DeadlineWithinBound(a: Anim, last: nat, d: nat)
    requires Timely(a, last)
    ensures Deadline(a, last, d) <= last + TurnBound(a.text, d)
  {
    if !a.cycleComplete && Scrolls(a.text) {
      var (left, most) := (StepsLeft(a), (Overflow(a.text) + CHAR_SCROLL_COUNT - 1) / CHAR_SCROLL_COUNT);
      assert 1 <= left <= most;
      StepTimeIs(left, d);
      StepTimeIs(most, d);
      MulMonotone(left, most, SCROLL_STEP + d);
    }
  }

  lemma MulMonotone(a: int, b: int, c: nat)
    requires a <= b
    ensures a * c <= b * c
  {
    assert (b - a) * c >= 0;
  }

  /** A tick that does not end the turn does not put its deadline back, and comes before it. */
  lemma DeadlineHolds(a: Anim, last: nat, now: nat, d: nat)
    requires Timely(a, last) && last <= now <= last + d
    requires !(a.cycleComplete && now >= a.pauseUntil)
    ensures var a' := Look(a, now).0;
      Deadline(a', now, d) <= Deadline(a, last, d) && now <= Deadline(a', now, d)
  {
    if Scrolls(a.text) && !a.cycleComplete && MayStep(a, now) {
      StepKeepsDeadline(a, last, now, d);
    }
  }

  /** A marquee step towards the tail uses up its share of the time left. */
  lemma StepKeepsDeadline(a: Anim, last: nat, now: nat, d: nat)
    requires Timely(a, last) && last <= now <= last + d
    requires Scrolls(a.text) && !a.cycleComplete && MayStep(a, now)
    ensures var a' := Look(a, now).0;
      Deadline(a', now, d) <= Deadline(a, last, d) && now <= Deadline(a', now, d)
  {
    var a' := Look(a, now).0;
    assert StepsLeft(a) >= 1;
    if !a'.cycleComplete {
      assert StepsLeft(a') == StepsLeft(a) - 1;
    }
  }

  /** After tick `k-1` the bottom row's animation is timely; its slot exists in the plan. */
  lemma {:induction false} RunTimely(tr: seq<Animator>, ins: seq<Input>, k: nat)
    requires IsRun(tr, ins) && 0 < k <= |ins|
    ensures tr[k].slot < SlotCount(ins[k - 1].plan)
    ensures tr[k].row1.anim.Some? && Timely(tr[k].row1.anim.value, ins[k - 1].now)
    ensures tr[k].row1.anim.value.text == SlotText(ins[k - 1].plan, tr[k].slot)
  {
    assert Steps(tr, ins, k - 1);
    var (s, i) := (tr[k - 1], ins[k - 1]);
    if StartsTurn(s, i) {
      NewTimely(SlotText(i.plan, tr[k].slot), i.now);
    } else {
      RunTimely(tr, ins, k - 1);
      LookTimely(s.row1.anim.value, ins[k - 2].now, i.now);
    }
  }

  /** From tick `from` on the slots are those of `plan`, more than one, and ticks are at most
      `d` apart; the top row may change as it likes. */
  ghost predicate Steady(ins: seq<Input>, from: nat, plan: LcdPlan, d: nat) {
    && |plan.row1Slots| > 1
    && (forall i :: from <= i < |ins| ==> ins[i].plan.row1Slots == plan.row1Slots)
    && (forall i :: from < i < |ins| ==> ins[i].now <= ins[i - 1].now + d)
  }

  ghost function DeadlineAt(tr: seq<Animator>, ins: seq<Input>, k: nat, d: nat): int
    requires IsRun(tr, ins) && 0 < k <= |ins|
    requires tr[k].row1.anim.Some? && InRange(tr[k].row1.anim.value)
  {
    Deadline(tr[k].row1.anim.value, ins[k - 1].now, d)
  }

  /** If time goes past the deadline of the turn in progress, the turn ended before the
      deadline, and the next slot in order took over. */
  lemma {:induction false} TurnEnds(tr: seq<Animator>, ins: seq<Input>, k: nat, plan: LcdPlan, d: nat) returns (m: nat)
    requires IsRun(tr, ins) && 0 < k < |ins| && Steady(ins, k - 1, plan, d)
    requires tr[k].row1.anim.Some? && Timely(tr[k].row1.anim.value, ins[k - 1].now)
    requires ins[|ins| - 1].now > DeadlineAt(tr, ins, k, d)
    ensures k <= m < |ins| && ins[m].now <= DeadlineAt(tr, ins, k, d)
    ensures Rotates(tr[m], plan, ins[m].now)
    ensures forall i :: k <= i <= m ==> tr[i].slot == tr[k].slot
    ensures tr[m + 1].slot == (tr[k].slot + 1) % |plan.row1Slots|
    decreases |ins| - k
  {
    RunTimely(tr, ins, k);
    var a := tr[k].row1.anim.value;
    if Rotates(tr[k], plan, ins[k].now) {
      NextTurn(tr, ins, k);
      m := k;
    } else {
      SameTurn(tr, ins, k);
      DeadlineHolds(a, ins[k - 1].now, ins[k].now, d);
      LookTimely(a, ins[k - 1].now, ins[k].now);
      m := TurnEnds(tr, ins, k + 1, plan, d);
    }
  }

  /** A bound on every turn of the plan. */
  ghost predicate BoundsTurns(plan: LcdPlan, d: nat, bound: nat) {
    forall i :: 0 <= i < |plan.row1Slots| ==> TurnBound(plan.row1Slots[i], d) <= bound
  }

  /** The slot `turns` places further round. */
  function SlotAfter(plan: LcdPlan, slot: nat, turns: nat): nat
    requires plan.row1Slots != []
  {
    (slot + turns) % |plan.row1Slots|
  }

  /** One turn ends within the bound, and the next slot in order takes over. */
  lemma TurnWithin(tr: seq<Animator>, ins: seq<Input>, k: nat, plan: LcdPlan, d: nat, bound: nat) returns (m: nat)
    requires IsRun(tr, ins) && 0 < k < |ins| && Steady(ins, k - 1, plan, d) && BoundsTurns(plan, d, bound)
    requires ins[|ins| - 1].now > ins[k - 1].now + bound
    ensures k < m < |ins| && ins[m - 1].now <= ins[k - 1].now + bound
    ensures tr[k].slot < |plan.row1Slots| && tr[m].slot == SlotAfter(plan, tr[k].slot, 1)
  {
    RunTimely(tr, ins, k);
    DeadlineWithinBound(tr[k].row1.anim.value, ins[k - 1].now, d);
    var n := TurnEnds(tr, ins, k, plan, d);
    m := n + 1;
  }

  /** While the slots stay the same, they are visited in cyclic order, one turn each:
      `turns` turns later, within `turns` times the bound, it is the turn of the slot that
      many places round. */
  lemma {:induction false} SlotsTakeTurns(tr: seq<Animator>, ins: seq<Input>, k: nat, plan: LcdPlan, d: nat,
                                          bound: nat, turns: nat) returns (m: nat)
    requires IsRun(tr, ins) && 0 < k < |ins| && Steady(ins, k - 1, plan, d) && BoundsTurns(plan, d, bound)
    requires ins[|ins| - 1].now > ins[k - 1].now + turns * bound
    ensures k <= m <= |ins| && ins[m - 1].now <= ins[k - 1].now + turns * bound
    ensures tr[m].slot == SlotAfter(plan, tr[k].slot, turns)
    decreases turns
  {
    if turns == 0 {
      RunTimely(tr, ins, k);
      return k;
    }
    OneTurnLess(turns, bound);
    m := TurnWithin(tr, ins, k, plan, d, bound);
    RoundTheSlots(plan, tr[k].slot, turns);
    m := SlotsTakeTurns(tr, ins, m, plan, d, bound, turns - 1);
  }

  lemma OneTurnLess(turns: nat, bound: nat)
    requires turns > 0
    ensures turns * bound == (turns - 1) * bound + bound && (turns - 1) * bound >= 0
  {
    MulMonotone(0, turns - 1, bound);
  }

  lemma RoundTheSlots(plan: LcdPlan, slot: nat, turns: nat)
    requires slot < |plan.row1Slots| && turns > 0
    ensures SlotAfter(plan, SlotAfter(plan, slot, 1), turns - 1) == SlotAfter(plan, slot, turns)
  {
    var n := |plan.row1Slots|;
    if slot + 1 == n {
      QuotientUnique(n, n, 1, 0);
      AddModulus(turns - 1, n);
      assert turns - 1 + n == slot + turns;
    } else {
      QuotientUnique(slot + 1, n, 0, slot + 1);
    }
  }

  lemma AddModulus(x: nat, n: nat)
    requires n > 0
    ensures (x + n) % n == x % n
  {
    assert x + n == n * (x / n + 1) + x % n;
    QuotientUnique(x + n, n, x / n + 1, x % n);
  }

  lemma QuotientUnique(x: nat, n: nat, q: nat, r: nat)
    requires n > 0 && x == n * q + r && r < n
    ensures x % n == r
  {
    var q', r' := x / n, x % n;
    assert n * q' + r' == n * q + r;
    if q' < q {
      MulMonotone(q' + 1, q, n);
    } else if q < q' {
      MulMonotone(q + 1, q', n);
    }
  }

  /** From any slot it is at most one round to any other. */
  lemma TurnsTo(plan: LcdPlan, from: nat, slot: nat) returns (turns: nat)
    requires from < |plan.row1Slots| && slot < |plan.row1Slots|
    ensures turns <= |plan.row1Slots| && SlotAfter(plan, from, turns) == slot
  {
    var n := |plan.row1Slots|;
    if from <= slot {
      turns := slot - from;
      QuotientUnique(from + turns, n, 0, slot);
    } else {
      turns := slot + n - from;
      QuotientUnique(from + turns, n, 1, slot);
    }
  }

  /** Every one of unchanging slots gets its turn within a full round of bounded turns. */
  lemma EverySlotIsVisited(tr: seq<Animator>, ins: seq<Input>, k: nat, plan: LcdPlan, d: nat, bound: nat, slot: nat)
    returns (m: nat)
    requires IsRun(tr, ins) && 0 < k < |ins| && Steady(ins, k - 1, plan, d) && BoundsTurns(plan, d, bound)
    requires slot < |plan.row1Slots|
    requires ins[|ins| - 1].now > ins[k - 1].now + |plan.row1Slots| * bound
    ensures k <= m <= |ins| && tr[m].slot == slot
    ensures ins[m - 1].now <= ins[k - 1].now + |plan.row1Slots| * bound
  {
    RunTimely(tr, ins, k);
    var turns := TurnsTo(plan, tr[k].slot, slot);
    MulMonotone(turns, |plan.row1Slots|, bound);
    m := SlotsTakeTurns(tr, ins, k, plan, d, bound, turns);
  }
}
