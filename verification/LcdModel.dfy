/** The animator of the character LCD as a function of its inputs: how a row's marquee
    moves, which slot the bottom row shows, and which cells a tick writes. Times are
    milliseconds. */
module LcdModel {
  import opened LcdCells
  import opened Prelude

  const LCD_WIDTH: nat := 16
  const MIN_SLOT_HOLD: nat := 3000
  const SCROLL_STEP: nat := 350
  const CHAR_SCROLL_COUNT: nat := 3
  const END_PAUSE: nat := 1200

  datatype LcdPlan = LcdPlan(row0: string, row1Slots: seq<string>)

  datatype LcdFrame = LcdFrame(row0: seq<CellSpan>, row1: seq<CellSpan>)

  datatype Anim = Anim(text: string, offset: nat, lastStepAt: nat, pauseUntil: nat, shownAt: nat, cycleComplete: bool)

  datatype Row = Row(anim: Option<Anim>, lastRendered: Option<string>)

  datatype Animator = Animator(row0: Row, row1: Row, slot: nat)

  function Scrolls(text: string): bool {
    |text| > LCD_WIDTH
  }

  function Overflow(text: string): nat {
    if Scrolls(text) then |text| - LCD_WIDTH else 0
  }

  /** The offset stays where a full window of a scrolling text fits. */
  predicate InRange(a: Anim) {
    a.offset <= Overflow(a.text)
  }

  function Pad(s: string): (out: string)
    ensures |out| == LCD_WIDTH
    ensures forall c :: 0 <= c < LCD_WIDTH ==> out[c] == if c < |s| then s[c] else ' '
  {
    if |s| >= LCD_WIDTH then s[..LCD_WIDTH] else s + seq(LCD_WIDTH - |s|, _ => ' ')
  }

  function NewAnim(text: string, now: nat): Anim {
    Anim(text, 0, now, now + END_PAUSE, now, false)
  }

  /** The part of the text the panel is to show. */
  function Window(a: Anim): string
    requires InRange(a)
  {
    if Scrolls(a.text) then a.text[a.offset..a.offset + LCD_WIDTH] else a.text
  }

  predicate MayStep(a: Anim, now: nat) {
    now >= a.pauseUntil && now >= a.lastStepAt + SCROLL_STEP
  }

  /** One look at the animation: its next state, and whether there is something to redraw. */
  function Look(a: Anim, now: nat): (r: (Anim, bool))
    requires InRange(a)
    ensures InRange(r.0) && r.0.text == a.text && r.0.shownAt == a.shownAt
  {
    if !Scrolls(a.text) then
      (a.(offset := 0, lastStepAt := now, pauseUntil := now,
          cycleComplete := a.cycleComplete || now >= a.shownAt + MIN_SLOT_HOLD), true)
    else if !MayStep(a, now) then (a, false)
    else if a.offset < Overflow(a.text) then
      var to := Min(a.offset + CHAR_SCROLL_COUNT, Overflow(a.text));
      if to == Overflow(a.text)
      then (a.(lastStepAt := now, offset := to, pauseUntil := now + END_PAUSE, cycleComplete := true), true)
      else (a.(lastStepAt := now, offset := to), true)
    else (a.(lastStepAt := now, offset := 0, pauseUntil := now + END_PAUSE), true)
  }

  function AnimFor(r: Row, text: string, now: nat): Anim {
    if r.anim.Some? && r.anim.value.text == text then r.anim.value else NewAnim(text, now)
  }

  predicate RowInRange(r: Row) {
    r.anim.Some? ==> InRange(r.anim.value)
  }

  function Advance(r: Row, text: string, now: nat): (Row, seq<CellSpan>)
    requires RowInRange(r)
  {
    var kept := r.anim.Some? && r.anim.value.text == text;
    var (a, redraw) := Look(AnimFor(r, text, now), now);
    if Scrolls(text) && kept && !redraw then (Row(Some(a), r.lastRendered), [])
    else
      var rendered := Pad(Window(a));
      (Row(Some(a), Some(rendered)),
       if r.lastRendered.Some? then Changed(r.lastRendered.value, rendered) else [CellSpan(0, rendered)])
  }

  predicate CycleDone(r: Row, now: nat) {
    r.anim.Some? && r.anim.value.cycleComplete && now >= r.anim.value.pauseUntil
  }

  function SlotCount(plan: LcdPlan): nat {
    if plan.row1Slots == [] then 1 else |plan.row1Slots|
  }

  /** The bottom row's turn is over at this tick. */
  predicate Rotates(s: Animator, plan: LcdPlan, now: nat) {
    SlotCount(plan) > 1 && CycleDone(s.row1, now)
  }

  function NextSlot(s: Animator, plan: LcdPlan, now: nat): nat {
    if Rotates(s, plan, now) then (s.slot + 1) % SlotCount(plan)
    else if s.slot >= SlotCount(plan) then SlotCount(plan) - 1
    else s.slot
  }

  function Restarted(s: Animator, plan: LcdPlan, now: nat): Row {
    if Rotates(s, plan, now) || s.slot >= SlotCount(plan) then s.row1.(anim := None) else s.row1
  }

  function SlotText(plan: LcdPlan, slot: nat): string {
    if slot < |plan.row1Slots| then plan.row1Slots[slot] else ""
  }

  predicate AnimatorInRange(s: Animator) {
    RowInRange(s.row0) && RowInRange(s.row1)
  }

  function Tick(s: Animator, plan: LcdPlan, now: nat): (Animator, LcdFrame)
    requires AnimatorInRange(s)
  {
    var slot := NextSlot(s, plan, now);
    var (row0, spans0) := Advance(s.row0, plan.row0, now);
    var (row1, spans1) := Advance(Restarted(s, plan, now), SlotText(plan, slot), now);
    (Animator(row0, row1, slot), LcdFrame(spans0, spans1))
  }

  const INITIAL: Animator := Animator(Row(None, None), Row(None, None), 0)
}
