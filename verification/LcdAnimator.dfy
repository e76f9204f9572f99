/** The animator itself: rows and marquees updated in place, each method held to the
    function in LcdModel that says what it does. */
module LcdAnimator {
  import opened LcdCells
  import opened LcdModel
  import opened Prelude

  method PadToWidth(s: string) returns (out: string)
    ensures out == Pad(s)
  {
    out := if |s| <= LCD_WIDTH then s else s[..LCD_WIDTH];
    for n := |out| to LCD_WIDTH
      invariant |out| == n
      invariant forall c :: 0 <= c < n ==> out[c] == if c < |s| then s[c] else ' '
    {
      out := out + [' '];
    }
  }

  class RowAnim {
    const text: string
    var offset: nat
    var lastStepAt: nat
    var pauseUntil: nat
    var shownAt: nat
    var cycleComplete: bool

    function Value(): Anim reads this {
      Anim(text, offset, lastStepAt, pauseUntil, shownAt, cycleComplete)
    }

    constructor (text: string, now: nat)
      ensures Value() == NewAnim(text, now)
    {
      this.text := text;
      offset, lastStepAt, pauseUntil, shownAt, cycleComplete := 0, now, now + END_PAUSE, now, false;
    }

    /** The window visible at `now`, and whether the marquee moved to get there. Both
        subtractions of the clock are defined: the clock has not run back. */
    method VisibleWindow(now: nat) returns (visible: string, stepped: bool)
      requires InRange(Value())
      requires shownAt <= now && lastStepAt <= now
      modifies this
      ensures (Value(), stepped) == Look(old(Value()), now)
      ensures visible == Window(Value())
    {
      var len := |text|;
      if len <= LCD_WIDTH {
        offset, lastStepAt, pauseUntil := 0, now, now;
        if now - shownAt >= MIN_SLOT_HOLD {
          cycleComplete := true;
        }
        return text, true;
      }
      var overflow := len - LCD_WIDTH;
      stepped := false;
      if now >= pauseUntil && now - lastStepAt >= SCROLL_STEP {
        lastStepAt := now;
        stepped := true;
        if offset < overflow {
          offset := Min(offset + CHAR_SCROLL_COUNT, overflow);
          if offset >= overflow {
            pauseUntil := now + END_PAUSE;
            cycleComplete := true;
          }
        } else {
          offset := 0;
          pauseUntil := now + END_PAUSE;
        }
      }
      visible := text[offset..offset + LCD_WIDTH];
    }
  }

  class RowState {
    var anim: RowAnim?
    var lastRendered: Option<string>

    ghost function Repr(): set<object> reads this {
      if anim == null then {this} else {this, anim}
    }

    function Value(): Row reads this, Repr() {
      Row(if anim == null then None else Some(anim.Value()), lastRendered)
    }

    /** No clock stored in the row is ahead of `now`. */
    predicate ClockReached(now: nat) reads this, Repr() {
      anim != null ==> anim.shownAt <= now && anim.lastStepAt <= now
    }

    constructor ()
      ensures Value() == Row(None, None) && fresh(Repr())
    {
      anim, lastRendered := null, None;
    }

    method Advance(text: string, now: nat) returns (spans: seq<CellSpan>)
      requires RowInRange(Value()) && ClockReached(now)
      modifies Repr()
      ensures (Value(), spans) == LcdModel.Advance(old(Value()), text, now)
      ensures RowInRange(Value()) && ClockReached(now)
      ensures fresh(Repr() - old(Repr()))
    {
      var textChanged := anim == null || anim.text != text;
      if textChanged {
        anim := new RowAnim(text, now);
      }
      var visible, stepped := anim.VisibleWindow(now);
      if Scrolls(text) && !textChanged && !stepped {
        return [];
      }
      var rendered := PadToWidth(visible);
      if lastRendered.Some? {
        spans := ChangedSpans(lastRendered.value, rendered);
      } else {
        spans := [CellSpan(0, rendered)];
      }
      lastRendered := Some(rendered);
    }

    method Restart()
      modifies this
      ensures Value() == old(Value()).(anim := None) && Repr() == {this}
    {
      anim := null;
    }
  }

  class LcdAnimator {
    const row0: RowState
    const row1: RowState
    var slot: nat

    ghost function Repr(): set<object> reads this, row0, row1 {
      {this} + row0.Repr() + row1.Repr()
    }

    ghost predicate Separate() reads this, row0, row1 {
      row0.Repr() !! row1.Repr() && this !in row0.Repr() && this !in row1.Repr()
    }

    function Value(): Animator reads this, row0, row0.Repr(), row1, row1.Repr() {
      Animator(row0.Value(), row1.Value(), slot)
    }

    ghost predicate Valid(now: nat) reads this, row0, row0.Repr(), row1, row1.Repr() {
      Separate() && AnimatorInRange(Value()) && row0.ClockReached(now) && row1.ClockReached(now)
    }

    constructor ()
      ensures Value() == INITIAL && Valid(0) && fresh(Repr())
    {
      row0 := new RowState();
      row1 := new RowState();
      slot := 0;
    }

    /** Pick the slot whose turn it is, restarting the row when the slot changes. */
    method ChooseSlot(plan: LcdPlan, now: nat)
      requires Valid(now)
      modifies this, row1
      ensures Value() == old(Animator(row0.Value(), Restarted(Value(), plan, now), NextSlot(Value(), plan, now)))
      ensures Valid(now) && Repr() <= old(Repr())
      ensures row0.Repr() == old(row0.Repr())
    {
      var slots := if |plan.row1Slots| > 1 then |plan.row1Slots| else 1;
      var done := row1.anim != null && row1.anim.cycleComplete && now >= row1.anim.pauseUntil;
      if slots > 1 && done {
        slot := (slot + 1) % slots;
        row1.Restart();
      } else if slot >= slots {
        slot := slots - 1;
        row1.Restart();
      }
    }

    /** Advance both rows. */
    method Render(row0Text: string, row1Text: string, now: nat) returns (frame: LcdFrame)
      requires Valid(now)
      modifies row0.Repr(), row1.Repr()
      ensures (row0.Value(), frame.row0) == old(LcdModel.Advance(row0.Value(), row0Text, now))
      ensures (row1.Value(), frame.row1) == old(LcdModel.Advance(row1.Value(), row1Text, now))
      ensures slot == old(slot)
      ensures Valid(now) && fresh(Repr() - old(Repr()))
    {
      var spans0 := row0.Advance(row0Text, now);
      assert row1.Value() == old(row1.Value());
      label First:
      var spans1 := row1.Advance(row1Text, now);
      assert row0.Value() == old@First(row0.Value());
      frame := LcdFrame(spans0, spans1);
    }

    method Tick(plan: LcdPlan, now: nat) returns (frame: LcdFrame)
      requires Valid(now)
      modifies Repr()
      ensures (Value(), frame) == LcdModel.Tick(old(Value()), plan, now)
      ensures Valid(now) && fresh(Repr() - old(Repr()))
    {
      ChooseSlot(plan, now);
      var row1Text := if slot < |plan.row1Slots| then plan.row1Slots[slot] else "";
      frame := Render(plan.row0, row1Text, now);
    }
  }
}
