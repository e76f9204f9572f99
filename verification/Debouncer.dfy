/** The push button's integrating debouncer: a clamped charge counter, and the statement
    about running sums of the samples that it implements. */
module Debouncer {
  import opened Prelude

  const PRESS_MS: nat := 12
  const MAX_STEP_MS: nat := 6
  const U32_MAX: nat := 0xFFFF_FFFF

  datatype Verdict = Idle | Pressed | Released | Glitch

  /** One reading of the pin, and the time since the reading before it. */
  datatype Sample = Sample(isLow: bool, elapsedMs: nat)

  datatype Filter = Filter(chargeMs: nat, pressed: bool)

  function Charged(charge: nat, s: Sample): nat {
    var step := Min(s.elapsedMs, MAX_STEP_MS);
    if s.isLow then Min(charge + step, PRESS_MS) else if charge >= step then charge - step else 0
  }

  function Sampled(f: Filter, s: Sample): (Filter, Verdict) {
    var charge := Charged(f.chargeMs, s);
    if !f.pressed && charge >= PRESS_MS then (Filter(charge, true), Pressed)
    else if charge == 0 then (Filter(charge, f.pressed), if f.pressed then Released else Glitch)
    else (Filter(charge, f.pressed), Idle)
  }

  class Debouncer {
    var chargeMs: nat
    var pressed: bool
    var samples: nat
    var peakChargeMs: nat
    var elapsedMs: nat
    var lastLowMs: nat

    function Value(): Filter reads this { Filter(chargeMs, pressed) }

    constructor ()
      ensures Value() == Filter(0, false) && samples == elapsedMs == peakChargeMs == lastLowMs == 0
    {
      chargeMs, pressed, samples, peakChargeMs, elapsedMs, lastLowMs := 0, false, 0, 0, 0, 0;
    }

    /** The counters are 32 bits wide and are not allowed to overflow. */
    method Feed(isLow: bool, elapsedMs: nat) returns (v: Verdict)
      requires samples < U32_MAX && this.elapsedMs + elapsedMs <= U32_MAX
      modifies this
      ensures (Value(), v) == Sampled(old(Value()), Sample(isLow, elapsedMs))
      ensures samples == old(samples) + 1 && this.elapsedMs == old(this.elapsedMs) + elapsedMs
      ensures lastLowMs == if isLow then this.elapsedMs else old(lastLowMs)
      ensures peakChargeMs == if isLow && chargeMs > old(peakChargeMs) then chargeMs else old(peakChargeMs)
    {
      var step := Min(elapsedMs, MAX_STEP_MS);
      samples := samples + 1;
      this.elapsedMs := this.elapsedMs + elapsedMs;
      if isLow {
        lastLowMs := this.elapsedMs;
      }
      if isLow {
        chargeMs := Min(chargeMs + step, PRESS_MS);
        peakChargeMs := if peakChargeMs >= chargeMs then peakChargeMs else chargeMs;
      } else {
        chargeMs := if chargeMs >= step then chargeMs - step else 0;
      }
      if !pressed && chargeMs >= PRESS_MS {
        pressed := true;
        return Pressed;
      }
      if chargeMs == 0 {
        return if pressed then Released else Glitch;
      }
      v := Idle;
    }
  }

  // ---- The specification: sums of signed, capped steps ----

  function Signed(s: Sample): int {
    var step: int := Min(s.elapsedMs, MAX_STEP_MS);
    if s.isLow then step else -step
  }

  /** Net low time over the first `k` samples. */
  function Sum(samples: seq<Sample>, k: nat): int
    requires k <= |samples|
  {
    if k == 0 then 0 else Sum(samples, k - 1) + Signed(samples[k - 1])
  }

  /** The highest net low time reached after any of the first `from` to `k` samples. */
  function Highest(samples: seq<Sample>, from: nat, k: nat): int
    requires from <= k <= |samples|
    decreases k
  {
    if k == from then Sum(samples, k) else
      var before := Highest(samples, from, k - 1);
      if before >= Sum(samples, k) then before else Sum(samples, k)
  }

  function After(samples: seq<Sample>, k: nat): Filter
    requires k <= |samples|
  {
    if k == 0 then Filter(0, false) else Sampled(After(samples, k - 1), samples[k - 1]).0
  }

  function VerdictOf(samples: seq<Sample>, k: nat): Verdict
    requires k < |samples|
  {
    Sampled(After(samples, k), samples[k]).1
  }

  ghost predicate IdleFrom(samples: seq<Sample>, from: nat, to: nat)
    requires to <= |samples|
  {
    forall i :: from <= i < to ==> VerdictOf(samples, i) == Idle
  }

  lemma {:induction false} ChargeIsSum(samples: seq<Sample>, k: nat)
    requires k <= |samples| && IdleFrom(samples, 0, k)
    ensures !After(samples, k).pressed && After(samples, k).chargeMs == Sum(samples, k)
    ensures k > 0 ==> 0 < Sum(samples, k) < PRESS_MS
  {
    if k > 0 {
      assert VerdictOf(samples, k - 1) == Idle;
      ChargeIsSum(samples, k - 1);
    }
  }

  /** While nothing has been decided, the next sample is a press exactly when the net low
      time reaches the threshold, and a glitch exactly when it is used up. */
  lemma FirstVerdict(samples: seq<Sample>, k: nat)
    requires k < |samples| && IdleFrom(samples, 0, k)
    ensures VerdictOf(samples, k) == Pressed <==> Sum(samples, k + 1) >= PRESS_MS
    ensures VerdictOf(samples, k) == Glitch <==> Sum(samples, k + 1) <= 0
    ensures VerdictOf(samples, k) != Released
  {
    ChargeIsSum(samples, k);
  }

  /** The first sample that decides anything, told from the sums alone. */
  lemma {:induction false} IdleWhileBetween(samples: seq<Sample>, k: nat)
    requires k <= |samples|
    ensures IdleFrom(samples, 0, k) <==> forall j :: 1 <= j <= k ==> 0 < Sum(samples, j) < PRESS_MS
  {
    if k > 0 {
      IdleWhileBetween(samples, k - 1);
      if IdleFrom(samples, 0, k - 1) {
        FirstVerdict(samples, k - 1);
      }
    }
  }

  /** A press counts down from the highest net low time since it was confirmed. */
  lemma {:induction false} ChargeIsDrop(samples: seq<Sample>, press: nat, k: nat)
    requires press < k <= |samples|
    requires IdleFrom(samples, 0, press) && VerdictOf(samples, press) == Pressed && IdleFrom(samples, press + 1, k)
    ensures After(samples, k).pressed
    ensures var drop := Highest(samples, press + 1, k) - Sum(samples, k);
      0 <= drop < PRESS_MS && After(samples, k).chargeMs == PRESS_MS - drop
    decreases k
  {
    if k == press + 1 {
      ChargeIsSum(samples, press);
    } else {
      assert VerdictOf(samples, k - 1) == Idle;
      ChargeIsDrop(samples, press, k - 1);
    }
  }

  /** After a confirmed press the release comes exactly at the first sample where the net
      low time has dropped by the threshold from its highest. */
  lemma ReleaseVerdict(samples: seq<Sample>, press: nat, k: nat)
    requires press < k < |samples|
    requires IdleFrom(samples, 0, press) && VerdictOf(samples, press) == Pressed && IdleFrom(samples, press + 1, k)
    ensures VerdictOf(samples, k) == Released <==> Highest(samples, press + 1, k + 1) - Sum(samples, k + 1) >= PRESS_MS
    ensures VerdictOf(samples, k) == Released || VerdictOf(samples, k) == Idle
  {
    ChargeIsDrop(samples, press, k);
  }

  /** A press is reported at most once, however long the excursion is sampled. */
  lemma {:induction false} PressedOnce(samples: seq<Sample>, i: nat, j: nat)
    requires i < j < |samples| && VerdictOf(samples, i) == Pressed
    ensures VerdictOf(samples, j) != Pressed && After(samples, j).pressed
    decreases j
  {
    if j > i + 1 {
      PressedOnce(samples, i, j - 1);
    }
  }

  ghost function Lows(samples: seq<Sample>, k: nat): nat
    requires k <= |samples|
  {
    if k == 0 then 0 else Lows(samples, k - 1) + if samples[k - 1].isLow then 1 else 0
  }

  lemma {:induction false} ChargeNeedsLows(samples: seq<Sample>, k: nat)
    requires k <= |samples|
    ensures After(samples, k).chargeMs <= MAX_STEP_MS * Lows(samples, k)
  {
    if k > 0 {
      ChargeNeedsLows(samples, k - 1);
    }
  }

  /** No single sample, however late, confirms a press: it takes two low ones, and the last
      of them confirms it. */
  lemma PressNeedsTwoLows(samples: seq<Sample>, k: nat)
    requires k < |samples| && VerdictOf(samples, k) == Pressed
    ensures Lows(samples, k + 1) >= 2 && samples[k].isLow
  {
    var charge := After(samples, k).chargeMs;
    UnpressedBelow(samples, k);
    assert charge < PRESS_MS <= Charged(charge, samples[k]);
    ChargeNeedsLows(samples, k);
    assert Lows(samples, k + 1) == Lows(samples, k) + 1;
  }

  lemma {:induction false} UnpressedBelow(samples: seq<Sample>, k: nat)
    requires k <= |samples| && !After(samples, k).pressed
    ensures After(samples, k).chargeMs < PRESS_MS
  {
    if k > 0 {
      UnpressedBelow(samples, k - 1);
    }
  }
}
