/** The cell differ of the character LCD: which runs of cells to rewrite so that
    a row showing `prev` comes to show `next`, and why no cheaper list of writes does. */
module LcdCells {
  import opened Prelude

  /** A run of cells to write, and the column of its first cell. The source
      stores the column in a byte, so it is taken modulo 256. */
  datatype CellSpan = CellSpan(col: nat, text: string)

  // ---- What a list of spans does to a row, and what it costs on the bus ----

  ghost predicate InBounds(s: CellSpan, width: nat) {
    s.col + |s.text| <= width
  }

  ghost predicate AllInBounds(spans: seq<CellSpan>, width: nat) {
    forall k :: 0 <= k < |spans| ==> InBounds(spans[k], width)
  }

  function WriteSpan(row: string, s: CellSpan): (row': string)
    requires InBounds(s, |row|)
    ensures |row'| == |row|
  {
    row[..s.col] + s.text + row[s.col + |s.text|..]
  }

  /** The spans written one after the other, later ones over earlier ones. */
  function ApplySpans(row: string, spans: seq<CellSpan>): (row': string)
    requires AllInBounds(spans, |row|)
    ensures |row'| == |row|
    decreases |spans|
  {
    if spans == [] then row else ApplySpans(WriteSpan(row, spans[0]), spans[1..])
  }

  /** One cursor move and one write per cell, each a full bus transaction. */
  function Cost(spans: seq<CellSpan>): nat {
    if spans == [] then 0 else 1 + |spans[0].text| + Cost(spans[1..])
  }

  // ---- The differ ----

  function RunEnd(prev: string, next: string, i: nat): (e: nat)
    requires |prev| == |next| && i <= |next|
    ensures i <= e <= |next|
    ensures forall k :: i <= k < e ==> prev[k] != next[k]
    ensures e < |next| ==> prev[e] == next[e]
    decreases |next| - i
  {
    if i < |next| && prev[i] != next[i] then RunEnd(prev, next, i + 1) else i
  }

  /** The maximal runs of changed cells from column `i` on, left to right. */
  function SpansFrom(prev: string, next: string, i: nat): seq<CellSpan>
    requires |prev| == |next| && i <= |next|
    decreases |next| - i
  {
    if i == |next| then []
    else if prev[i] == next[i] then SpansFrom(prev, next, i + 1)
    else
      var e := RunEnd(prev, next, i);
      [CellSpan(i % 256, next[i..e])] + SpansFrom(prev, next, e)
  }

  function Changed(prev: string, next: string): seq<CellSpan> {
    if |prev| == |next| then SpansFrom(prev, next, 0) else [CellSpan(0, next)]
  }

  /** The source's single pass: a run being collected is put away at the first
      unchanged cell after it, or at the end of the row. */
  method ChangedSpans(prev: string, next: string) returns (spans: seq<CellSpan>)
    ensures spans == Changed(prev, next)
  {
    if |prev| != |next| {
      return [CellSpan(0, next)];
    }
    spans := [];
    var run: Option<CellSpan> := None;
    ghost var start := 0;
    for i := 0 to |next|
      invariant Collected(prev, next, spans, run, start, i)
    {
      if prev[i] != next[i] {
        CollectsChanged(prev, next, spans, run, start, i);
        if run.None? {
          run := Some(CellSpan(i % 256, []));
        }
        run := Some(CellSpan(run.value.col, run.value.text + [next[i]]));
      } else {
        CollectsSame(prev, next, spans, run, start, i);
        if run.Some? {
          spans := spans + [run.value];
          run := None;
        }
        start := i + 1;
      }
    }
    if run.Some? {
      RunPutAway(prev, next, spans, start, |next|);
      spans := spans + [run.value];
    }
  }

  /** Before column `i`: the runs that end before `start` are put away, and if `start` is not
      `i` itself, the cells from `start` on are changed and in the run being collected. */
  ghost predicate Collected(prev: string, next: string, spans: seq<CellSpan>, run: Option<CellSpan>, start: nat, i: nat)
    requires |prev| == |next|
  {
    && start <= i <= |next| && Changed(prev, next) == spans + SpansFrom(prev, next, start)
    && (run.None? ==> start == i)
    && (run.Some? ==>
          && start < i && run.value == CellSpan(start % 256, next[start..i])
          && prev[start] != next[start] && RunEnd(prev, next, start) == RunEnd(prev, next, i))
  }

  lemma CollectsChanged(prev: string, next: string, spans: seq<CellSpan>, run: Option<CellSpan>, start: nat, i: nat)
    requires |prev| == |next| && Collected(prev, next, spans, run, start, i)
    requires i < |next| && prev[i] != next[i]
    ensures var span := if run.Some? then run.value else CellSpan(i % 256, []);
      Collected(prev, next, spans, Some(CellSpan(span.col, span.text + [next[i]])), start, i + 1)
  {
    SliceExtends(next, start, i);
  }

  lemma CollectsSame(prev: string, next: string, spans: seq<CellSpan>, run: Option<CellSpan>, start: nat, i: nat)
    requires |prev| == |next| && Collected(prev, next, spans, run, start, i)
    requires i < |next| && prev[i] == next[i]
    ensures Collected(prev, next, if run.Some? then spans + [run.value] else spans, None, i + 1, i + 1)
  {
    if run.Some? {
      RunPutAway(prev, next, spans, start, i);
    }
  }

  lemma RunPutAway(prev: string, next: string, spans: seq<CellSpan>, start: nat, e: nat)
    requires |prev| == |next| && start < e <= |next| && prev[start] != next[start] && RunEnd(prev, next, start) == e
    ensures spans + SpansFrom(prev, next, start) ==
      spans + [CellSpan(start % 256, next[start..e])] + SpansFrom(prev, next, e)
  {
    Regroup(spans, [CellSpan(start % 256, next[start..e])], SpansFrom(prev, next, e));
  }

  // ---- Correct ----

  /** The cells below `i` already show `next`; writing the remaining runs fixes the rest. */
  lemma {:induction false} SpansFromComplete(prev: string, next: string, i: nat, row: string)
    requires |prev| == |next| == |row| <= 256 && i <= |next|
    requires row[..i] == next[..i] && row[i..] == prev[i..]
    ensures AllInBounds(SpansFrom(prev, next, i), |row|)
    ensures ApplySpans(row, SpansFrom(prev, next, i)) == next
    decreases |next| - i
  {
    if i == |next| {
      assert row == row[..i] && next == next[..i];
    } else if prev[i] == next[i] {
      assert row[i] == row[i..][0] == prev[i..][0];
      assert row[..i + 1] == row[..i] + [row[i]] && next[..i + 1] == next[..i] + [next[i]];
      assert row[i + 1..] == row[i..][1..] && prev[i + 1..] == prev[i..][1..];
      SpansFromComplete(prev, next, i + 1, row);
    } else {
      var e := RunEnd(prev, next, i);
      var s := CellSpan(i, next[i..e]);
      var row' := WriteSpan(row, s);
      assert row'[..e] == row[..i] + next[i..e] == next[..e];
      assert row'[e..] == row[i..][e - i..] == prev[i..][e - i..] == prev[e..];
      SpansFromComplete(prev, next, e, row');
      assert SpansFrom(prev, next, i)[0] == s;
      assert SpansFrom(prev, next, i)[1..] == SpansFrom(prev, next, e);
    }
  }

  /** Writing the changed runs over `prev` leaves exactly `next`. */
  lemma ChangedComplete(prev: string, next: string)
    requires |prev| == |next| <= 256
    ensures AllInBounds(Changed(prev, next), |next|)
    ensures ApplySpans(prev, Changed(prev, next)) == next
  {
    SpansFromComplete(prev, next, 0, prev);
  }

  ghost predicate MaximalRun(prev: string, next: string, s: CellSpan)
    requires |prev| == |next|
  {
    var end := s.col + |s.text|;
    && s.col < end <= |next| && s.text == next[s.col..end]
    && (forall k :: s.col <= k < end ==> prev[k] != next[k])
    && (s.col > 0 ==> prev[s.col - 1] == next[s.col - 1])
    && (end < |next| ==> prev[end] == next[end])
  }

  ghost predicate MaximalRuns(prev: string, next: string, spans: seq<CellSpan>)
    requires |prev| == |next|
  {
    forall k :: 0 <= k < |spans| ==> MaximalRun(prev, next, spans[k])
  }

  /** Every span is a maximal run of changed cells, with an unchanged cell or the edge on
      both sides: unchanged cells are never bridged. */
  lemma {:induction false} SpansAreMaximalRuns(prev: string, next: string, i: nat)
    requires |prev| == |next| <= 256 && i <= |next|
    requires 0 < i < |next| && prev[i] != next[i] ==> prev[i - 1] == next[i - 1]
    ensures MaximalRuns(prev, next, SpansFrom(prev, next, i))
    decreases |next| - i
  {
    if i < |next| {
      if prev[i] == next[i] {
        SpansAreMaximalRuns(prev, next, i + 1);
      } else {
        var e := RunEnd(prev, next, i);
        var (first, rest) := (CellSpan(i, next[i..e]), SpansFrom(prev, next, e));
        SpansAreMaximalRuns(prev, next, e);
        assert MaximalRun(prev, next, first) by {
          assert first.col + |first.text| == e;
        }
        OneMoreRun(prev, next, first, rest);
        assert SpansFrom(prev, next, i) == [first] + rest by {
          assert i % 256 == i;
        }
      }
    }
  }

  lemma OneMoreRun(prev: string, next: string, first: CellSpan, rest: seq<CellSpan>)
    requires |prev| == |next| && MaximalRun(prev, next, first) && MaximalRuns(prev, next, rest)
    ensures MaximalRuns(prev, next, [first] + rest)
  {
  }

  /** Every changed cell from column `i` on is in one of the spans. */
  lemma {:induction false} ChangesAreCovered(prev: string, next: string, i: nat, k: nat)
    requires |prev| == |next| <= 256 && i <= k < |next| && prev[k] != next[k]
    ensures Covered(SpansFrom(prev, next, i), k)
    decreases |next| - i
  {
    var spans := SpansFrom(prev, next, i);
    if prev[i] == next[i] {
      ChangesAreCovered(prev, next, i + 1, k);
    } else {
      var e := RunEnd(prev, next, i);
      assert spans[1..] == SpansFrom(prev, next, e) && |spans[0].text| == e - i;
      if k >= e {
        ChangesAreCovered(prev, next, e, k);
      }
    }
  }

  // ---- Cheapest ----

  predicate Covers(s: CellSpan, i: nat) {
    s.col <= i < s.col + |s.text|
  }

  predicate Covered(spans: seq<CellSpan>, i: nat)
    decreases |spans|
  {
    spans != [] && (Covers(spans[0], i) || Covered(spans[1..], i))
  }

  /** What a changed cell is charged: its own write, and the cursor move if it opens a run. */
  function Weight(prev: string, next: string, i: nat): nat
    requires |prev| == |next| && i < |next|
  {
    if prev[i] == next[i] then 0 else if i > 0 && prev[i - 1] != next[i - 1] then 1 else 2
  }

  /** The charges of the cells below `k` that `spans` covers. */
  function Charge(prev: string, next: string, spans: seq<CellSpan>, k: nat): nat
    requires |prev| == |next| && k <= |next|
  {
    if k == 0 then 0
    else Charge(prev, next, spans, k - 1) + if Covered(spans, k - 1) then Weight(prev, next, k - 1) else 0
  }

  function TotalWeight(prev: string, next: string, k: nat): nat
    requires |prev| == |next| && k <= |next|
  {
    if k == 0 then 0 else TotalWeight(prev, next, k - 1) + Weight(prev, next, k - 1)
  }

  /** The changed runs cost exactly the total charge. */
  lemma {:induction false} ChangedCost(prev: string, next: string, i: nat)
    requires |prev| == |next| && i <= |next|
    requires 0 < i < |next| && prev[i] != next[i] ==> prev[i - 1] == next[i - 1]
    ensures TotalWeight(prev, next, i) + Cost(SpansFrom(prev, next, i)) == TotalWeight(prev, next, |next|)
    decreases |next| - i
  {
    if i < |next| {
      if prev[i] == next[i] {
        ChangedCost(prev, next, i + 1);
      } else {
        var e := RunEnd(prev, next, i);
        RunWeight(prev, next, i, e);
        ChangedCost(prev, next, e);
        assert SpansFrom(prev, next, i)[1..] == SpansFrom(prev, next, e);
      }
    }
  }

  lemma {:induction false} RunWeight(prev: string, next: string, i: nat, k: nat)
    requires |prev| == |next| && i < k <= |next|
    requires forall j :: i <= j < k ==> prev[j] != next[j]
    requires i > 0 ==> prev[i - 1] == next[i - 1]
    ensures TotalWeight(prev, next, k) == TotalWeight(prev, next, i) + 1 + (k - i)
    decreases k
  {
    if k > i + 1 {
      RunWeight(prev, next, i, k - 1);
    }
  }

  /** A single span is charged at most its own cost: each run it opens after its first
      cell leaves an uncharged gap before it. */
  lemma {:induction false} SpanCharge(prev: string, next: string, s: CellSpan, k: nat)
    requires |prev| == |next| && k <= |next|
    ensures k <= s.col ==> Charge(prev, next, [s], k) == 0
    ensures s.col < k <= s.col + |s.text| ==>
      Charge(prev, next, [s], k) <= k - s.col + if prev[k - 1] != next[k - 1] then 1 else 0
    ensures Charge(prev, next, [s], k) <= 1 + |s.text|
  {
    if k > 0 {
      SpanCharge(prev, next, s, k - 1);
      assert Covered([s], k - 1) == Covers(s, k - 1);
    }
  }

  lemma {:induction false} ChargeSplits(prev: string, next: string, spans: seq<CellSpan>, k: nat)
    requires |prev| == |next| && k <= |next| && spans != []
    ensures Charge(prev, next, spans, k) <=
      Charge(prev, next, [spans[0]], k) + Charge(prev, next, spans[1..], k)
  {
    if k > 0 {
      ChargeSplits(prev, next, spans, k - 1);
      assert Covered([spans[0]], k - 1) == Covers(spans[0], k - 1);
    }
  }

  lemma {:induction false} ChargeWithinCost(prev: string, next: string, spans: seq<CellSpan>)
    requires |prev| == |next|
    ensures Charge(prev, next, spans, |next|) <= Cost(spans)
    decreases |spans|
  {
    if spans == [] {
      NothingCharged(prev, next, |next|);
    } else {
      ChargeSplits(prev, next, spans, |next|);
      SpanCharge(prev, next, spans[0], |next|);
      ChargeWithinCost(prev, next, spans[1..]);
    }
  }

  lemma {:induction false} NothingCharged(prev: string, next: string, k: nat)
    requires |prev| == |next| && k <= |next|
    ensures Charge(prev, next, [], k) == 0
  {
    if k > 0 {
      NothingCharged(prev, next, k - 1);
    }
  }

  lemma {:induction false} UncoveredUnchanged(row: string, spans: seq<CellSpan>, i: nat)
    requires AllInBounds(spans, |row|) && i < |row| && !Covered(spans, i)
    ensures ApplySpans(row, spans)[i] == row[i]
    decreases |spans|
  {
    if spans != [] {
      UncoveredUnchanged(WriteSpan(row, spans[0]), spans[1..], i);
    }
  }

  lemma {:induction false} AllCharged(prev: string, next: string, spans: seq<CellSpan>, k: nat)
    requires |prev| == |next| && k <= |next|
    requires forall i :: 0 <= i < |next| && prev[i] != next[i] ==> Covered(spans, i)
    ensures Charge(prev, next, spans, k) == TotalWeight(prev, next, k)
  {
    if k > 0 {
      AllCharged(prev, next, spans, k - 1);
    }
  }

  /** No list of in-bounds spans, overlapping or not, that turns `prev` into `next` is
      cheaper than the one the differ returns. */
  lemma ChangedIsCheapest(prev: string, next: string, spans: seq<CellSpan>)
    requires |prev| == |next|
    requires AllInBounds(spans, |prev|) && ApplySpans(prev, spans) == next
    ensures Cost(Changed(prev, next)) <= Cost(spans)
  {
    forall i | 0 <= i < |next| && prev[i] != next[i] ensures Covered(spans, i) {
      if !Covered(spans, i) {
        UncoveredUnchanged(prev, spans, i);
      }
    }
    AllCharged(prev, next, spans, |next|);
    ChargeWithinCost(prev, next, spans);
    ChangedCost(prev, next, 0);
  }
}
