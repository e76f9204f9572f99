/** The Sharp memory display driver: dirty lines packed into one transfer, a shadow copy
    committed only when it lands, and a VCOM bit that has to alternate. */
module Sharp {
  import opened Bits
  import opened Drawing
  import opened Prelude
  import opened SharpWire

  datatype FlushResult = Sent(any: bool) | BusError

  // ---- The framebuffer ----

  predicate InPanel(x: int, y: int) {
    0 <= x < WIDTH && 0 <= y < HEIGHT
  }

  /** The foreground colour is black, a clear bit. */
  predicate Black(f: Frame, x: int, y: int)
    requires InPanel(x, y)
  {
    !Bit(f[LineStart(y) + x / 8], x % 8)
  }

  function WithPixel(f: Frame, x: nat, y: nat, black: bool): Frame
    requires InPanel(x, y)
  {
    var idx := LineStart(y) + x / 8;
    f[idx := Assign(f[idx], Mask(x % 8), !black)]
  }

  lemma WithPixelBlack(f: Frame, x: nat, y: nat, black: bool, x': nat, y': nat)
    requires InPanel(x, y) && InPanel(x', y')
    ensures Black(WithPixel(f, x, y, black), x', y') == if x' == x && y' == y then black else Black(f, x', y')
  {
    var idx, idx' := LineStart(y) + x / 8, LineStart(y') + x' / 8;
    if idx == idx' {
      AssignBit(f[idx], x % 8, !black, x' % 8);
    }
  }

  function Solid(black: bool): Frame {
    seq(FRAME_LEN, _ => if black then 0 else 0xFF)
  }

  lemma SolidBlack(black: bool, x: nat, y: nat)
    requires InPanel(x, y)
    ensures Black(Solid(black), x, y) == black
  {
    SolidByte(x % 8);
  }

  // ---- Which lines to send ----

  predicate Dirty(frame: Frame, lastSent: Frame, forceFull: bool, line: nat)
    requires line < HEIGHT
  {
    forceFull || LineData(frame, line) != LineData(lastSent, line)
  }

  /** A line is sent exactly if a repaint is due or some pixel of it is not as it was sent. */
  lemma DirtyMeans(frame: Frame, lastSent: Frame, forceFull: bool, line: nat)
    requires line < HEIGHT
    ensures Dirty(frame, lastSent, forceFull, line) <==>
      forceFull || exists x :: 0 <= x < WIDTH && Black(frame, x, line) != Black(lastSent, x, line)
  {
    if forall x :: 0 <= x < WIDTH ==> Black(frame, x, line) == Black(lastSent, x, line) {
      forall j | 0 <= j < BYTES_PER_LINE ensures LineData(frame, line)[j] == LineData(lastSent, line)[j] {
        var (a, b) := (frame[LineStart(line) + j], lastSent[LineStart(line) + j]);
        forall k: nat | k < 8 ensures Bit(a, k) == Bit(b, k) {
          var x := 8 * j + k;
          assert Black(frame, x, line) == Black(lastSent, x, line) && x / 8 == j && x % 8 == k;
        }
        SameBits(a, b);
      }
    } else {
      var x :| 0 <= x < WIDTH && Black(frame, x, line) != Black(lastSent, x, line);
      assert LineData(frame, line)[x / 8] != LineData(lastSent, line)[x / 8];
    }
  }

  ghost function DirtyMarks(frame: Frame, lastSent: Frame, forceFull: bool): (dirty: seq<bool>)
    ensures |dirty| == HEIGHT && forall line :: 0 <= line < HEIGHT ==>
      dirty[line] == Dirty(frame, lastSent, forceFull, line)
  {
    seq(HEIGHT, line requires 0 <= line < HEIGHT => Dirty(frame, lastSent, forceFull, line))
  }

  lemma {:induction false} EmptyBody(f: Frame, dirty: seq<bool>, end: nat)
    requires |dirty| == HEIGHT && end <= HEIGHT
    ensures Body(f, dirty, end) == [] <==> forall line :: 0 <= line < end ==> !dirty[line]
  {
    if end > 0 {
      EmptyBody(f, dirty, end - 1);
    }
  }

  /** There is nothing to pack exactly when nothing differs and no repaint is due. */
  lemma NothingPacked(frame: Frame, lastSent: Frame, forceFull: bool)
    ensures Body(frame, DirtyMarks(frame, lastSent, forceFull), HEIGHT) == [] <==> !forceFull && lastSent == frame
  {
    EmptyBody(frame, DirtyMarks(frame, lastSent, forceFull), HEIGHT);
    if Body(frame, DirtyMarks(frame, lastSent, forceFull), HEIGHT) == [] {
      assert !Dirty(frame, lastSent, forceFull, 0);
      forall line | 0 <= line < HEIGHT ensures LineData(lastSent, line) == LineData(frame, line) {
        assert !Dirty(frame, lastSent, forceFull, line);
      }
      SameLinesSameFrame(lastSent, frame);
    }
  }

  /** A panel that shows what was last sent shows the frame once it has the dirty lines. */
  lemma DirtyLinesReceived(gram: Frame, frame: Frame, lastSent: Frame, forceFull: bool)
    requires !forceFull ==> gram == lastSent
    ensures WriteLines(gram, DirtyLines(frame, DirtyMarks(frame, lastSent, forceFull), HEIGHT)) == frame
  {
    var dirty := DirtyMarks(frame, lastSent, forceFull);
    DirtyLinesSuffice(gram, frame, dirty, HEIGHT);
    SameLinesSameFrame(WriteLines(gram, DirtyLines(frame, dirty, HEIGHT)), frame);
  }

  // ---- VCOM ----

  /** What became of one transfer the driver attempted. */
  datatype Transfer = Landed(vcom: bool) | FlushFailed | ToggleFailed

  /** The VCOM bit the next transfer will carry. A failed flush leaves it alone; a failed
      toggle has already moved on. */
  ghost function NextVcom(log: seq<Transfer>): bool {
    if log == [] then false
    else
      match log[|log| - 1]
      case Landed(vcom) => !vcom
      case FlushFailed => NextVcom(log[..|log| - 1])
      case ToggleFailed => !NextVcom(log[..|log| - 1])
  }

  ghost predicate Consistent(log: seq<Transfer>) {
    forall i :: 0 <= i < |log| && log[i].Landed? ==> log[i].vcom == NextVcom(log[..i])
  }

  lemma ConsistentExtends(log: seq<Transfer>, t: Transfer)
    requires Consistent(log) && (t.Landed? ==> t.vcom == NextVcom(log))
    ensures Consistent(log + [t])
    ensures NextVcom(log + [t]) == if t.FlushFailed? then NextVcom(log) else !NextVcom(log)
  {
    var log' := log + [t];
    assert log'[..|log|] == log;
    forall i | 0 <= i < |log'| && log'[i].Landed? ensures log'[i].vcom == NextVcom(log'[..i]) {
      assert i < |log| ==> log'[..i] == log[..i];
    }
  }

  ghost function FailedToggles(log: seq<Transfer>, from: nat, to: nat): nat
    requires from <= to <= |log|
  {
    if from == to then 0 else FailedToggles(log, from, to - 1) + if log[to - 1].ToggleFailed? then 1 else 0
  }

  lemma {:induction false} NextVcomAfter(log: seq<Transfer>, i: nat, j: nat)
    requires i < j <= |log| && log[i].Landed?
    requires forall k :: i < k < j ==> !log[k].Landed?
    ensures NextVcom(log[..j]) == (log[i].vcom == (FailedToggles(log, i + 1, j) % 2 == 1))
    decreases j
  {
    assert log[..j][..j - 1] == log[..j - 1];
    if j > i + 1 {
      NextVcomAfter(log, i, j - 1);
    }
  }

  /** Two transfers that reach the panel one after the other carry opposite VCOM bits
      exactly when an even number of VCOM toggles failed in between: always, when none failed. */
  lemma VcomAlternates(log: seq<Transfer>, i: nat, j: nat)
    requires Consistent(log) && i < j < |log| && log[i].Landed? && log[j].Landed?
    requires forall k :: i < k < j ==> !log[k].Landed?
    ensures log[i].vcom != log[j].vcom <==> FailedToggles(log, i + 1, j) % 2 == 0
  {
    NextVcomAfter(log, i, j);
  }

  /** Not always: after a toggle that failed, the next transfer repeats the bit of the one
      before, and the log is one the driver's rule allows. */
  lemma FailedToggleRepeats()
    ensures var log := [Landed(false), ToggleFailed, Landed(false)];
      Consistent(log) && FailedToggles(log, 1, 2) == 1
  {
    ConsistentExtends([], Landed(false));
    ConsistentExtends([Landed(false)], ToggleFailed);
    ConsistentExtends([Landed(false), ToggleFailed], Landed(false));
    assert [] + [Landed(false)] == [Landed(false)];
    assert [Landed(false)] + [ToggleFailed] == [Landed(false), ToggleFailed];
    assert [Landed(false), ToggleFailed] + [Landed(false)] == [Landed(false), ToggleFailed, Landed(false)];
  }

  class Sharp {
    const frame: array<byte>
    const lastSent: array<byte>
    var vcom: bool
    var forceFull: bool
    /** The panel's own memory, and the transfers attempted so far. */
    ghost var gram: Frame
    ghost var log: seq<Transfer>

    predicate Shape() {
      frame.Length == lastSent.Length == FRAME_LEN && frame != lastSent
    }

    ghost predicate Valid() reads this, frame, lastSent {
      && Shape()
      && (!forceFull ==> gram == lastSent[..])
      && Consistent(log) && vcom == NextVcom(log)
    }

    constructor (ghost powerOn: Frame)
      ensures Valid() && fresh(frame) && fresh(lastSent) && gram == powerOn && frame[..] == Solid(false) && log == []
    {
      frame := new byte[FRAME_LEN](_ => 0xFF);
      lastSent := new byte[FRAME_LEN](_ => 0xFF);
      vcom, forceFull, gram, log := false, true, powerOn, [];
    }

    /** Out-of-range coordinates are ignored. */
    method SetPixel(x: nat, y: nat, black: bool)
      requires Valid()
      modifies frame
      ensures Valid()
      ensures frame[..] == if InPanel(x, y) then WithPixel(old(frame[..]), x, y, black) else old(frame[..])
    {
      if x >= WIDTH || y >= HEIGHT {
        return;
      }
      var idx := LineStart(y) + x / 8;
      frame[idx] := Assign(frame[idx], Mask(x % 8), !black);
    }

    method DrawIter(pixels: seq<Pixel>)
      requires Valid()
      modifies frame
      ensures Valid()
      ensures forall x, y :: InPanel(x, y) ==>
        Black(frame[..], x, y) == LastDrawn(pixels, x, y, old(Black(frame[..], x, y)))
    {
      ghost var before := frame[..];
      for i := 0 to |pixels|
        invariant Valid()
        invariant forall x, y :: InPanel(x, y) ==>
          Black(frame[..], x, y) == LastDrawn(pixels[..i], x, y, Black(before, x, y))
      {
        var p := pixels[i];
        ghost var was := frame[..];
        if InPanel(p.x, p.y) {
          SetPixel(p.x, p.y, p.on);
        }
        forall x, y | InPanel(x, y)
          ensures Black(frame[..], x, y) == LastDrawn(pixels[..i + 1], x, y, Black(before, x, y))
        {
          assert pixels[..i + 1][..i] == pixels[..i];
          if InPanel(p.x, p.y) {
            WithPixelBlack(was, p.x, p.y, p.on, x, y);
          }
        }
      }
      assert pixels[..|pixels|] == pixels;
    }

    method Clear(black: bool)
      requires Valid()
      modifies frame
      ensures Valid() && frame[..] == Solid(black)
    {
      forall i | 0 <= i < FRAME_LEN {
        frame[i] := if black then 0 else 0xFF;
      }
    }

    method ClearWhite()
      requires Valid()
      modifies frame, this`forceFull
      ensures Valid() && forceFull && frame[..] == Solid(false)
    {
      Clear(false);
      forceFull := true;
    }

    /** Append one line to the transmit buffer at `p`: address, data, terminator. */
    method PackLine(tx: array<byte>, p: nat, line: nat)
      requires frame.Length == FRAME_LEN && tx != frame && line < HEIGHT && 1 <= p && p + 52 <= tx.Length
      modifies tx
      ensures tx[1..p + 52] == old(tx[1..p]) + LineBytes(frame[..], line)
    {
      ghost var before := tx[1..p];
      tx[p] := ReverseBits(Address(line));
      PackData(tx, p + 1, line);
      tx[p + 51] := 0;
      assert tx[1..p] == tx[..p + 1][1..p] == before;
      assert tx[1..p + 52] == tx[1..p] + [tx[p]] + tx[p + 1..p + 51] + [tx[p + 51]];
    }

    /** The line's data from `p` on, each byte reversed. */
    method PackData(tx: array<byte>, p: nat, line: nat)
      requires frame.Length == FRAME_LEN && tx != frame && line < HEIGHT && p + 50 <= tx.Length
      modifies tx
      ensures tx[..p] == old(tx[..p]) && tx[p..p + 50] == Reversed(LineData(frame[..], line))
    {
      ghost var before, wire := tx[..p], Reversed(LineData(frame[..], line));
      for i := 0 to BYTES_PER_LINE
        invariant tx[..p] == before && tx[p..p + i] == wire[..i]
      {
        ghost var done := tx[p..p + i];
        tx[p + i] := ReverseBits(frame[LineStart(line) + i]);
        assert tx[p..p + i + 1] == done + [wire[i]];
      }
    }

    /** Pack a line if it is dirty, and mark it. */
    method PackIfDirty(tx: array<byte>, dirty: array<bool>, p: nat, line: nat) returns (p': nat)
      requires Shape() && tx.Length == TX_LEN && dirty.Length == HEIGHT && tx != frame && tx != lastSent
      requires line < HEIGHT && 1 <= p <= 1 + 52 * line && !dirty[line]
      modifies tx, dirty
      ensures dirty[..] == old(dirty[..])[line := Dirty(frame[..], lastSent[..], forceFull, line)]
      ensures p' == if dirty[line] then p + 52 else p
      ensures tx[1..p'] == old(tx[1..p]) + if dirty[line] then LineBytes(frame[..], line) else []
    {
      p' := p;
      if Dirty(frame[..], lastSent[..], forceFull, line) {
        dirty[line] := true;
        PackLine(tx, p, line);
        p' := p + 52;
      }
    }

    /** Pack every dirty line; the buffer always has room left for the closing zero. */
    method PackLines(tx: array<byte>, dirty: array<bool>) returns (p: nat, any: bool)
      requires Shape() && tx.Length == TX_LEN && dirty.Length == HEIGHT && tx != frame && tx != lastSent
      requires forall i :: 0 <= i < HEIGHT ==> !dirty[i]
      modifies tx, dirty
      ensures dirty[..] == DirtyMarks(frame[..], lastSent[..], forceFull)
      ensures 1 <= p < TX_LEN && tx[1..p] == Body(frame[..], dirty[..], HEIGHT)
      ensures any <==> p > 1
    {
      p, any := 1, false;
      ghost var f, marks := frame[..], DirtyMarks(frame[..], lastSent[..], forceFull);
      for line := 0 to HEIGHT
        invariant forall i :: 0 <= i < HEIGHT ==> dirty[i] == (i < line && marks[i])
        invariant 1 <= p <= 1 + 52 * line && tx[1..p] == Body(f, marks, line)
        invariant any == (p > 1)
      {
        p := PackIfDirty(tx, dirty, p, line);
        any := any || dirty[line];
      }
    }

    /** Put a transfer on the wire. One that fails lands nothing; one that lands is read
        by the panel. */
    method Transmit(wire: seq<byte>, ghost toggle: bool) returns (ok: bool)
      requires Decode(wire).Some? && Consistent(log) && Decode(wire).value.vcom == NextVcom(log)
      modifies this`gram, this`log
      ensures gram == if ok then Receive(old(gram), Decode(wire).value) else old(gram)
      ensures log == old(log) + [
        if ok then Landed(Decode(wire).value.vcom) else if toggle then ToggleFailed else FlushFailed]
      ensures Consistent(log) && NextVcom(log) == if ok || toggle then !old(NextVcom(log)) else old(NextVcom(log))
    {
      ok := *;
      ghost var packet := Decode(wire).value;
      ghost var outcome := if ok then Landed(packet.vcom) else if toggle then ToggleFailed else FlushFailed;
      ConsistentExtends(log, outcome);
      log := log + [outcome];
      if ok {
        gram := Receive(gram, packet);
      }
    }

    method CommitLines(dirty: array<bool>)
      requires Shape() && dirty.Length == HEIGHT
      requires forall line :: 0 <= line < HEIGHT && !dirty[line] ==>
        LineData(lastSent[..], line) == LineData(frame[..], line)
      modifies lastSent
      ensures lastSent[..] == frame[..]
    {
      for line := 0 to HEIGHT
        invariant forall k :: 0 <= k < HEIGHT && (k < line || !dirty[k]) ==>
          LineData(lastSent[..], k) == LineData(frame[..], k)
      {
        if dirty[line] {
          ghost var was := lastSent[..];
          forall i | LineStart(line) <= i < LineStart(line + 1) {
            lastSent[i] := frame[i];
          }
          forall k | 0 <= k < HEIGHT
            ensures LineData(lastSent[..], k) == LineData(if k == line then frame[..] else was, k)
          {
          }
        }
      }
      SameLinesSameFrame(lastSent[..], frame[..]);
    }

    /** The whole transfer for the dirty lines, if there are any. */
    method Pack() returns (wire: seq<byte>, dirty: array<bool>)
      requires Shape()
      ensures fresh(dirty) && dirty[..] == DirtyMarks(frame[..], lastSent[..], forceFull)
      ensures wire == [] <==> !forceFull && lastSent[..] == frame[..]
      ensures wire != [] ==> wire == Packed(frame[..], dirty[..], vcom)
    {
      var tx := new byte[TX_LEN](_ => 0);
      dirty := new bool[HEIGHT](_ => false);
      var p, any := PackLines(tx, dirty);
      NothingPacked(frame[..], lastSent[..], forceFull);
      if !any {
        return [], dirty;
      }
      tx[0] := ReverseBits(Mode(true, vcom));
      tx[p] := 0;
      wire := tx[..p + 1];
      assert wire == [tx[0]] + tx[1..p] + [tx[p]];
    }

    /** Send the dirty lines as one transfer, and only if it lands flip VCOM and record the
        lines as sent. Nothing differing means nothing sent. */
    method Flush() returns (r: FlushResult, ghost wire: seq<byte>)
      requires Valid()
      modifies this, lastSent
      ensures Valid()
      ensures r.Sent? ==> gram == frame[..] && !forceFull
      ensures r == Sent(false) <==> !old(forceFull) && old(lastSent[..]) == frame[..]
      ensures r == Sent(false) ==> wire == [] && log == old(log) && vcom == old(vcom)
      ensures r != Sent(false) ==>
        |wire| <= TX_LEN && Decode(wire) ==
        Some(Packet(true, old(vcom),
          DirtyLines(frame[..], DirtyMarks(frame[..], old(lastSent[..]), old(forceFull)), HEIGHT)))
      ensures r == Sent(true) ==> vcom == !old(vcom) && log == old(log) + [Landed(old(vcom))]
      ensures r == BusError ==> vcom == old(vcom) && log == old(log) + [FlushFailed] && gram == old(gram)
    {
      var packed, dirty := Pack();
      wire := packed;
      if packed == [] {
        return Sent(false), wire;
      }
      PackedRoundTrip(frame[..], dirty[..], vcom);
      DirtyLinesReceived(gram, frame[..], lastSent[..], forceFull);
      var ok := Transmit(packed, false);
      if !ok {
        return BusError, wire;
      }
      vcom, forceFull := !vcom, false;
      CommitLines(dirty);
      r := Sent(true);
    }

    /** Keep VCOM alternating without line data. The bit is flipped even if the transfer fails. */
    method ToggleVcom() returns (ok: bool)
      requires Valid()
      modifies this`vcom, this`gram, this`log
      ensures Valid() && gram == old(gram) && vcom == !old(vcom)
      ensures log == old(log) + [if ok then Landed(old(vcom)) else ToggleFailed]
    {
      var tx := [ReverseBits(Mode(false, vcom)), 0];
      IdleRoundTrip(vcom);
      vcom := !vcom;
      ok := Transmit(tx, true);
    }
  }

  // ---- Whole runs ----

  datatype Op = Flush | Toggle

  ghost predicate Holds(f: Frame, drawings: seq<Drawing>) {
    forall x, y :: InPanel(x, y) ==> Black(f, x, y) == LastColour(drawings, x, y)
  }

  method DoPaint(t: Sharp, drawing: Drawing, ghost drawn: seq<Drawing>)
    requires t.Valid() && Holds(t.frame[..], drawn)
    modifies t.frame, t`forceFull
    ensures t.Valid() && Holds(t.frame[..], drawn + [drawing])
  {
    match drawing
    case Draw(pixels) => t.DrawIter(pixels);
    case Clear(on) => t.Clear(on);
    case ClearFrame => t.ClearWhite();
    forall x, y | InPanel(x, y) ensures Black(t.frame[..], x, y) == LastColour(drawn + [drawing], x, y) {
      LastColourExtends(drawn, drawing, x, y);
      SolidBlack(true, x, y);
      SolidBlack(false, x, y);
    }
  }

  /** Through any run of drawing calls, flushes and VCOM toggles, any transfer of which may
      fail: the VCOM bits that reached the panel follow the log's rule, and after a flush
      that succeeded every pixel of the panel is as it was last drawn. */
  method Run(ghost powerOn: Frame, steps: seq<Step<Op>>) returns (t: Sharp, last: FlushResult)
    ensures t.Valid() && Holds(t.frame[..], Drawings(steps)) && Consistent(t.log)
    ensures steps != [] && steps[|steps| - 1] == Do(Flush) && last.Sent? ==> Holds(t.gram, Drawings(steps))
  {
    t := new Sharp(powerOn);
    last := Sent(false);
    ghost var drawn: seq<Drawing> := [];
    forall x, y | InPanel(x, y) ensures Black(t.frame[..], x, y) == LastColour([], x, y) {
      SolidBlack(false, x, y);
    }
    for i := 0 to |steps|
      invariant fresh(t) && fresh(t.frame) && fresh(t.lastSent)
      invariant t.Valid() && Holds(t.frame[..], drawn) && drawn == Drawings(steps[..i])
      invariant 0 < i && steps[i - 1] == Do(Flush) && last.Sent? ==> t.gram == t.frame[..]
    {
      DrawingsExtend(steps, i);
      match steps[i]
      case Paint(drawing) =>
        DoPaint(t, drawing, drawn);
        drawn := drawn + [drawing];
      case Do(Toggle) => var _ := t.ToggleVcom();
      case Do(Flush) =>
        ghost var wire;
        last, wire := t.Flush();
    }
    assert steps[..|steps|] == steps;
  }
}
