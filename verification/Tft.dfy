/** The colour TFT driver: a one-bit framebuffer expanded to RGB565 as it is flushed,
    diffed by row against what was last sent, over a bus that can fail. */
module Tft {
  import opened Bits
  import opened Drawing

  const WIDTH: nat := 320
  const HEIGHT: nat := 240
  const FRAME_LEN: nat := 9600

  /** Where row `y` starts in the frame: rows are 320 / 8 = 40 bytes. */
  function RowStart(y: nat): nat { 40 * y }

  /** RGB565, sixteen bits. */
  type Colour = c: int | 0 <= c < 0x1_0000

  /** A byte on the bus, as a number. */
  type Octet = b: int | 0 <= b < 256

  datatype Palette = Palette(ink: Colour, paper: Colour)

  /** Rows `first` to `end - 1`, sent as one addressed transfer. */
  datatype Window = Window(first: nat, end: nat)

  datatype FlushResult = Sent(any: bool) | BusError

  type Line = row: seq<Colour> | |row| == WIDTH witness seq<Colour>(WIDTH, _ => 0)

  const BLANK: Line := seq<Colour>(WIDTH, _ => 0)

  type Gram = rows: seq<Line> | |rows| == HEIGHT witness seq<Line>(HEIGHT, _ => BLANK)

  // ---- What the panel does with a transfer ----

  function HighByte(c: Colour): Octet { c / 256 }

  function LowByte(c: Colour): Octet { c % 256 }

  function Join(high: Octet, low: Octet): Colour { 256 * (high as int) + low }

  lemma JoinSplit(c: Colour)
    ensures Join(HighByte(c), LowByte(c)) == c
  {
  }

  /** A scanline of the panel, read from the bytes sent for it, high byte first. */
  ghost function Decoded(bytes: seq<Octet>): Line
    requires |bytes| == 2 * WIDTH
  {
    seq(WIDTH, x requires 0 <= x < WIDTH => Join(bytes[2 * x], bytes[2 * x + 1]))
  }

  /** What the panel controller has been told: the window of columns and rows to write, and
      the row the next scanline of data goes to. */
  datatype Address = Address(x0: nat, x1: nat, y0: nat, y1: nat, row: nat)

  const CMD_CASET: Octet := 0x2A
  const CMD_RASET: Octet := 0x2B
  const CMD_RAMWR: Octet := 0x2C

  /** An addressing command and its four argument bytes: two numbers, high byte first. */
  function SetWindow(at: Address, code: Octet, h0: Octet, l0: Octet, h1: Octet, l1: Octet): Address {
    if code == CMD_CASET then at.(x0 := Join(h0, l0), x1 := Join(h1, l1))
    else if code == CMD_RASET then at.(y0 := Join(h0, l0), y1 := Join(h1, l1))
    else at
  }

  /** The memory write command: data starts at the top of the window. */
  function WriteStarts(at: Address): Address {
    at.(row := at.y0)
  }

  /** How the driver addresses a run of rows: every column, then rows `y0` to `y1 - 1`. */
  function Addressed(at: Address, y0: nat, y1: nat): Address
    requires y0 < y1 <= HEIGHT
  {
    var columns := SetWindow(at, CMD_CASET, 0, 0, HighByte(WIDTH - 1), LowByte(WIDTH - 1));
    WriteStarts(SetWindow(columns, CMD_RASET, HighByte(y0), LowByte(y0), HighByte(y1 - 1), LowByte(y1 - 1)))
  }

  /** Wherever the controller stood, it is sent to the top of the window. */
  lemma AddressLands(at: Address, y0: nat, y1: nat)
    requires y0 < y1 <= HEIGHT
    ensures Addressed(at, y0, y1) == Address(0, WIDTH - 1, y0, y1 - 1, y0)
  {
    JoinSplit(WIDTH - 1);
    JoinSplit(y0);
    JoinSplit(y1 - 1);
  }

  /** The controller with its memory, row by row; what a row holds does not matter here. */
  datatype Controller<T> = Controller(gram: seq<T>, at: Address)

  /** A scanline of data as wide as the panel fills the row it goes to, and the next one the
      row below, or the top of the window again; narrower windows are not used here. */
  ghost function Scanned<T>(c: Controller<T>, line: T): Controller<T> {
    var at := c.at;
    if at.x0 == 0 && at.x1 == WIDTH - 1 && at.row < |c.gram|
    then Controller(c.gram[at.row := line], at.(row := if at.row == at.y1 then at.y0 else at.row + 1))
    else c
  }

  ghost function AllScanned<T>(c: Controller<T>, lines: seq<T>, n: nat): (t: Controller<T>)
    requires n <= |lines|
    ensures |t.gram| == |c.gram|
  {
    if n == 0 then c else Scanned(AllScanned(c, lines, n - 1), lines[n - 1])
  }

  /** The first `n` scanlines fill the first `n` rows of the window, and change no other row. */
  lemma {:induction false} ScanlinesLand<T>(c: Controller<T>, lines: seq<T>, n: nat)
    requires c.at.x0 == 0 && c.at.x1 == WIDTH - 1 && c.at.row == c.at.y0
    requires c.at.y0 + |lines| == c.at.y1 + 1 <= |c.gram| && n <= |lines|
    ensures var (t, top) := (AllScanned(c, lines, n), c.at.y0);
      && t.at == c.at.(row := if n == |lines| then top else top + n)
      && forall y :: 0 <= y < |c.gram| ==> t.gram[y] == if top <= y < top + n then lines[y - top] else c.gram[y]
  {
    if n > 0 {
      ScanlinesLand(c, lines, n - 1);
    }
  }

  ghost predicate Scanlines(rows: seq<seq<Octet>>) {
    forall k :: 0 <= k < |rows| ==> |rows[k]| == 2 * WIDTH
  }

  ghost function AllDecoded(rows: seq<seq<Octet>>): (lines: seq<Line>)
    requires Scanlines(rows)
    ensures |lines| == |rows|
  {
    seq(|rows|, k requires 0 <= k < |rows| => Decoded(rows[k]))
  }

  // ---- What the framebuffer stands for ----

  predicate InPanel(x: int, y: int) {
    0 <= x < WIDTH && 0 <= y < HEIGHT
  }

  predicate On(bytes: seq<byte>, x: int, y: int)
    requires |bytes| == FRAME_LEN && InPanel(x, y)
  {
    BitMsb(bytes[RowStart(y) + x / 8], x % 8)
  }

  function RowBytes(bytes: seq<byte>, y: nat): seq<byte>
    requires |bytes| == FRAME_LEN && y < HEIGHT
  {
    bytes[RowStart(y)..RowStart(y + 1)]
  }

  function Shade(p: Palette, lit: bool): Colour {
    if lit then p.ink else p.paper
  }

  /** The colour of a pixel of the frame. */
  function PixelShade(bytes: seq<byte>, x: nat, y: nat, p: Palette): Colour
    requires |bytes| == FRAME_LEN && InPanel(x, y)
  {
    Shade(p, On(bytes, x, y))
  }

  /** Row `y` of the frame in colour. */
  ghost function Expanded(bytes: seq<byte>, y: nat, p: Palette): Line
    requires |bytes| == FRAME_LEN && y < HEIGHT
  {
    seq(WIDTH, x requires 0 <= x < WIDTH => PixelShade(bytes, x, y, p))
  }

  /** The first `n` pixels of row `y` are in the buffer, each colour as its two bytes. */
  ghost predicate PaintsRow(buf: seq<Octet>, bytes: seq<byte>, y: nat, p: Palette, n: nat)
    requires |bytes| == FRAME_LEN && y < HEIGHT && n <= WIDTH
  {
    |buf| == 2 * WIDTH && forall k :: 0 <= k < n ==> Join(buf[2 * k], buf[2 * k + 1]) == PixelShade(bytes, k, y, p)
  }

  lemma PaintsNext(buf: seq<Octet>, after: seq<Octet>, bytes: seq<byte>, y: nat, p: Palette, x: nat)
    requires |bytes| == FRAME_LEN && y < HEIGHT && x < WIDTH && PaintsRow(buf, bytes, y, p, x) && |after| == |buf|
    requires Join(after[2 * x], after[2 * x + 1]) == PixelShade(bytes, x, y, p)
    requires forall j :: 0 <= j < |buf| && j != 2 * x && j != 2 * x + 1 ==> after[j] == buf[j]
    ensures PaintsRow(after, bytes, y, p, x + 1)
  {
    forall k | 0 <= k < x ensures after[2 * k] == buf[2 * k] && after[2 * k + 1] == buf[2 * k + 1] {
    }
  }

  /** A row so painted reads back as the row in colour. */
  lemma RowDecodes(buf: seq<Octet>, bytes: seq<byte>, y: nat, p: Palette)
    requires |bytes| == FRAME_LEN && y < HEIGHT && PaintsRow(buf, bytes, y, p, WIDTH)
    ensures Decoded(buf) == Expanded(bytes, y, p)
  {
  }

  /** The diff compares bytes, but equal bytes are equal colours. */
  lemma SameBytesSameColours(a: seq<byte>, b: seq<byte>, y: nat, p: Palette)
    requires |a| == |b| == FRAME_LEN && y < HEIGHT && RowBytes(a, y) == RowBytes(b, y)
    ensures Expanded(a, y, p) == Expanded(b, y, p)
  {
    forall x | 0 <= x < WIDTH ensures On(a, x, y) == On(b, x, y) {
      assert RowBytes(a, y)[x / 8] == a[RowStart(y) + x / 8];
      assert RowBytes(b, y)[x / 8] == b[RowStart(y) + x / 8];
    }
  }

  /** Every row of the panel shows the framebuffer in these colours. */
  ghost predicate Shows(gram: Gram, bytes: seq<byte>, p: Palette)
    requires |bytes| == FRAME_LEN
  {
    forall y :: 0 <= y < HEIGHT ==> gram[y] == Expanded(bytes, y, p)
  }

  /** Whether row `y` has to be sent. */
  predicate Dirty(frame: seq<byte>, lastSent: seq<byte>, forceFull: bool, y: nat)
    requires |frame| == |lastSent| == FRAME_LEN && y < HEIGHT
  {
    forceFull || RowBytes(frame, y) != RowBytes(lastSent, y)
  }

  ghost function DirtyRows(frame: seq<byte>, lastSent: seq<byte>, forceFull: bool): (dirty: seq<bool>)
    requires |frame| == |lastSent| == FRAME_LEN
    ensures |dirty| == HEIGHT && forall y :: 0 <= y < HEIGHT ==> dirty[y] == Dirty(frame, lastSent, forceFull, y)
  {
    seq(HEIGHT, y requires 0 <= y < HEIGHT => Dirty(frame, lastSent, forceFull, y))
  }

  /** A row is sent exactly if a repaint is due or some pixel of it is not as it was sent. */
  lemma DirtyMeans(frame: seq<byte>, lastSent: seq<byte>, forceFull: bool, y: nat)
    requires |frame| == |lastSent| == FRAME_LEN && y < HEIGHT
    ensures Dirty(frame, lastSent, forceFull, y) <==>
      forceFull || exists x :: 0 <= x < WIDTH && On(frame, x, y) != On(lastSent, x, y)
  {
    if forall x :: 0 <= x < WIDTH ==> On(frame, x, y) == On(lastSent, x, y) {
      forall j | 0 <= j < 40 ensures RowBytes(frame, y)[j] == RowBytes(lastSent, y)[j] {
        var (a, b) := (frame[RowStart(y) + j], lastSent[RowStart(y) + j]);
        forall k: nat | k < 8 ensures BitMsb(a, k) == BitMsb(b, k) {
          var x := 8 * j + k;
          assert On(frame, x, y) == On(lastSent, x, y) && x / 8 == j && x % 8 == k;
        }
        SameBitsMsb(a, b);
      }
    } else {
      var x :| 0 <= x < WIDTH && On(frame, x, y) != On(lastSent, x, y);
      assert RowBytes(frame, y)[x / 8] != RowBytes(lastSent, y)[x / 8];
    }
  }

  /** Rows above `y` are on the panel and recorded as sent; every other recorded row still
      stands for what the panel shows, unless a full repaint is due. */
  ghost predicate SyncedAbove(frame: seq<byte>, lastSent: seq<byte>, forceFull: bool, gram: Gram, p: Palette, y: nat)
    requires |frame| == |lastSent| == FRAME_LEN && y <= HEIGHT
  {
    && (forall i :: 0 <= i < y ==> gram[i] == Expanded(frame, i, p) && RowBytes(frame, i) == RowBytes(lastSent, i))
    && (!forceFull ==> Shows(gram, lastSent, p))
  }

  /** The shadow copy with rows `y0` to `y1 - 1` brought up to date. */
  function Committed(frame: seq<byte>, lastSent: seq<byte>, y0: nat, y1: nat): (c: seq<byte>)
    requires |frame| == |lastSent| == FRAME_LEN && y0 < y1 <= HEIGHT
    ensures |c| == FRAME_LEN
  {
    lastSent[..RowStart(y0)] + frame[RowStart(y0)..RowStart(y1)] + lastSent[RowStart(y1)..]
  }

  lemma CommittedRow(frame: seq<byte>, lastSent: seq<byte>, y0: nat, y1: nat, y: nat)
    requires |frame| == |lastSent| == FRAME_LEN && y0 < y1 <= HEIGHT && y < HEIGHT
    ensures RowBytes(Committed(frame, lastSent, y0, y1), y) == RowBytes(if y0 <= y < y1 then frame else lastSent, y)
  {
    var (c, from) := (Committed(frame, lastSent, y0, y1), if y0 <= y < y1 then frame else lastSent);
    assert RowStart(y0) < RowStart(y1) <= FRAME_LEN;
    forall j | RowStart(y) <= j < RowStart(y + 1) ensures c[j] == from[j] {
      if y < y0 {
        assert j < RowStart(y0);
      } else if y < y1 {
        assert RowStart(y0) <= j < RowStart(y1);
      } else {
        assert RowStart(y1) <= j;
      }
    }
    assert RowBytes(c, y) == RowBytes(from, y);
  }

  /** Panel memory once rows `y0` to `y1 - 1` of the frame have landed. */
  ghost predicate Landed(gram: Gram, gram': Gram, frame: seq<byte>, p: Palette, y0: nat, y1: nat)
    requires |frame| == FRAME_LEN
  {
    forall y :: 0 <= y < HEIGHT ==> gram'[y] == if y0 <= y < y1 then Expanded(frame, y, p) else gram[y]
  }

  lemma WindowLands(gram: Gram, gram': Gram, lines: seq<Line>, frame: seq<byte>, p: Palette, y0: nat, y1: nat)
    requires |frame| == FRAME_LEN && y0 < y1 <= HEIGHT && |lines| == y1 - y0
    requires forall k :: 0 <= k < |lines| ==> lines[k] == Expanded(frame, y0 + k, p)
    requires forall y :: 0 <= y < HEIGHT ==> gram'[y] == if y0 <= y < y1 then lines[y - y0] else gram[y]
    ensures Landed(gram, gram', frame, p, y0, y1)
  {
    forall y | y0 <= y < y1 ensures gram'[y] == Expanded(frame, y, p) {
      assert lines[y - y0] == Expanded(frame, y0 + (y - y0), p);
    }
  }

  /** A landed and recorded window extends the synced part and leaves the rows below as dirty as they were. */
  lemma WindowLanded(frame: seq<byte>, lastSent: seq<byte>, forceFull: bool, gram: Gram, gram': Gram, p: Palette,
    y0: nat, y1: nat)
    requires |frame| == |lastSent| == FRAME_LEN && y0 < y1 <= HEIGHT
    requires SyncedAbove(frame, lastSent, forceFull, gram, p, y0) && Landed(gram, gram', frame, p, y0, y1)
    ensures SyncedAbove(frame, Committed(frame, lastSent, y0, y1), forceFull, gram', p, y1)
    ensures forall y :: y1 <= y < HEIGHT ==>
      Dirty(frame, Committed(frame, lastSent, y0, y1), forceFull, y) == Dirty(frame, lastSent, forceFull, y)
  {
    var sent := Committed(frame, lastSent, y0, y1);
    forall y | 0 <= y < HEIGHT
      ensures RowBytes(sent, y) == RowBytes(if y0 <= y < y1 then frame else lastSent, y)
      ensures Expanded(sent, y, p) == Expanded(if y0 <= y < y1 then frame else lastSent, y, p)
    {
      CommittedRow(frame, lastSent, y0, y1, y);
      SameBytesSameColours(sent, if y0 <= y < y1 then frame else lastSent, y, p);
    }
  }

  lemma CleanRow(frame: seq<byte>, lastSent: seq<byte>, forceFull: bool, gram: Gram, p: Palette, y: nat)
    requires |frame| == |lastSent| == FRAME_LEN && y < HEIGHT
    requires SyncedAbove(frame, lastSent, forceFull, gram, p, y) && !Dirty(frame, lastSent, forceFull, y)
    ensures SyncedAbove(frame, lastSent, forceFull, gram, p, y + 1)
  {
    SameBytesSameColours(frame, lastSent, y, p);
  }

  lemma AllSynced(frame: seq<byte>, lastSent: seq<byte>, forceFull: bool, gram: Gram, p: Palette)
    requires |frame| == |lastSent| == FRAME_LEN && SyncedAbove(frame, lastSent, forceFull, gram, p, HEIGHT)
    ensures Shows(gram, frame, p) && Shows(gram, lastSent, p)
  {
    forall y | 0 <= y < HEIGHT ensures gram[y] == Expanded(lastSent, y, p) {
      SameBytesSameColours(frame, lastSent, y, p);
    }
  }

  /** A frame with one pixel set, as the driver packs it. */
  function WithPixel(bytes: seq<byte>, x: nat, y: nat, lit: bool): seq<byte>
    requires |bytes| == FRAME_LEN && InPanel(x, y)
  {
    var idx := RowStart(y) + x / 8;
    bytes[idx := Assign(bytes[idx], MaskMsb(x % 8), lit)]
  }

  lemma WithPixelOn(bytes: seq<byte>, x: nat, y: nat, lit: bool, x': nat, y': nat)
    requires |bytes| == FRAME_LEN && InPanel(x, y) && InPanel(x', y')
    ensures On(WithPixel(bytes, x, y, lit), x', y') == if x' == x && y' == y then lit else On(bytes, x', y')
  {
    var idx, idx' := RowStart(y) + x / 8, RowStart(y') + x' / 8;
    if idx == idx' {
      AssignBitMsb(bytes[idx], x % 8, lit, x' % 8);
    }
  }

  function Solid(on: bool): seq<byte> {
    seq(FRAME_LEN, _ => if on then 0xFF else 0)
  }

  lemma SolidOn(on: bool, x: nat, y: nat)
    requires InPanel(x, y)
    ensures On(Solid(on), x, y) == on
  {
    SolidByte(x % 8);
  }

  function RunEnd(dirty: seq<bool>, y: nat): (end: nat)
    requires y <= |dirty|
    ensures y <= end <= |dirty| && (forall i :: y <= i < end ==> dirty[i]) && (end < |dirty| ==> !dirty[end])
    decreases |dirty| - y
  {
    if y < |dirty| && dirty[y] then RunEnd(dirty, y + 1) else y
  }

  /** The runs of dirty rows from `y` down. */
  function RunsFrom(dirty: seq<bool>, y: nat): seq<Window>
    requires y <= |dirty|
    decreases |dirty| - y
  {
    if y == |dirty| then []
    else if !dirty[y] then RunsFrom(dirty, y + 1)
    else [Window(y, RunEnd(dirty, y))] + RunsFrom(dirty, RunEnd(dirty, y))
  }

  ghost predicate MaximalRun(dirty: seq<bool>, w: Window) {
    && w.first < w.end <= |dirty| && (forall y :: w.first <= y < w.end ==> dirty[y])
    && (w.first > 0 ==> !dirty[w.first - 1]) && (w.end < |dirty| ==> !dirty[w.end])
  }

  /** In order, with at least one row between one window and the next. */
  ghost predicate Apart(windows: seq<Window>) {
    forall i :: 0 <= i < |windows| - 1 ==> windows[i].end < windows[i + 1].first
  }

  /** The windows are maximal runs of dirty rows, in order and apart from one another. */
  lemma {:induction false} RunsAreMaximal(dirty: seq<bool>, y: nat)
    requires y <= |dirty| && (0 < y < |dirty| && dirty[y] ==> !dirty[y - 1])
    ensures forall w <- RunsFrom(dirty, y) :: y <= w.first && MaximalRun(dirty, w)
    ensures Apart(RunsFrom(dirty, y))
    decreases |dirty| - y
  {
    if y < |dirty| {
      if dirty[y] {
        var end := RunEnd(dirty, y);
        var rest := RunsFrom(dirty, end);
        RunsAreMaximal(dirty, end);
        if rest != [] {
          assert rest[0] in rest && dirty[rest[0].first];
        }
        assert Apart([Window(y, end)] + rest);
      } else {
        RunsAreMaximal(dirty, y + 1);
      }
    }
  }

  /** Exactly the dirty rows are in a window. */
  lemma {:induction false} RunsCoverDirty(dirty: seq<bool>, y: nat, row: nat)
    requires y <= row < |dirty|
    ensures dirty[row] <==> exists w <- RunsFrom(dirty, y) :: w.first <= row < w.end
    decreases |dirty| - y
  {
    var runs := RunsFrom(dirty, y);
    if dirty[y] {
      var end := RunEnd(dirty, y);
      assert runs[0] in runs && forall w :: w in runs <==> w == runs[0] || w in RunsFrom(dirty, end);
      if row >= end {
        RunsCoverDirty(dirty, end, row);
      } else {
        RunsBelow(dirty, end);
      }
    } else if row > y {
      RunsCoverDirty(dirty, y + 1, row);
    } else {
      RunsBelow(dirty, y + 1);
    }
  }

  lemma {:induction false} RunsBelow(dirty: seq<bool>, y: nat)
    requires y <= |dirty|
    ensures forall w <- RunsFrom(dirty, y) :: y <= w.first
    decreases |dirty| - y
  {
    if y < |dirty| {
      RunsBelow(dirty, if dirty[y] then RunEnd(dirty, y) else y + 1);
    }
  }

  /** One more run sent is one more of the runs to send. */
  lemma RunSent(runs: seq<Window>, sent: seq<Window>, dirty: seq<bool>, y: nat)
    requires y < |dirty| && dirty[y] && sent <= runs && runs[|sent|..] == RunsFrom(dirty, y)
    ensures sent + [Window(y, RunEnd(dirty, y))] <= runs
    ensures runs[|sent| + 1..] == RunsFrom(dirty, RunEnd(dirty, y))
  {
    assert runs[|sent|..][0] == Window(y, RunEnd(dirty, y)) && runs[|sent| + 1..] == runs[|sent|..][1..];
  }

  class Tft {
    const frame: array<byte>
    const lastSent: array<byte>
    var palette: Palette
    var forceFull: bool
    /** What the panel's memory holds; the driver cannot read it. */
    ghost var gram: Gram

    ghost predicate Valid() reads this, frame, lastSent {
      && frame.Length == lastSent.Length == FRAME_LEN && frame != lastSent
      && (!forceFull ==> Shows(gram, lastSent[..], palette))
    }

    constructor (palette: Palette, ghost powerOn: Gram)
      ensures Valid() && fresh(frame) && fresh(lastSent)
      ensures this.palette == palette && gram == powerOn && frame[..] == Solid(false)
    {
      frame := new byte[FRAME_LEN](_ => 0);
      lastSent := new byte[FRAME_LEN](_ => 0);
      this.palette, forceFull, gram := palette, true, powerOn;
    }

    /** Out-of-range coordinates are ignored. */
    method SetPixel(x: nat, y: nat, lit: bool)
      requires Valid()
      modifies frame
      ensures Valid()
      ensures frame[..] == if InPanel(x, y) then WithPixel(old(frame[..]), x, y, lit) else old(frame[..])
    {
      if x >= WIDTH || y >= HEIGHT {
        return;
      }
      var idx := RowStart(y) + x / 8;
      frame[idx] := Assign(frame[idx], MaskMsb(x % 8), lit);
    }

    method DrawIter(pixels: seq<Pixel>)
      requires Valid()
      modifies frame
      ensures Valid()
      ensures forall x, y :: InPanel(x, y) ==> On(frame[..], x, y) == LastDrawn(pixels, x, y, old(On(frame[..], x, y)))
    {
      ghost var before := frame[..];
      for i := 0 to |pixels|
        invariant Valid()
        invariant forall x, y :: InPanel(x, y) ==> On(frame[..], x, y) == LastDrawn(pixels[..i], x, y, On(before, x, y))
      {
        var p := pixels[i];
        ghost var was := frame[..];
        if InPanel(p.x, p.y) {
          SetPixel(p.x, p.y, p.on);
        }
        forall x, y | InPanel(x, y)
          ensures On(frame[..], x, y) == LastDrawn(pixels[..i + 1], x, y, On(before, x, y))
        {
          assert pixels[..i + 1][..i] == pixels[..i];
          if InPanel(p.x, p.y) {
            WithPixelOn(was, p.x, p.y, p.on, x, y);
          }
        }
      }
      assert pixels[..|pixels|] == pixels;
    }

    method Clear(on: bool)
      requires Valid()
      modifies frame
      ensures Valid() && frame[..] == Solid(on)
    {
      forall i | 0 <= i < FRAME_LEN {
        frame[i] := if on then 0xFF else 0;
      }
    }

    method ClearFrame()
      requires Valid()
      modifies frame, this`forceFull
      ensures Valid() && forceFull && frame[..] == Solid(false)
    {
      Clear(false);
      forceFull := true;
    }

    method SetPalette(palette: Palette)
      requires Valid()
      modifies this`palette, this`forceFull
      ensures Valid() && this.palette == palette
      ensures forceFull == (old(forceFull) || palette != old(this.palette))
    {
      if palette != this.palette {
        this.palette := palette;
        forceFull := true;
      }
    }

    method ExpandPixel(rowBuf: array<Octet>, x: nat, y: nat)
      requires frame.Length == FRAME_LEN && rowBuf.Length == 2 * WIDTH && InPanel(x, y)
      modifies rowBuf
      ensures frame[..] == old(frame[..])
      ensures Join(rowBuf[2 * x], rowBuf[2 * x + 1]) == PixelShade(frame[..], x, y, palette)
      ensures forall j :: 0 <= j < rowBuf.Length && j != 2 * x && j != 2 * x + 1 ==> rowBuf[j] == old(rowBuf[j])
    {
      var lit := frame[RowStart(y) + x / 8] & MaskMsb(x % 8) != 0;
      var c := if lit then palette.ink else palette.paper;
      JoinSplit(c);
      rowBuf[2 * x], rowBuf[2 * x + 1] := HighByte(c), LowByte(c);
    }

    /** Row `y` of the framebuffer as the bytes that paint it. */
    method ExpandRow(y: nat) returns (buf: seq<Octet>)
      requires frame.Length == FRAME_LEN && y < HEIGHT
      ensures |buf| == 2 * WIDTH && Decoded(buf) == Expanded(frame[..], y, palette)
    {
      ghost var bytes := frame[..];
      var rowBuf := new Octet[2 * WIDTH];
      for x := 0 to WIDTH
        invariant frame[..] == bytes && PaintsRow(rowBuf[..], bytes, y, palette, x)
      {
        ghost var done: seq<Octet> := rowBuf[..];
        ExpandPixel(rowBuf, x, y);
        PaintsNext(done, rowBuf[..], bytes, y, palette, x);
      }
      buf := rowBuf[..];
      RowDecodes(buf, bytes, y, palette);
    }

    method ExpandRows(y0: nat, y1: nat) returns (rows: seq<seq<Octet>>)
      requires frame.Length == FRAME_LEN && y0 < y1 <= HEIGHT
      ensures Scanlines(rows) && |rows| == y1 - y0
      ensures forall k :: 0 <= k < |rows| ==> AllDecoded(rows)[k] == Expanded(frame[..], y0 + k, palette)
    {
      rows := [];
      for y := y0 to y1
        invariant Scanlines(rows) && |rows| == y - y0
        invariant forall k :: 0 <= k < |rows| ==> Decoded(rows[k]) == Expanded(frame[..], y0 + k, palette)
      {
        var row := ExpandRow(y);
        rows := rows + [row];
      }
    }

    /** Send rows `y0` to `y1 - 1` as one window: its address, then a scanline for each row.
        A transfer that fails may leave the addressing anywhere, but lands no data. */
    method WriteRows(y0: nat, y1: nat) returns (ok: bool)
      requires frame.Length == FRAME_LEN && y0 < y1 <= HEIGHT
      modifies this`gram
      ensures if ok then Landed(old(gram), gram, frame[..], palette, y0, y1) else gram == old(gram)
    {
      var rows := ExpandRows(y0, y1);
      ok := *;
      if ok {
        ghost var stood: Address := *;
        ghost var c: Controller<Line> := Controller(gram, Addressed(stood, y0, y1));
        ghost var lines := AllDecoded(rows);
        AddressLands(stood, y0, y1);
        ScanlinesLand(c, lines, |lines|);
        WindowLands(gram, AllScanned(c, lines, |lines|).gram, lines, frame[..], palette, y0, y1);
        gram := AllScanned(c, lines, |lines|).gram;
      }
    }

    method CommitRows(y0: nat, y1: nat)
      requires frame.Length == lastSent.Length == FRAME_LEN && frame != lastSent && y0 < y1 <= HEIGHT
      modifies lastSent
      ensures lastSent[..] == Committed(frame[..], old(lastSent[..]), y0, y1)
    {
      forall i | RowStart(y0) <= i < RowStart(y1) {
        lastSent[i] := frame[i];
      }
    }

    /** Send a run of rows and, only once it has landed, record it as sent. */
    method SendRows(y0: nat, y1: nat) returns (ok: bool)
      requires Valid() && y0 < y1 <= HEIGHT
      requires SyncedAbove(frame[..], lastSent[..], forceFull, gram, palette, y0)
      modifies lastSent, this`gram
      ensures Valid()
      ensures ok ==> SyncedAbove(frame[..], lastSent[..], forceFull, gram, palette, y1)
      ensures forall y :: y1 <= y < HEIGHT ==>
        Dirty(frame[..], lastSent[..], forceFull, y) == old(Dirty(frame[..], lastSent[..], forceFull, y))
    {
      ghost var f, before, l := frame[..], gram, lastSent[..];
      ok := WriteRows(y0, y1);
      if ok {
        CommitRows(y0, y1);
        assert frame[..] == f;
        WindowLanded(f, l, forceFull, before, gram, palette, y0, y1);
      }
    }

    /** Whether `dirty` is right about the rows from `y` down. */
    ghost predicate Marks(dirty: seq<bool>, y: nat)
      requires frame.Length == lastSent.Length == FRAME_LEN
      reads this, frame, lastSent
    {
      |dirty| == HEIGHT && forall i :: y <= i < HEIGHT ==> dirty[i] == Dirty(frame[..], lastSent[..], forceFull, i)
    }

    /** Send the run of dirty rows that starts at `start`. */
    method SendRun(start: nat, ghost dirty: seq<bool>) returns (ok: bool, y: nat)
      requires Valid() && start < HEIGHT && Marks(dirty, start) && dirty[start]
      requires SyncedAbove(frame[..], lastSent[..], forceFull, gram, palette, start)
      modifies lastSent, this`gram
      ensures Valid() && y == RunEnd(dirty, start)
      ensures ok ==> SyncedAbove(frame[..], lastSent[..], forceFull, gram, palette, y) && Marks(dirty, y)
    {
      y := start;
      while y < HEIGHT && Dirty(frame[..], lastSent[..], forceFull, y)
        invariant start <= y <= HEIGHT && RunEnd(dirty, y) == RunEnd(dirty, start)
      {
        y := y + 1;
      }
      ok := SendRows(start, y);
    }

    /** Send the dirty rows, each maximal run of them as one window, stopping at the first
        window that does not land. */
    method Flush() returns (r: FlushResult, ghost sent: seq<Window>)
      requires Valid()
      modifies lastSent, this`forceFull, this`gram
      ensures Valid()
      ensures var runs := RunsFrom(old(DirtyRows(frame[..], lastSent[..], forceFull)), 0);
        if r.Sent? then sent == runs && r.any == (runs != []) else sent < runs
      ensures r.Sent? ==> !forceFull && Shows(gram, frame[..], palette)
    {
      ghost var dirty := DirtyRows(frame[..], lastSent[..], forceFull);
      ghost var runs := RunsFrom(dirty, 0);
      sent := [];
      var any := false;
      var y := 0;
      while y < HEIGHT
        invariant y <= HEIGHT && any == (sent != []) && Valid() && Marks(dirty, y)
        invariant sent <= runs && runs[|sent|..] == RunsFrom(dirty, y)
        invariant SyncedAbove(frame[..], lastSent[..], forceFull, gram, palette, y)
      {
        if !Dirty(frame[..], lastSent[..], forceFull, y) {
          CleanRow(frame[..], lastSent[..], forceFull, gram, palette, y);
          y := y + 1;
        } else {
          ghost var start := y;
          var ok;
          ok, y := SendRun(y, dirty);
          if !ok {
            return BusError, sent;
          }
          RunSent(runs, sent, dirty, start);
          sent := sent + [Window(start, y)];
          any := true;
        }
      }
      AllSynced(frame[..], lastSent[..], forceFull, gram, palette);
      forceFull := false;
      r := Sent(any);
    }
  }

  // ---- Whole runs ----

  datatype Op = SetPalette(palette: Palette) | Flush

  ghost function CurrentPalette(initial: Palette, steps: seq<Step<Op>>): Palette {
    if steps == [] then initial
    else
      var last := steps[|steps| - 1];
      if last.Do? && last.op.SetPalette? then last.op.palette else CurrentPalette(initial, steps[..|steps| - 1])
  }

  /** The frame holds the last colour drawn everywhere. */
  ghost predicate Holds(frame: seq<byte>, drawings: seq<Drawing>)
    requires |frame| == FRAME_LEN
  {
    forall x, y :: InPanel(x, y) ==> On(frame, x, y) == LastColour(drawings, x, y)
  }

  method DoPaint(t: Tft, drawing: Drawing, ghost drawn: seq<Drawing>)
    requires t.Valid() && Holds(t.frame[..], drawn)
    modifies t.frame, t`forceFull
    ensures t.Valid() && Holds(t.frame[..], drawn + [drawing])
  {
    match drawing
    case Draw(pixels) => t.DrawIter(pixels);
    case Clear(on) => t.Clear(on);
    case ClearFrame => t.ClearFrame();
    forall x, y | InPanel(x, y) ensures On(t.frame[..], x, y) == LastColour(drawn + [drawing], x, y) {
      LastColourExtends(drawn, drawing, x, y);
      SolidOn(true, x, y);
      SolidOn(false, x, y);
    }
  }

  /** From power-on, with anything in panel memory, through any run of drawing calls,
      palette changes and flushes, any of which may fail: a run ending in a flush that
      succeeded leaves every pixel of the panel in the current palette's colour for the
      last colour drawn there. */
  method Run(initial: Palette, ghost powerOn: Gram, steps: seq<Step<Op>>) returns (t: Tft, last: FlushResult)
    ensures t.Valid() && t.palette == CurrentPalette(initial, steps) && Holds(t.frame[..], Drawings(steps))
    ensures steps != [] && steps[|steps| - 1] == Do(Flush) && last.Sent? ==>
      forall x: nat, y: nat :: InPanel(x, y) ==>
        t.gram[y][x] == Shade(CurrentPalette(initial, steps), LastColour(Drawings(steps), x, y))
  {
    t := new Tft(initial, powerOn);
    last := Sent(false);
    ghost var drawn: seq<Drawing> := [];
    forall x, y | InPanel(x, y) ensures On(t.frame[..], x, y) == LastColour([], x, y) {
      SolidOn(false, x, y);
    }
    for i := 0 to |steps|
      invariant fresh(t) && fresh(t.frame) && fresh(t.lastSent)
      invariant t.Valid() && t.palette == CurrentPalette(initial, steps[..i])
        && Holds(t.frame[..], drawn) && drawn == Drawings(steps[..i])
      invariant 0 < i && steps[i - 1] == Do(Flush) && last.Sent? ==> Shows(t.gram, t.frame[..], t.palette)
    {
      DrawingsExtend(steps, i);
      assert steps[..i + 1][..i] == steps[..i];
      match steps[i]
      case Paint(drawing) =>
        DoPaint(t, drawing, drawn);
        drawn := drawn + [drawing];
      case Do(SetPalette(palette)) => t.SetPalette(palette);
      case Do(Flush) =>
        ghost var sent;
        last, sent := t.Flush();
    }
    assert steps[..|steps|] == steps;
    if steps != [] && steps[|steps| - 1] == Do(Flush) && last.Sent? {
      forall x: nat, y: nat | InPanel(x, y)
        ensures t.gram[y][x] == Shade(CurrentPalette(initial, steps), LastColour(Drawings(steps), x, y))
      {
        assert t.gram[y] == Expanded(t.frame[..], y, t.palette);
      }
    }
  }
}
