/** The monochrome OLED driver: a page-major framebuffer, bit `n` of a byte being the
    pixel `n` rows down inside its page, flushed page by page over a bus that can fail. */
module Oled {
  import opened Bits
  import opened Drawing

  const WIDTH: nat := 128
  const HEIGHT: nat := 64
  const PAGES: nat := 8
  const FRAME_LEN: nat := 1024

  type Frame = f: seq<byte> | |f| == FRAME_LEN witness seq(FRAME_LEN, _ => 0)

  datatype FlushResult = Sent(any: bool) | BusError

  function PageStart(page: nat): nat { 128 * page }

  function Page(f: Frame, page: nat): seq<byte>
    requires page < PAGES
  {
    f[PageStart(page)..PageStart(page + 1)]
  }

  predicate InPanel(x: int, y: int) {
    0 <= x < WIDTH && 0 <= y < HEIGHT
  }

  /** The pixel a frame, or the panel's memory, holds at a point. */
  predicate On(f: Frame, x: int, y: int)
    requires InPanel(x, y)
  {
    Bit(f[PageStart(y / 8) + x], y % 8)
  }

  function WithPixel(f: Frame, x: nat, y: nat, lit: bool): Frame
    requires InPanel(x, y)
  {
    var idx := PageStart(y / 8) + x;
    f[idx := Assign(f[idx], Mask(y % 8), lit)]
  }

  lemma WithPixelOn(f: Frame, x: nat, y: nat, lit: bool, x': nat, y': nat)
    requires InPanel(x, y) && InPanel(x', y')
    ensures On(WithPixel(f, x, y, lit), x', y') == if x' == x && y' == y then lit else On(f, x', y')
  {
    var idx, idx' := PageStart(y / 8) + x, PageStart(y' / 8) + x';
    if idx == idx' {
      AssignBit(f[idx], y % 8, lit, y' % 8);
    }
  }

  function Solid(on: bool): Frame {
    seq(FRAME_LEN, _ => if on then 0xFF else 0)
  }

  lemma SolidOn(on: bool, x: nat, y: nat)
    requires InPanel(x, y)
    ensures On(Solid(on), x, y) == on
  {
    SolidByte(y % 8);
  }

  /** The frame with one page taken from `from`. */
  function WithPage(f: Frame, from: Frame, page: nat): Frame
    requires page < PAGES
  {
    f[..PageStart(page)] + Page(from, page) + f[PageStart(page + 1)..]
  }

  predicate Dirty(frame: Frame, lastSent: Frame, forceFull: bool, page: nat)
    requires page < PAGES
  {
    forceFull || Page(frame, page) != Page(lastSent, page)
  }

  /** A page is sent exactly if a repaint is due or some pixel of it is not as it was sent. */
  lemma DirtyMeans(frame: Frame, lastSent: Frame, forceFull: bool, page: nat)
    requires page < PAGES
    ensures Dirty(frame, lastSent, forceFull, page) <==>
      forceFull || exists x, y :: 0 <= x < WIDTH && 8 * page <= y < 8 * page + 8 && PixelDiffers(frame, lastSent, x, y)
  {
    if forall x, y :: 0 <= x < WIDTH && 8 * page <= y < 8 * page + 8 ==> !PixelDiffers(frame, lastSent, x, y) {
      forall x | 0 <= x < WIDTH ensures Page(frame, page)[x] == Page(lastSent, page)[x] {
        var (a, b) := (frame[PageStart(page) + x], lastSent[PageStart(page) + x]);
        forall k: nat | k < 8 ensures Bit(a, k) == Bit(b, k) {
          var y := 8 * page + k;
          assert !PixelDiffers(frame, lastSent, x, y) && y / 8 == page && y % 8 == k;
        }
        SameBits(a, b);
      }
    } else {
      var x, y :| 0 <= x < WIDTH && 8 * page <= y < 8 * page + 8 && PixelDiffers(frame, lastSent, x, y);
      assert y / 8 == page;
      assert Page(frame, page)[x] != Page(lastSent, page)[x];
    }
  }

  predicate PixelDiffers(a: Frame, b: Frame, x: nat, y: nat)
    requires InPanel(x, y)
  {
    On(a, x, y) != On(b, x, y)
  }

  /** The dirty pages below `end`, in order. */
  ghost function DirtyPages(frame: Frame, lastSent: Frame, forceFull: bool, end: nat): seq<nat>
    requires end <= PAGES
  {
    if end == 0 then []
    else
      var before := DirtyPages(frame, lastSent, forceFull, end - 1);
      before + if Dirty(frame, lastSent, forceFull, end - 1) then [end - 1] else []
  }

  /** Pages below `page` are on the panel and recorded as sent, and every other recorded
      page still stands for what the panel shows, unless a full repaint is due. */
  ghost predicate SyncedBelow(frame: Frame, lastSent: Frame, forceFull: bool, gram: Frame, page: nat)
    requires page <= PAGES
  {
    && gram[..PageStart(page)] == frame[..PageStart(page)] == lastSent[..PageStart(page)]
    && (!forceFull ==> gram == lastSent)
  }

  /** A landed and recorded page extends the synced part and leaves later pages as dirty as they were. */
  lemma PageLanded(frame: Frame, lastSent: Frame, forceFull: bool, gram: Frame, page: nat)
    requires page < PAGES && SyncedBelow(frame, lastSent, forceFull, gram, page)
    ensures SyncedBelow(frame, WithPage(lastSent, frame, page), forceFull, WithPage(gram, frame, page), page + 1)
    ensures forall k :: page < k < PAGES ==>
      Dirty(frame, WithPage(lastSent, frame, page), forceFull, k) == Dirty(frame, lastSent, forceFull, k)
  {
    PrefixGrows(frame, page);
    forall k | page < k < PAGES ensures Page(WithPage(lastSent, frame, page), k) == Page(lastSent, k) {
      LaterPage(lastSent, frame, page, k);
    }
  }

  lemma LaterPage(f: Frame, from: Frame, page: nat, k: nat)
    requires page < k < PAGES
    ensures Page(WithPage(f, from, page), k) == Page(f, k)
  {
    assert forall i :: PageStart(k) <= i < PageStart(k + 1) ==> WithPage(f, from, page)[i] == f[i];
  }

  lemma PrefixGrows(f: Frame, page: nat)
    requires page < PAGES
    ensures f[..PageStart(page + 1)] == f[..PageStart(page)] + Page(f, page)
  {
  }

  lemma PageClean(frame: Frame, lastSent: Frame, forceFull: bool, gram: Frame, page: nat)
    requires page < PAGES && SyncedBelow(frame, lastSent, forceFull, gram, page)
      && !Dirty(frame, lastSent, forceFull, page)
    ensures SyncedBelow(frame, lastSent, forceFull, gram, page + 1)
  {
    PrefixGrows(frame, page);
    PrefixGrows(lastSent, page);
  }

  // ---- What the controller does with a transfer ----

  /** The display controller in page addressing mode: its memory, and where the next data
      byte goes. */
  datatype Controller = Controller(gram: Frame, page: nat, column: nat)

  const CMD_SET_PAGE_START: byte := 0xB0

  /** A command byte: the page to write, the high or the low half of the column; any other
      leaves the addressing alone. */
  function Commanded(c: Controller, b: byte): Controller {
    if b & 0xF8 == CMD_SET_PAGE_START then c.(page := Number(b & 0x07))
    else if b & 0xF0 == 0x10 then c.(column := 16 * Number(b & 0x0F) + c.column % 16)
    else if b & 0xF0 == 0x00 then c.(column := c.column / 16 * 16 + Number(b & 0x0F))
    else c
  }

  /** A data byte lands at the column, which moves on; beyond the panel it is not shown. */
  function DataByte(c: Controller, b: byte): Controller {
    if c.page < PAGES && c.column < WIDTH
    then c.(gram := c.gram[PageStart(c.page) + c.column := b], column := c.column + 1)
    else c.(column := c.column + 1)
  }

  function AllCommands(c: Controller, bytes: seq<byte>): Controller
    decreases |bytes|
  {
    if bytes == [] then c else AllCommands(Commanded(c, bytes[0]), bytes[1..])
  }

  function AllData(c: Controller, bytes: seq<byte>): Controller {
    if bytes == [] then c else DataByte(AllData(c, bytes[..|bytes| - 1]), bytes[|bytes| - 1])
  }

  /** What the driver sends ahead of a page: the page, and column 0 in two halves. */
  function PageAddress(page: nat): seq<byte>
    requires page < PAGES
  {
    [CMD_SET_PAGE_START | (page as byte), 0x10, 0x00]
  }

  lemma PageNumber(page: nat)
    requires page < PAGES
    ensures var b := CMD_SET_PAGE_START | (page as byte); b & 0xF8 == CMD_SET_PAGE_START && Number(b & 0x07) == page
  {
    if page == 0 {
    } else if page == 1 {
    } else if page == 2 {
    } else if page == 3 {
    } else if page == 4 {
    } else if page == 5 {
    } else if page == 6 {
    } else {
      assert page == 7;
    }
  }

  /** Wherever the controller stood, it is sent to the start of the page. */
  lemma AddressLands(c: Controller, page: nat)
    requires page < PAGES
    ensures AllCommands(c, PageAddress(page)) == c.(page := page, column := 0)
  {
    PageNumber(page);
    var bytes := PageAddress(page);
    var onPage := Commanded(c, bytes[0]);
    var high := Commanded(onPage, 0x10);
    assert bytes[1..] == [0x10, 0x00] && bytes[1..][1..] == [0x00] && bytes[1..][1..][1..] == [];
    assert AllCommands(high, [0x00]) == Commanded(high, 0x00);
    assert AllCommands(onPage, [0x10, 0x00]) == AllCommands(high, [0x00]);
  }

  /** The first `n` bytes of a page fill its first `n` columns. */
  lemma {:induction false} DataLands(c: Controller, from: Frame, page: nat, n: nat)
    requires page < PAGES && n <= WIDTH && c.page == page && c.column == 0
    ensures var t := AllData(c, Page(from, page)[..n]);
      && t.page == page && t.column == n
      && forall i :: 0 <= i < FRAME_LEN ==>
        t.gram[i] == if PageStart(page) <= i < PageStart(page) + n then from[i] else c.gram[i]
  {
    if n > 0 {
      assert Page(from, page)[..n][..n - 1] == Page(from, page)[..n - 1];
      DataLands(c, from, page, n - 1);
      assert Page(from, page)[n - 1] == from[PageStart(page) + n - 1];
    }
  }

  /** The whole transfer puts that page of the frame, and nothing else, into memory. */
  lemma TransferLands(c: Controller, from: Frame, page: nat)
    requires page < PAGES
    ensures AllData(AllCommands(c, PageAddress(page)), Page(from, page)).gram == WithPage(c.gram, from, page)
  {
    AddressLands(c, page);
    assert Page(from, page)[..WIDTH] == Page(from, page);
    DataLands(c.(page := page, column := 0), from, page, WIDTH);
  }

  class Oled {
    const frame: array<byte>
    const lastSent: array<byte>
    var forceFull: bool
    /** The controller's display memory, laid out as the frame is; where its addressing
        stands is left open, since each transfer sets it. */
    ghost var gram: Frame

    ghost predicate Valid() reads this, frame, lastSent {
      && frame.Length == lastSent.Length == FRAME_LEN && frame != lastSent
      && (!forceFull ==> gram == lastSent[..])
    }

    constructor (ghost powerOn: Frame)
      ensures Valid() && fresh(frame) && fresh(lastSent) && gram == powerOn && frame[..] == Solid(false)
    {
      frame := new byte[FRAME_LEN](_ => 0);
      lastSent := new byte[FRAME_LEN](_ => 0);
      forceFull, gram := true, powerOn;
    }

    /** Out-of-range coordinates are ignored. */
    method SetPixel(x: nat, y: nat, lit: bool)
      requires Valid()
      modifies frame
      ensures Valid()
      ensures frame[..] == if InPanel(x, y) then WithPixel(old(frame[..]), x, y, lit) else old(frame[..])
    {
      if x >= WIDTH || y >= HEIGHT {
        return;
      }
      var idx := PageStart(y / 8) + x;
      frame[idx] := Assign(frame[idx], Mask(y % 8), lit);
    }

    method DrawIter(pixels: seq<Pixel>)
      requires Valid()
      modifies frame
      ensures Valid()
      ensures forall x, y :: InPanel(x, y) ==> On(frame[..], x, y) == LastDrawn(pixels, x, y, old(On(frame[..], x, y)))
    {
      ghost var before := frame[..];
      for i := 0 to |pixels|
        invariant Valid()
        invariant forall x, y :: InPanel(x, y) ==> On(frame[..], x, y) == LastDrawn(pixels[..i], x, y, On(before, x, y))
      {
        var p := pixels[i];
        ghost var was := frame[..];
        if InPanel(p.x, p.y) {
          SetPixel(p.x, p.y, p.on);
        }
        forall x, y | InPanel(x, y)
          ensures On(frame[..], x, y) == LastDrawn(pixels[..i + 1], x, y, On(before, x, y))
        {
          assert pixels[..i + 1][..i] == pixels[..i];
          if InPanel(p.x, p.y) {
            WithPixelOn(was, p.x, p.y, p.on, x, y);
          }
        }
      }
      assert pixels[..|pixels|] == pixels;
    }

    method Clear(on: bool)
      requires Valid()
      modifies frame
      ensures Valid() && frame[..] == Solid(on)
    {
      forall i | 0 <= i < FRAME_LEN {
        frame[i] := if on then 0xFF else 0;
      }
    }

    method ClearFrame()
      requires Valid()
      modifies frame, this`forceFull
      ensures Valid() && forceFull && frame[..] == Solid(false)
    {
      Clear(false);
      forceFull := true;
    }

    /** One page: three addressing commands, then its data bytes. A transfer that fails
        may leave the addressing anywhere, but lands no data. */
    method WritePage(page: nat) returns (ok: bool)
      requires Valid() && page < PAGES
      modifies this`gram
      ensures gram == if ok then WithPage(old(gram), frame[..], page) else old(gram)
    {
      var cmds := PageAddress(page);
      var data := frame[PageStart(page)..PageStart(page + 1)];
      ok := *;
      if ok {
        ghost var atPage: nat, atColumn: nat := *, *;
        ghost var controller := Controller(gram, atPage, atColumn);
        assert data == Page(frame[..], page);
        TransferLands(controller, frame[..], page);
        gram := AllData(AllCommands(controller, cmds), data).gram;
      }
    }

    method CommitPage(page: nat)
      requires frame.Length == lastSent.Length == FRAME_LEN && frame != lastSent && page < PAGES
      modifies lastSent
      ensures lastSent[..] == WithPage(old(lastSent[..]), frame[..], page)
    {
      forall i | PageStart(page) <= i < PageStart(page + 1) {
        lastSent[i] := frame[i];
      }
    }

    /** Send a page and, only once it has landed, record it as sent. */
    method SendPage(page: nat) returns (ok: bool)
      requires Valid() && page < PAGES && SyncedBelow(frame[..], lastSent[..], forceFull, gram, page)
      modifies lastSent, this`gram
      ensures Valid()
      ensures ok ==> SyncedBelow(frame[..], lastSent[..], forceFull, gram, page + 1)
      ensures ok ==> forall k :: page < k < PAGES ==>
        Dirty(frame[..], lastSent[..], forceFull, k) == old(Dirty(frame[..], lastSent[..], forceFull, k))
    {
      ghost var l, g := lastSent[..], gram;
      ok := WritePage(page);
      if ok {
        CommitPage(page);
        PageLanded(frame[..], l, forceFull, g, page);
      }
    }

    /** Send the dirty pages in order, recording each as sent once it has landed and
        stopping at the first that does not. */
    method Flush() returns (r: FlushResult, ghost sent: seq<nat>, ghost stop: nat)
      requires Valid()
      modifies lastSent, this`forceFull, this`gram
      ensures Valid()
      ensures r.Sent? ==> gram == frame[..] && !forceFull && r.any == (sent != [])
      ensures stop <= PAGES && sent == DirtyPages(frame[..], old(lastSent[..]), old(forceFull), stop)
      ensures if r.Sent? then stop == PAGES
        else stop < PAGES && Dirty(frame[..], old(lastSent[..]), old(forceFull), stop)
    {
      ghost var was, full := lastSent[..], forceFull;
      sent := [];
      var any := false;
      for page := 0 to PAGES
        invariant Valid() && forceFull == full && any == (sent != [])
        invariant SyncedBelow(frame[..], lastSent[..], full, gram, page)
        invariant forall k :: page <= k < PAGES ==>
          Dirty(frame[..], lastSent[..], full, k) == Dirty(frame[..], was, full, k)
        invariant sent == DirtyPages(frame[..], was, full, page)
      {
        if !Dirty(frame[..], lastSent[..], forceFull, page) {
          PageClean(frame[..], lastSent[..], full, gram, page);
        } else {
          var ok := SendPage(page);
          if !ok {
            return BusError, sent, page;
          }
          sent := sent + [page];
          any := true;
        }
      }
      forceFull := false;
      r, stop := Sent(any), PAGES;
    }
  }

  // ---- Whole runs ----

  datatype Op = Flush

  ghost predicate Holds(f: Frame, drawings: seq<Drawing>) {
    forall x, y :: InPanel(x, y) ==> On(f, x, y) == LastColour(drawings, x, y)
  }

  method DoPaint(t: Oled, drawing: Drawing, ghost drawn: seq<Drawing>)
    requires t.Valid() && Holds(t.frame[..], drawn)
    modifies t.frame, t`forceFull
    ensures t.Valid() && Holds(t.frame[..], drawn + [drawing])
  {
    match drawing
    case Draw(pixels) => t.DrawIter(pixels);
    case Clear(on) => t.Clear(on);
    case ClearFrame => t.ClearFrame();
    forall x, y | InPanel(x, y) ensures On(t.frame[..], x, y) == LastColour(drawn + [drawing], x, y) {
      LastColourExtends(drawn, drawing, x, y);
      SolidOn(true, x, y);
      SolidOn(false, x, y);
    }
  }

  /** Through any run of drawing calls and flushes, any of which may fail: after a flush
      that succeeded, every pixel of the panel is lit or not as it was last drawn. */
  method Run(ghost powerOn: Frame, steps: seq<Step<Op>>) returns (t: Oled, last: FlushResult)
    ensures t.Valid() && Holds(t.frame[..], Drawings(steps))
    ensures steps != [] && steps[|steps| - 1] == Do(Flush) && last.Sent? ==> Holds(t.gram, Drawings(steps))
  {
    t := new Oled(powerOn);
    last := Sent(false);
    ghost var drawn: seq<Drawing> := [];
    forall x, y | InPanel(x, y) ensures On(t.frame[..], x, y) == LastColour([], x, y) {
      SolidOn(false, x, y);
    }
    for i := 0 to |steps|
      invariant fresh(t) && fresh(t.frame) && fresh(t.lastSent)
      invariant t.Valid() && Holds(t.frame[..], drawn) && drawn == Drawings(steps[..i])
      invariant 0 < i && steps[i - 1] == Do(Flush) && last.Sent? ==> t.gram == t.frame[..]
    {
      DrawingsExtend(steps, i);
      match steps[i]
      case Paint(drawing) =>
        DoPaint(t, drawing, drawn);
        drawn := drawn + [drawing];
      case Do(Flush) =>
        ghost var sent, stop;
        last, sent, stop := t.Flush();
    }
    assert steps[..|steps|] == steps;
  }
}
