/** The Sharp memory display's wire format: what the driver packs, and what the panel
    reads back from it. */
module SharpWire {
  import opened Bits
  import opened Prelude

  const WIDTH: nat := 400
  const HEIGHT: nat := 240
  const BYTES_PER_LINE: nat := 50
  const FRAME_LEN: nat := 12000
  /** Mode byte, every line with its address and terminator, and the final zero. */
  const TX_LEN: nat := 12482

  const CMD_WRITE: byte := 0x01
  const CMD_VCOM: byte := 0x02

  type Frame = f: seq<byte> | |f| == FRAME_LEN witness seq(FRAME_LEN, _ => 0xFF)

  /** One addressed line of a packet; addresses count from 1. */
  datatype Line = Line(address: nat, data: seq<byte>)

  datatype Packet = Packet(write: bool, vcom: bool, lines: seq<Line>)

  function LineStart(line: nat): nat { 50 * line }

  function LineData(f: Frame, line: nat): (data: seq<byte>)
    requires line < HEIGHT
    ensures |data| == BYTES_PER_LINE
  {
    f[LineStart(line)..LineStart(line + 1)]
  }

  function Reversed(s: seq<byte>): (r: seq<byte>)
    ensures |r| == |s|
  {
    seq(|s|, i requires 0 <= i < |s| => ReverseBits(s[i]))
  }

  lemma ReversedTwice(s: seq<byte>)
    ensures Reversed(Reversed(s)) == s
  {
    forall i | 0 <= i < |s| ensures ReverseBits(ReverseBits(s[i])) == s[i] {
      ReverseTwice(s[i]);
    }
  }

  function Address(line: nat): byte
    requires line < HEIGHT
  {
    (line + 1) as byte
  }

  // ---- Packing ----

  function LineBytes(f: Frame, line: nat): (bytes: seq<byte>)
    requires line < HEIGHT
    ensures |bytes| == 52
  {
    [ReverseBits(Address(line))] + Reversed(LineData(f, line)) + [0]
  }

  /** The packed dirty lines below `end`. */
  ghost function Body(f: Frame, dirty: seq<bool>, end: nat): (bytes: seq<byte>)
    requires |dirty| == HEIGHT && end <= HEIGHT
    ensures |bytes| <= 52 * end
  {
    if end == 0 then []
    else Body(f, dirty, end - 1) + if dirty[end - 1] then LineBytes(f, end - 1) else []
  }

  function Mode(write: bool, vcom: bool): byte {
    (if write then CMD_WRITE else 0) | (if vcom then CMD_VCOM else 0)
  }

  /** A whole frame update as it goes over the wire. */
  ghost function Packed(f: Frame, dirty: seq<bool>, vcom: bool): seq<byte>
    requires |dirty| == HEIGHT
  {
    [ReverseBits(Mode(true, vcom))] + Body(f, dirty, HEIGHT) + [0]
  }

  // ---- Reading back ----

  ghost function DecodeLines(b: seq<byte>): Option<seq<Line>>
    decreases |b|
  {
    if b == [0] then Some([])
    else if |b| < 53 || b[51] != 0 then None
    else
      match DecodeLines(b[52..])
      case None => None
      case Some(rest) => Some([Line(Number(ReverseBits(b[0])), Reversed(b[1..51]))] + rest)
  }

  ghost function Decode(wire: seq<byte>): Option<Packet> {
    if wire == [] then None
    else
      var mode := ReverseBits(wire[0]);
      match DecodeLines(wire[1..])
      case None => None
      case Some(lines) => Some(Packet(mode & CMD_WRITE != 0, mode & CMD_VCOM != 0, lines))
  }

  /** The dirty lines below `end`, with their contents. */
  ghost function DirtyLines(f: Frame, dirty: seq<bool>, end: nat): seq<Line>
    requires |dirty| == HEIGHT && end <= HEIGHT
  {
    if end == 0 then []
    else DirtyLines(f, dirty, end - 1) + if dirty[end - 1] then [Line(end, LineData(f, end - 1))] else []
  }

  lemma ModeRoundTrip(write: bool, vcom: bool)
    ensures var mode := ReverseBits(ReverseBits(Mode(write, vcom)));
      (mode & CMD_WRITE != 0) == write && (mode & CMD_VCOM != 0) == vcom
  {
    ReverseTwice(Mode(write, vcom));
  }

  lemma ByteRoundTrip(n: nat)
    requires n < 256
    ensures Number(n as byte) == n
  {
  }

  lemma AddressRoundTrip(line: nat)
    requires line < HEIGHT
    ensures Number(ReverseBits(ReverseBits(Address(line)))) == line + 1
  {
    var b := Address(line);
    assert Number(b) == line + 1 by {
      ByteRoundTrip(line + 1);
    }
    assert ReverseBits(ReverseBits(b)) == b by {
      ReverseTwice(b);
    }
  }

  lemma LineRoundTrip(f: Frame, line: nat, rest: seq<byte>)
    requires line < HEIGHT && rest != []
    ensures DecodeLines(LineBytes(f, line) + rest) ==
      if DecodeLines(rest).None? then None else Some([Line(line + 1, LineData(f, line))] + DecodeLines(rest).value)
  {
    var b := LineBytes(f, line) + rest;
    AddressRoundTrip(line);
    ReversedTwice(LineData(f, line));
    assert b[0] == ReverseBits(Address(line)) && b[51] == 0 && b[52..] == rest;
    assert b[1..51] == Reversed(LineData(f, line));
  }

  lemma {:induction false} BodyRoundTrip(f: Frame, dirty: seq<bool>, end: nat, rest: seq<byte>, lines: seq<Line>)
    requires |dirty| == HEIGHT && end <= HEIGHT && DecodeLines(rest) == Some(lines)
    ensures DecodeLines(Body(f, dirty, end) + rest) == Some(DirtyLines(f, dirty, end) + lines)
    decreases end
  {
    if end == 0 {
      Regroup([], [], rest);
      Regroup([], [], lines);
    } else if dirty[end - 1] {
      var here, line := LineBytes(f, end - 1), Line(end, LineData(f, end - 1));
      LineRoundTrip(f, end - 1, rest);
      BodyRoundTrip(f, dirty, end - 1, here + rest, [line] + lines);
      Regroup(Body(f, dirty, end - 1), here, rest);
      Regroup(DirtyLines(f, dirty, end - 1), [line], lines);
    } else {
      BodyRoundTrip(f, dirty, end - 1, rest, lines);
      Regroup(Body(f, dirty, end - 1), [], rest);
      Regroup(DirtyLines(f, dirty, end - 1), [], lines);
    }
  }

  /** What the driver packs, the panel reads back: a write, the VCOM bit, and exactly the
      dirty lines with their contents. */
  lemma PackedRoundTrip(f: Frame, dirty: seq<bool>, vcom: bool)
    requires |dirty| == HEIGHT
    ensures Decode(Packed(f, dirty, vcom)) == Some(Packet(true, vcom, DirtyLines(f, dirty, HEIGHT)))
    ensures |Packed(f, dirty, vcom)| <= TX_LEN
  {
    var wire := Packed(f, dirty, vcom);
    BodyRoundTrip(f, dirty, HEIGHT, [0], []);
    assert DecodeLines([0]) == Some([]) && DirtyLines(f, dirty, HEIGHT) + [] == DirtyLines(f, dirty, HEIGHT);
    assert wire[1..] == Body(f, dirty, HEIGHT) + [0];
    ModeRoundTrip(true, vcom);
  }

  /** The bus sends each byte from its most significant bit, the panel wants the least
      significant first: so bit `x % 8` on the wire, counted as it is sent, is pixel `x`. */
  lemma PixelsInWireOrder(f: Frame, line: nat, x: nat)
    requires line < HEIGHT && x < WIDTH
    ensures BitMsb(LineBytes(f, line)[1 + x / 8], x % 8) == Bit(f[LineStart(line) + x / 8], x % 8)
  {
    ReverseBit(f[LineStart(line) + x / 8], x % 8);
    assert LineBytes(f, line)[1 + x / 8] == ReverseBits(LineData(f, line)[x / 8]);
  }

  /** The two-byte transfer that only keeps VCOM alternating. */
  lemma IdleRoundTrip(vcom: bool)
    ensures Decode([ReverseBits(Mode(false, vcom)), 0]) == Some(Packet(false, vcom, []))
  {
    assert [ReverseBits(Mode(false, vcom)), 0][1..] == [0];
    ModeRoundTrip(false, vcom);
  }

  // ---- The panel ----

  /** Panel memory with one line rewritten; an address outside the panel is ignored. */
  ghost function WriteLine(gram: Frame, l: Line): Frame {
    if 1 <= l.address <= HEIGHT && |l.data| == BYTES_PER_LINE
    then gram[..LineStart(l.address - 1)] + l.data + gram[LineStart(l.address)..] else gram
  }

  ghost function WriteLines(gram: Frame, lines: seq<Line>): Frame
    decreases |lines|
  {
    if lines == [] then gram else WriteLine(WriteLines(gram, lines[..|lines| - 1]), lines[|lines| - 1])
  }

  ghost function Receive(gram: Frame, p: Packet): Frame {
    if p.write then WriteLines(gram, p.lines) else gram
  }

  lemma WriteLineData(gram: Frame, l: Line, k: nat)
    requires k < HEIGHT && 1 <= l.address <= HEIGHT && |l.data| == BYTES_PER_LINE
    ensures LineData(WriteLine(gram, l), k) == if k + 1 == l.address then l.data else LineData(gram, k)
  {
    var (after, line) := (WriteLine(gram, l), l.address - 1);
    assert after == gram[..LineStart(line)] + l.data + gram[LineStart(line + 1)..];
    forall i | LineStart(k) <= i < LineStart(k + 1)
      ensures after[i] == if k == line then l.data[i - LineStart(k)] else gram[i]
    {
      if k < line {
        assert i < LineStart(line);
      } else if k == line {
        assert LineStart(line) <= i < LineStart(line) + |l.data|;
      } else {
        assert i >= LineStart(line + 1) == LineStart(line) + |l.data|;
      }
    }
  }

  /** Writing the dirty lines below `end` brings the lines below `end` to the frame,
      provided the lines left out already show it, and touches no other line. */
  lemma {:induction false} DirtyLinesSuffice(gram: Frame, f: Frame, dirty: seq<bool>, end: nat)
    requires |dirty| == HEIGHT && end <= HEIGHT
    requires forall line :: 0 <= line < end && !dirty[line] ==> LineData(gram, line) == LineData(f, line)
    ensures forall line :: 0 <= line < HEIGHT ==>
      LineData(WriteLines(gram, DirtyLines(f, dirty, end)), line) == LineData(if line < end then f else gram, line)
  {
    if end > 0 {
      DirtyLinesSuffice(gram, f, dirty, end - 1);
      if dirty[end - 1] {
        var (lines, l) := (DirtyLines(f, dirty, end), Line(end, LineData(f, end - 1)));
        assert lines[..|lines| - 1] == DirtyLines(f, dirty, end - 1) && lines[|lines| - 1] == l;
        forall k | 0 <= k < HEIGHT
          ensures LineData(WriteLines(gram, lines), k) == LineData(if k < end then f else gram, k)
        {
          WriteLineData(WriteLines(gram, DirtyLines(f, dirty, end - 1)), l, k);
        }
      } else {
        assert DirtyLines(f, dirty, end) == DirtyLines(f, dirty, end - 1);
      }
    }
  }

  lemma SameLinesSameFrame(a: Frame, b: Frame)
    requires forall line :: 0 <= line < HEIGHT ==> LineData(a, line) == LineData(b, line)
    ensures a == b
  {
    forall i | 0 <= i < FRAME_LEN ensures a[i] == b[i] {
      var line := i / 50;
      assert a[i] == LineData(a, line)[i - LineStart(line)] && b[i] == LineData(b, line)[i - LineStart(line)];
    }
  }
}
