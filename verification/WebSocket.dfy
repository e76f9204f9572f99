/** The cloud probe's WebSocket framing, RFC 6455: frames written and read (section 5.2),
    masking (section 5.3) and fragmented messages (section 5.4). */
module WebSocket {
  import opened Prelude

  type byte = x: int | 0 <= x < 256

  datatype Frame = Frame(fin: bool, opcode: nat, payload: seq<byte>)

  const MAX_PAYLOAD: nat := 0x1_0000_0000_0000_0000

  const OP_CONTINUATION: nat := 0
  const OP_TEXT: nat := 1
  const OP_BINARY: nat := 2
  const OP_CLOSE: nat := 8
  const OP_PING: nat := 9
  const OP_PONG: nat := 10

  // ---- Big-endian numbers ----

  function Power256(k: nat): (p: nat)
    ensures p > 0
  {
    if k == 0 then 1 else 256 * Power256(k - 1)
  }

  /** `n` as `k` bytes, most significant first. */
  function BigEndian(n: nat, k: nat): (b: seq<byte>)
    ensures |b| == k
  {
    if k == 0 then [] else BigEndian(n / 256, k - 1) + [n % 256]
  }

  function Number(b: seq<byte>): nat {
    if b == [] then 0 else 256 * Number(b[..|b| - 1]) + b[|b| - 1]
  }

  lemma {:induction false} BigEndianRoundTrip(n: nat, k: nat)
    requires n < Power256(k)
    ensures Number(BigEndian(n, k)) == n
  {
    if k > 0 {
      assert BigEndian(n, k)[..k - 1] == BigEndian(n / 256, k - 1);
      BigEndianRoundTrip(n / 256, k - 1);
    }
  }

  lemma {:induction false} NumberBounded(b: seq<byte>)
    ensures Number(b) < Power256(|b|)
  {
    if b != [] {
      NumberBounded(b[..|b| - 1]);
    }
  }

  lemma Powers()
    ensures Power256(2) == 0x1_0000 && Power256(8) == MAX_PAYLOAD
  {
    assert Power256(4) == 0x1_0000_0000;
    assert Power256(6) == 0x1_0000_0000_0000;
  }

  // ---- Masking ----

  /** The bits of `a` and `b` compared one by one, `k` of them. */
  function XorBits(a: nat, b: nat, k: nat): (x: nat) {
    if k == 0 then 0 else 2 * XorBits(a / 2, b / 2, k - 1) + (a + b) % 2
  }

  lemma {:induction false} XorBitsTwice(a: nat, b: nat, k: nat)
    ensures XorBits(XorBits(a, b, k), b, k) == XorBits(a, 0, k)
  {
    if k > 0 {
      var high := XorBits(a / 2, b / 2, k - 1);
      LowBit(high, a, b);
      XorBitsTwice(a / 2, b / 2, k - 1);
      assert XorBits(XorBits(a, b, k), b, k) == 2 * XorBits(high, b / 2, k - 1) + a % 2;
    }
  }

  /** The lowest bit of a number built on `high`, and what comparing it with `b` again gives. */
  lemma LowBit(high: nat, a: nat, b: nat)
    ensures var x := 2 * high + (a + b) % 2;
      x / 2 == high && (x + b) % 2 == a % 2
  {
  }

  lemma {:induction false} XorBitsBounded(a: nat, b: nat, k: nat)
    ensures XorBits(a, b, k) < Power2(k)
    ensures a < Power2(k) ==> XorBits(a, 0, k) == a
  {
    if k > 0 {
      XorBitsBounded(a / 2, b / 2, k - 1);
    }
  }

  function Power2(k: nat): nat {
    if k == 0 then 1 else 2 * Power2(k - 1)
  }

  lemma Power2Of8()
    ensures Power2(8) == 256
  {
    assert Power2(4) == 16;
  }

  function Xor(a: byte, b: byte): byte {
    XorBitsBounded(a, b, 8);
    Power2Of8();
    XorBits(a, b, 8)
  }

  lemma XorTwice(a: byte, b: byte)
    ensures Xor(Xor(a, b), b) == a
  {
    XorBitsTwice(a, b, 8);
    XorBitsBounded(a, 0, 8);
    Power2Of8();
  }

  type Key = k: seq<byte> | |k| == 4 witness [0, 0, 0, 0]

  function Masked(data: seq<byte>, key: Key): (m: seq<byte>)
    ensures |m| == |data|
  {
    seq(|data|, i requires 0 <= i < |data| => Xor(data[i], key[i % 4]))
  }

  /** Unmasking is masking again. */
  lemma MaskedTwice(data: seq<byte>, key: Key)
    ensures Masked(Masked(data, key), key) == data
  {
    forall i | 0 <= i < |data| ensures Masked(Masked(data, key), key)[i] == data[i] {
      XorTwice(data[i], key[i % 4]);
    }
  }

  // ---- Frames on the wire ----

  /** The 7-bit length field and the extended length after it, in the shortest form. */
  function LengthField(n: nat): byte {
    if n < 126 then n else if n < 0x1_0000 then 126 else 127
  }

  function ExtendedLength(n: nat): seq<byte> {
    if n < 126 then [] else if n < 0x1_0000 then BigEndian(n, 2) else BigEndian(n, 8)
  }

  ghost predicate Sendable(f: Frame) {
    f.opcode < 16 && |f.payload| < MAX_PAYLOAD
  }

  /** What follows the length: a client's masking key and masked payload, or a server's plain payload. */
  function Body(f: Frame, key: Option<Key>): seq<byte> {
    match key
    case None => f.payload
    case Some(k) => k + Masked(f.payload, k)
  }

  /** A frame as section 5.2 lays it out, masked by a client and plain from a server. */
  function Encode(f: Frame, key: Option<Key>): seq<byte>
    requires f.opcode < 16
  {
    [FirstByte(f), Flags(f, key)] + (ExtendedLength(|f.payload|) + Body(f, key))
  }

  function FirstByte(f: Frame): byte
    requires f.opcode < 16
  {
    (if f.fin then 128 else 0) + f.opcode
  }

  function Flags(f: Frame, key: Option<Key>): byte {
    (if key.Some? then 128 else 0) + LengthField(|f.payload|)
  }

  /** The probe's own frames: whole messages, unmasked. */
  method SendFrame(opcode: nat, payload: seq<byte>) returns (wire: seq<byte>)
    requires opcode < 16 && |payload| < MAX_PAYLOAD
    ensures wire == Encode(Frame(true, opcode, payload), None)
  {
    var header: seq<byte> := [0x80 + opcode];
    var n := |payload|;
    if n < 126 {
      header := header + [n];
      assert ExtendedLength(n) + payload == payload;
    } else if n < 0x1_0000 {
      header := header + ([126] + BigEndian(n, 2));
    } else {
      header := header + ([127] + BigEndian(n, 8));
    }
    wire := header + payload;
  }

  /** A frame read off the front of the stream, and what follows it. */
  datatype Parsed = Parsed(frame: Frame, rest: seq<byte>)

  function ExtendedBytes(field: nat): nat {
    if field == 126 then 2 else if field == 127 then 8 else 0
  }

  /** Everything after the extended length: the key, if there is one, and the payload. */
  function DecodeBody(b: seq<byte>, fin: bool, opcode: nat, masked: bool, n: nat): Option<Parsed> {
    var skip := if masked then 4 else 0;
    if |b| < skip + n then None
    else
      var data := b[skip..skip + n];
      Some(Parsed(Frame(fin, opcode, if masked then Masked(data, b[..4]) else data), b[skip + n..]))
  }

  /** What follows the first two bytes, `flags` being the mask bit and length field. */
  function DecodeRest(b: seq<byte>, fin: bool, opcode: nat, flags: byte): Option<Parsed> {
    var (field, more) := (flags % 128, ExtendedBytes(flags % 128));
    if |b| < more then None
    else DecodeBody(b[more..], fin, opcode, flags >= 128, if more == 0 then field else Number(b[..more]))
  }

  function Decode(b: seq<byte>): Option<Parsed> {
    if |b| < 2 then None else DecodeRest(b[2..], b[0] >= 128, b[0] % 16, b[1])
  }

  lemma DecodeLength(n: nat, rest: seq<byte>)
    requires n < MAX_PAYLOAD
    ensures var (more, b) := (ExtendedBytes(LengthField(n)), ExtendedLength(n) + rest);
      more <= |b| && b[more..] == rest && n == if more == 0 then LengthField(n) else Number(b[..more])
  {
    Powers();
    var ext := ExtendedLength(n);
    assert (ext + rest)[..|ext|] == ext && (ext + rest)[|ext|..] == rest;
    if n >= 126 {
      BigEndianRoundTrip(n, |ext|);
    }
  }

  lemma DecodeBodyRoundTrip(f: Frame, key: Option<Key>, rest: seq<byte>)
    ensures DecodeBody(Body(f, key) + rest, f.fin, f.opcode, key.Some?, |f.payload|) == Some(Parsed(f, rest))
  {
    var n := |f.payload|;
    match key {
      case None =>
        assert (f.payload + rest)[0..n] == f.payload && (f.payload + rest)[n..] == rest;
      case Some(k) =>
        var b := k + Masked(f.payload, k) + rest;
        assert b[..4] == k && b[4..4 + n] == Masked(f.payload, k) && b[4 + n..] == rest;
        MaskedTwice(f.payload, k);
    }
  }

  /** The rest of a frame, once its first two bytes are read. */
  lemma RestRoundTrip(f: Frame, key: Option<Key>, rest: seq<byte>)
    requires Sendable(f)
    ensures DecodeRest(ExtendedLength(|f.payload|) + (Body(f, key) + rest), f.fin, f.opcode, Flags(f, key)) ==
      Some(Parsed(f, rest))
  {
    assert Flags(f, key) % 128 == LengthField(|f.payload|) && (Flags(f, key) >= 128) == key.Some?;
    DecodeLength(|f.payload|, Body(f, key) + rest);
    DecodeBodyRoundTrip(f, key, rest);
  }

  lemma TwoThenRest(a: byte, b: byte, t: seq<byte>, u: seq<byte>, rest: seq<byte>)
    ensures var s := [a, b] + (t + u) + rest;
      |s| >= 2 && s[0] == a && s[1] == b && s[2..] == t + (u + rest)
  {
  }

  /** Any frame, masked or not, is read back as it was written, whatever follows it. */
  lemma FrameRoundTrip(f: Frame, key: Option<Key>, rest: seq<byte>)
    requires Sendable(f)
    ensures Decode(Encode(f, key) + rest) == Some(Parsed(f, rest))
  {
    TwoThenRest(FirstByte(f), Flags(f, key), ExtendedLength(|f.payload|), Body(f, key), rest);
    assert FirstByte(f) % 16 == f.opcode && (FirstByte(f) >= 128) == f.fin;
    RestRoundTrip(f, key, rest);
  }

  ghost predicate AllSendable(frames: seq<Frame>) {
    forall i :: 0 <= i < |frames| ==> Sendable(frames[i])
  }

  /** The frames one after another, each masked or not as it may be. */
  ghost function EncodeAll(frames: seq<Frame>, keys: seq<Option<Key>>): seq<byte>
    requires AllSendable(frames) && |keys| == |frames|
  {
    if frames == [] then [] else Encode(frames[0], keys[0]) + EncodeAll(frames[1..], keys[1..])
  }

  /** Every frame of a stream, up to the first that is not all there, and what is left. */
  function DecodeAll(b: seq<byte>): (seq<Frame>, seq<byte>)
    decreases |b|
  {
    if Decode(b).None? then ([], b)
    else
      DecodeShrinks(b);
      var (frames, rest) := DecodeAll(Decode(b).value.rest);
      ([Decode(b).value.frame] + frames, rest)
  }

  lemma DecodeShrinks(b: seq<byte>)
    ensures Decode(b).Some? ==> |Decode(b).value.rest| < |b|
  {
  }

  /** A stream of frames written one after another is read back frame by frame, to the last byte. */
  lemma {:induction false} StreamRoundTrip(frames: seq<Frame>, keys: seq<Option<Key>>)
    requires AllSendable(frames) && |keys| == |frames|
    ensures DecodeAll(EncodeAll(frames, keys)) == (frames, [])
    decreases |frames|
  {
    if frames != [] {
      var rest := EncodeAll(frames[1..], keys[1..]);
      FrameRoundTrip(frames[0], keys[0], rest);
      StreamRoundTrip(frames[1..], keys[1..]);
      assert [frames[0]] + frames[1..] == frames;
    }
  }

  /** No encoding of a frame that the reader accepts is shorter than the one written. */
  lemma EncodingIsShortest(f: Frame, other: seq<byte>)
    requires Sendable(f) && Decode(other) == Some(Parsed(f, []))
    ensures |Encode(f, None)| <= |other|
  {
    Powers();
    var more := ExtendedBytes(other[1] % 128);
    NumberBounded(other[2..][..more]);
    assert |other| >= 2 + more + |f.payload|;
  }

  // ---- Reading ----

  class Socket {
    /** The bytes the peer has still to deliver, after which it closes the connection. */
    var stream: seq<byte>

    constructor (stream: seq<byte>)
      ensures this.stream == stream
    {
      this.stream := stream;
    }

    /** Some of what is to come, at most `max` bytes of it; nothing only at the end. */
    method Recv(max: nat) returns (chunk: seq<byte>)
      requires max > 0
      modifies this
      ensures |chunk| <= max && (chunk == [] <==> old(stream) == [])
      ensures old(stream) == chunk + stream
    {
      if stream == [] {
        return [];
      }
      var n: nat :| 1 <= n <= max && n <= |stream|;
      chunk, stream := stream[..n], stream[n..];
    }

    /** Exactly `n` bytes, in however many pieces they come, or `None` if the peer closes first. */
    method RecvExact(n: nat) returns (r: Option<seq<byte>>)
      modifies this
      ensures if |old(stream)| >= n then r == Some(old(stream)[..n]) && stream == old(stream)[n..]
        else r == None && stream == []
    {
      var buf: seq<byte> := [];
      while |buf| < n
        invariant |buf| <= n && old(stream) == buf + stream
        decreases n - |buf|
      {
        var chunk := Recv(n - |buf|);
        if chunk == [] {
          return None;
        }
        buf := buf + chunk;
      }
      assert old(stream)[..n] == buf && old(stream)[n..] == stream;
      r := Some(buf);
    }

    /** The payload length a 7-bit field stands for, reading its extension if it has one. */
    method ReadLength(field: nat) returns (r: Option<nat>)
      modifies this
      ensures var (b, more) := (old(stream), ExtendedBytes(field));
        if |b| < more then r == None
        else r == Some(if more == 0 then field else Number(b[..more])) && stream == b[more..]
    {
      if field != 126 && field != 127 {
        return Some(field);
      }
      var ext := RecvExact(ExtendedBytes(field));
      if ext.None? {
        return None;
      }
      r := Some(Number(ext.value));
    }

    /** The key, if there is one, and the payload, unmasked. */
    method ReadBody(fin: bool, opcode: nat, masked: bool, n: nat) returns (r: Option<Frame>)
      modifies this
      ensures var p := DecodeBody(old(stream), fin, opcode, masked, n);
        if p.None? then r == None else r == Some(p.value.frame) && stream == p.value.rest
    {
      ghost var b := stream;
      if masked {
        var key := RecvExact(4);
        if key.None? {
          return None;
        }
        var data := RecvExact(n);
        if data.None? {
          return None;
        }
        assert b[4..][..n] == b[4..4 + n] && b[4..][n..] == b[4 + n..];
        return Some(Frame(fin, opcode, Masked(data.value, key.value)));
      }
      var data := RecvExact(n);
      if data.None? {
        return None;
      }
      assert b[0..0 + n] == b[..n];
      r := Some(Frame(fin, opcode, data.value));
    }

    /** One frame off the stream, or `None` if it ends first. */
    method ReadFrame() returns (r: Option<Frame>)
      modifies this
      ensures var p := Decode(old(stream));
        if p.None? then r == None else r == Some(p.value.frame) && stream == p.value.rest
    {
      var head := RecvExact(2);
      if head.None? {
        return None;
      }
      var (b0, b1) := (head.value[0], head.value[1]);
      var n := ReadLength(b1 % 128);
      if n.None? {
        return None;
      }
      r := ReadBody(b0 >= 128, b0 % 16, b1 >= 128, n.value);
    }
  }

  // ---- Messages ----

  /** What the probe reports of what it reads. */
  datatype Event =
    | TextMessage(text: seq<byte>)
    | BinaryFrame(fin: bool, data: seq<byte>)
    | Close(reason: seq<byte>)
    | Ping(data: seq<byte>)
    | Pong(data: seq<byte>)
    | Unknown(opcode: nat, data: seq<byte>)

  function IsData(f: Frame): bool { f.opcode == OP_CONTINUATION || f.opcode == OP_TEXT }

  /** The message so far once this frame has come in. */
  function Extended(message: Option<seq<byte>>, f: Frame): seq<byte> {
    if f.opcode == OP_TEXT then f.payload else (if message.Some? then message.value else []) + f.payload
  }

  function EventOf(f: Frame, message: Option<seq<byte>>): seq<Event> {
    if IsData(f) then if f.fin then [TextMessage(Extended(message, f))] else []
    else if f.opcode == OP_BINARY then [BinaryFrame(f.fin, f.payload)]
    else if f.opcode == OP_CLOSE then [Close(f.payload)]
    else if f.opcode == OP_PING then [Ping(f.payload)]
    else if f.opcode == OP_PONG then [Pong(f.payload)]
    else [Unknown(f.opcode, f.payload)]
  }

  function MessageAfter(f: Frame, message: Option<seq<byte>>): Option<seq<byte>> {
    if !IsData(f) then message else if f.fin then None else Some(Extended(message, f))
  }

  function Take2(data: seq<byte>): seq<byte> { if |data| < 2 then data else data[..2] }

  /** What the probe answers a frame with. */
  function Answer(f: Frame): Option<Frame> {
    if f.opcode == OP_CLOSE then Some(Frame(true, OP_CLOSE, Take2(f.payload)))
    else if f.opcode == OP_PING then Some(Frame(true, OP_PONG, f.payload))
    else None
  }

  /** Everything reported of a run of frames, up to a close. */
  function Report(frames: seq<Frame>, message: Option<seq<byte>>): seq<Event>
    decreases |frames|
  {
    if frames == [] then []
    else if frames[0].opcode == OP_CLOSE then EventOf(frames[0], message)
    else EventOf(frames[0], message) + Report(frames[1..], MessageAfter(frames[0], message))
  }

  function Answers(frames: seq<Frame>): seq<Frame>
    decreases |frames|
  {
    if frames == [] then []
    else
      var first := if Answer(frames[0]).Some? then [Answer(frames[0]).value] else [];
      if frames[0].opcode == OP_CLOSE then first else first + Answers(frames[1..])
  }

  /** What a frame adds to the report, and what is reported after it. */
  lemma ReportFirst(f: Frame, rest: seq<Frame>, message: Option<seq<byte>>)
    ensures var later := if f.opcode == OP_CLOSE then [] else Report(rest, MessageAfter(f, message));
      Report([f] + rest, message) == EventOf(f, message) + later
    ensures var later := if f.opcode == OP_CLOSE then [] else Answers(rest);
      Answers([f] + rest) == (if Answer(f).Some? then [Answer(f).value] else []) + later
  {
    assert ([f] + rest)[1..] == rest;
  }

  /** Read frames until the peer closes or the stream ends. */
  method Serve(sock: Socket) returns (events: seq<Event>, answers: seq<Frame>)
    modifies sock
    ensures events == Report(DecodeAll(old(sock.stream)).0, None)
    ensures answers == Answers(DecodeAll(old(sock.stream)).0)
  {
    events, answers := [], [];
    var message: Option<seq<byte>> := None;
    ghost var todo := DecodeAll(sock.stream).0;
    ghost var report, replies := Report(todo, None), Answers(todo);
    while true
      invariant todo == DecodeAll(sock.stream).0
      invariant report == events + Report(todo, message)
      invariant replies == answers + Answers(todo)
      decreases |sock.stream|
    {
      DecodeShrinks(sock.stream);
      var read := sock.ReadFrame();
      if read.None? {
        return;
      }
      var f := read.value;
      ghost var rest := DecodeAll(sock.stream).0;
      assert todo == [f] + rest;
      ReportFirst(f, rest, message);
      Regroup(events, EventOf(f, message), Report(rest, MessageAfter(f, message)));
      Regroup(answers, if Answer(f).Some? then [Answer(f).value] else [], Answers(rest));
      events := events + EventOf(f, message);
      answers := answers + if Answer(f).Some? then [Answer(f).value] else [];
      if f.opcode == OP_CLOSE {
        return;
      }
      message, todo := MessageAfter(f, message), rest;
    }
  }

  function TextsOf(events: seq<Event>): seq<seq<byte>> {
    if events == [] then []
    else (if events[0].TextMessage? then [events[0].text] else []) + TextsOf(events[1..])
  }

  /** A message in fragments: a text frame, then continuations, the last marked final. */
  function Continued(parts: seq<seq<byte>>): seq<Frame> {
    seq(|parts|, i requires 0 <= i < |parts| => Frame(i == |parts| - 1, OP_CONTINUATION, parts[i]))
  }

  function Fragments(parts: seq<seq<byte>>): seq<Frame>
    requires parts != []
  {
    [Frame(|parts| == 1, OP_TEXT, parts[0])] + Continued(parts[1..])
  }

  function Concat(parts: seq<seq<byte>>): seq<byte> {
    if parts == [] then [] else parts[0] + Concat(parts[1..])
  }

  /** The data frames among others. */
  function DataFrames(frames: seq<Frame>): seq<Frame> {
    if frames == [] then [] else (if IsData(frames[0]) then [frames[0]] else []) + DataFrames(frames[1..])
  }

  lemma {:induction false} TextsSplit(a: seq<Event>, b: seq<Event>)
    ensures TextsOf(a + b) == TextsOf(a) + TextsOf(b)
    decreases |a|
  {
    if a == [] {
      assert a + b == b;
    } else {
      assert (a + b)[1..] == a[1..] + b;
      TextsSplit(a[1..], b);
    }
  }

  /** With part of a message in hand, the continuations still to come complete it, whatever
      control frames come between them. */
  lemma {:induction false} ContinuationsComplete(frames: seq<Frame>, soFar: seq<byte>, parts: seq<seq<byte>>)
    requires DataFrames(frames) == Continued(parts) && forall i :: 0 <= i < |frames| ==> frames[i].opcode != OP_CLOSE
    ensures TextsOf(Report(frames, Some(soFar))) == if parts == [] then [] else [soFar + Concat(parts)]
    decreases |frames|
  {
    if frames != [] {
      var f, rest := frames[0], frames[1..];
      if IsData(f) {
        assert f == Continued(parts)[0];
        assert Continued(parts)[1..] == Continued(parts[1..]) && DataFrames(rest) == DataFrames(frames)[1..];
        assert soFar + parts[0] + Concat(parts[1..]) == soFar + Concat(parts);
        if f.fin {
          NoDataNoText(rest, None);
          assert TextsOf([TextMessage(soFar + parts[0])]) == [soFar + parts[0]] + TextsOf([]);
          assert Concat(parts[1..]) == [] && parts[0] + [] == parts[0];
        } else {
          ContinuationsComplete(rest, soFar + parts[0], parts[1..]);
        }
      } else {
        ContinuationsComplete(rest, soFar, parts);
        assert TextsOf(EventOf(f, Some(soFar))) == [];
      }
      TextsSplit(EventOf(f, Some(soFar)), Report(rest, MessageAfter(f, Some(soFar))));
    }
  }

  lemma {:induction false} NoDataNoText(frames: seq<Frame>, message: Option<seq<byte>>)
    requires DataFrames(frames) == []
    ensures TextsOf(Report(frames, message)) == []
    decreases |frames|
  {
    if frames != [] {
      var f := frames[0];
      assert TextsOf(EventOf(f, message)) == [];
      if f.opcode != OP_CLOSE {
        NoDataNoText(frames[1..], message);
        TextsSplit(EventOf(f, message), Report(frames[1..], message));
      }
    }
  }

  /** Fragments of a text message, with any control frames between them, come out as one
      message holding them all, whatever message was in progress before. */
  lemma {:induction false} FragmentsReassemble(frames: seq<Frame>, parts: seq<seq<byte>>, message: Option<seq<byte>>)
    requires parts != [] && DataFrames(frames) == Fragments(parts)
    requires forall i :: 0 <= i < |frames| ==> frames[i].opcode != OP_CLOSE
    ensures TextsOf(Report(frames, message)) == [Concat(parts)]
    decreases |frames|
  {
    var f, rest := frames[0], frames[1..];
    if IsData(f) {
      assert f == Fragments(parts)[0] && DataFrames(rest) == DataFrames(frames)[1..] == Continued(parts[1..]);
      if f.fin {
        assert parts[1..] == [] && parts[0] + [] == parts[0];
        NoDataNoText(rest, None);
        assert TextsOf([TextMessage(parts[0])]) == [parts[0]] + TextsOf([]);
      } else {
        ContinuationsComplete(rest, parts[0], parts[1..]);
      }
    } else {
      assert TextsOf(EventOf(f, message)) == [];
      FragmentsReassemble(rest, parts, message);
    }
    TextsSplit(EventOf(f, message), Report(rest, MessageAfter(f, message)));
  }

  // ---- What comes back, and what is reported ----

  /** The frames before the first close. */
  function BeforeClose(frames: seq<Frame>): (before: seq<Frame>)
    ensures |before| <= |frames| && before == frames[..|before|]
  {
    if frames == [] || frames[0].opcode == 0x8 then [] else [frames[0]] + BeforeClose(frames[1..])
  }

  /** The payloads of the frames of one kind. */
  function PayloadsOf(frames: seq<Frame>, opcode: nat): seq<seq<byte>> {
    if frames == [] then []
    else (if frames[0].opcode == opcode then [frames[0].payload] else []) + PayloadsOf(frames[1..], opcode)
  }

  function Pongs(payloads: seq<seq<byte>>): seq<Frame> {
    seq(|payloads|, i requires 0 <= i < |payloads| => Frame(true, 0xA, payloads[i]))
  }

  /** The answer to the close, if there is one. */
  function Farewell(frames: seq<Frame>): seq<Frame> {
    var n := |BeforeClose(frames)|;
    if n == |frames| then []
    else
      var reason := frames[n].payload;
      [Frame(true, 0x8, if |reason| < 2 then reason else reason[..2])]
  }

  /** Every ping before a close is answered by a pong with its payload, in order, and a close
      by a close with its status code, last; nothing else is sent. */
  lemma {:induction false} PingsAreAnswered(frames: seq<Frame>)
    ensures Answers(frames) == Pongs(PayloadsOf(BeforeClose(frames), 0x9)) + Farewell(frames)
    decreases |frames|
  {
    if frames != [] && frames[0].opcode != 0x8 {
      PingsAreAnswered(frames[1..]);
      var (before, rest) := (BeforeClose(frames), BeforeClose(frames[1..]));
      var p := PayloadsOf(rest, 0x9);
      assert before[1..] == rest && before[0] == frames[0];
      assert |rest| < |frames[1..]| ==> frames[1..][|rest|] == frames[|before|];
      assert Farewell(frames) == Farewell(frames[1..]);
      if frames[0].opcode == 0x9 {
        PongFirst(frames[0].payload, p, Farewell(frames));
      }
    }
  }

  lemma PongFirst(payload: seq<byte>, payloads: seq<seq<byte>>, rest: seq<Frame>)
    ensures Pongs([payload] + payloads) + rest == [Frame(true, 0xA, payload)] + (Pongs(payloads) + rest)
  {
    assert Pongs([payload] + payloads) == [Frame(true, 0xA, payload)] + Pongs(payloads);
  }

  function NotTexts(events: seq<Event>): seq<Event> {
    if events == [] then []
    else (if events[0].TextMessage? then [] else [events[0]]) + NotTexts(events[1..])
  }

  /** What is reported of a frame that is not text. */
  function Reported(f: Frame): seq<Event> {
    match f.opcode
    case 0x0 => []
    case 0x1 => []
    case 0x2 => [BinaryFrame(f.fin, f.payload)]
    case 0x8 => [Close(f.payload)]
    case 0x9 => [Ping(f.payload)]
    case 0xA => [Pong(f.payload)]
    case _ => [Unknown(f.opcode, f.payload)]
  }

  function AllReported(frames: seq<Frame>): seq<Event> {
    if frames == [] then [] else Reported(frames[0]) + AllReported(frames[1..])
  }

  /** Apart from the texts, each frame up to a close, and the close, is reported as it comes. */
  lemma {:induction false} FramesAreReported(frames: seq<Frame>, message: Option<seq<byte>>)
    ensures NotTexts(Report(frames, message)) ==
      AllReported(if |BeforeClose(frames)| == |frames| then frames else frames[..|BeforeClose(frames)| + 1])
    decreases |frames|
  {
    if frames != [] {
      var (f, n) := (frames[0], |BeforeClose(frames)|);
      var seen := if n == |frames| then frames else frames[..n + 1];
      FrameIsReported(f, message);
      if f.opcode == OP_CLOSE {
        assert seen[1..] == [];
      } else {
        var rest := frames[1..];
        FramesAreReported(rest, MessageAfter(f, message));
        assert seen[1..] == if n == |frames| then rest else rest[..n];
        NotTextsSplit(EventOf(f, message), Report(rest, MessageAfter(f, message)));
      }
    }
  }

  lemma FrameIsReported(f: Frame, message: Option<seq<byte>>)
    ensures NotTexts(EventOf(f, message)) == Reported(f)
  {
    assert EventOf(f, message) != [] ==> EventOf(f, message)[1..] == [];
  }

  lemma {:induction false} NotTextsSplit(a: seq<Event>, b: seq<Event>)
    ensures NotTexts(a + b) == NotTexts(a) + NotTexts(b)
    decreases |a|
  {
    if a == [] {
      assert a + b == b;
    } else {
      assert (a + b)[1..] == a[1..] + b;
      NotTextsSplit(a[1..], b);
    }
  }

  /** Continuations with no text before them make a message of their own. */
  lemma {:induction false} StrayContinuations(frames: seq<Frame>, parts: seq<seq<byte>>)
    requires DataFrames(frames) == Continued(parts) && forall i :: 0 <= i < |frames| ==> frames[i].opcode != OP_CLOSE
    ensures TextsOf(Report(frames, None)) == if parts == [] then [] else [Concat(parts)]
    decreases |frames|
  {
    if parts == [] {
      NoDataNoText(frames, None);
    } else {
      SameWithout(frames);
      ContinuationsComplete(frames, [], parts);
      assert [] + Concat(parts) == Concat(parts);
    }
  }

  /** A message of which nothing has come is no message. */
  lemma {:induction false} SameWithout(frames: seq<Frame>)
    ensures TextsOf(Report(frames, None)) == TextsOf(Report(frames, Some([])))
    decreases |frames|
  {
    if frames != [] && frames[0].opcode != OP_CLOSE {
      var (f, rest) := (frames[0], frames[1..]);
      TextsSplit(EventOf(f, None), Report(rest, MessageAfter(f, None)));
      TextsSplit(EventOf(f, Some([])), Report(rest, MessageAfter(f, Some([]))));
      if !IsData(f) {
        SameWithout(rest);
      }
    }
  }

  /** The examples of section 5.7 of RFC 6455: "Hello" in one frame and in two, and a ping. */
  lemma ExamplesOfTheStandard(hello: seq<byte>)
    requires hello == [0x48, 0x65, 0x6C, 0x6C, 0x6F]
    ensures Encode(Frame(true, 0x1, hello), None) == [0x81, 0x05] + hello
    ensures Encode(Frame(false, 0x1, hello[..3]), None) == [0x01, 0x03, 0x48, 0x65, 0x6C]
    ensures Encode(Frame(true, 0x0, hello[3..]), None) == [0x80, 0x02, 0x6C, 0x6F]
    ensures Encode(Frame(true, 0x9, hello), None) == [0x89, 0x05] + hello
  {
    assert hello[..3] == [0x48, 0x65, 0x6C] && hello[3..] == [0x6C, 0x6F];
  }

  /** "Hello" masked, and the masked pong. */
  lemma MaskedExamples(hello: seq<byte>, key: Key)
    requires hello == [0x48, 0x65, 0x6C, 0x6C, 0x6F] && key == [0x37, 0xFA, 0x21, 0x3D]
    ensures Masked(hello, key) == [0x7F, 0x9F, 0x4D, 0x51, 0x58]
    ensures Encode(Frame(true, 0x1, hello), Some(key)) == [0x81, 0x85] + (key + Masked(hello, key))
    ensures Encode(Frame(true, 0xA, hello), Some(key)) == [0x8A, 0x85] + (key + Masked(hello, key))
  {
    MasksFirst(hello, key);
    MasksSecond(hello, key);
    MasksThird(hello, key);
    MasksFourth(hello, key);
    MasksFifth(hello, key);
  }

  /** What each byte masks to decides the whole. */
  lemma MaskedByte(data: seq<byte>, key: Key, i: nat, masked: byte)
    requires i < |data| && XorBits(data[i], key[i % 4], 8) == masked
    ensures Masked(data, key)[i] == masked
  {
  }

  lemma MasksFirst(data: seq<byte>, key: Key)
    requires data == [0x48, 0x65, 0x6C, 0x6C, 0x6F] && key == [0x37, 0xFA, 0x21, 0x3D]
    ensures Masked(data, key)[0] == 0x7F
  {
    FirstLetter(data[0], key[0]);
    MaskedByte(data, key, 0, 0x7F);
  }

  lemma MasksSecond(data: seq<byte>, key: Key)
    requires data == [0x48, 0x65, 0x6C, 0x6C, 0x6F] && key == [0x37, 0xFA, 0x21, 0x3D]
    ensures Masked(data, key)[1] == 0x9F
  {
    SecondLetter(data[1], key[1]);
    MaskedByte(data, key, 1, 0x9F);
  }

  lemma MasksThird(data: seq<byte>, key: Key)
    requires data == [0x48, 0x65, 0x6C, 0x6C, 0x6F] && key == [0x37, 0xFA, 0x21, 0x3D]
    ensures Masked(data, key)[2] == 0x4D
  {
    ThirdLetter(data[2], key[2]);
    MaskedByte(data, key, 2, 0x4D);
  }

  lemma MasksFourth(data: seq<byte>, key: Key)
    requires data == [0x48, 0x65, 0x6C, 0x6C, 0x6F] && key == [0x37, 0xFA, 0x21, 0x3D]
    ensures Masked(data, key)[3] == 0x51
  {
    FourthLetter(data[3], key[3]);
    MaskedByte(data, key, 3, 0x51);
  }

  lemma MasksFifth(data: seq<byte>, key: Key)
    requires data == [0x48, 0x65, 0x6C, 0x6C, 0x6F] && key == [0x37, 0xFA, 0x21, 0x3D]
    ensures Masked(data, key)[4] == 0x58
  {
    FifthLetter(data[4], key[0]);
    MaskedByte(data, key, 4, 0x58);
  }

  lemma FirstLetter(a: byte, b: byte)
    requires a == 0x48 && b == 0x37
    ensures XorBits(a, b, 8) == 0x7F
  {
    assert XorBits(0, 0, 1) == 0;
    assert XorBits(1, 0, 2) == 1;
    assert XorBits(2, 1, 3) == 3;
    assert XorBits(4, 3, 4) == 7;
    assert XorBits(9, 6, 5) == 15;
    assert XorBits(18, 13, 6) == 31;
    assert XorBits(36, 27, 7) == 63;
  }

  lemma SecondLetter(a: byte, b: byte)
    requires a == 0x65 && b == 0xFA
    ensures XorBits(a, b, 8) == 0x9F
  {
    assert XorBits(0, 1, 1) == 1;
    assert XorBits(1, 3, 2) == 2;
    assert XorBits(3, 7, 3) == 4;
    assert XorBits(6, 15, 4) == 9;
    assert XorBits(12, 31, 5) == 19;
    assert XorBits(25, 62, 6) == 39;
    assert XorBits(50, 125, 7) == 79;
  }

  lemma ThirdLetter(a: byte, b: byte)
    requires a == 0x6C && b == 0x21
    ensures XorBits(a, b, 8) == 0x4D
  {
    assert XorBits(0, 0, 1) == 0;
    assert XorBits(1, 0, 2) == 1;
    assert XorBits(3, 1, 3) == 2;
    assert XorBits(6, 2, 4) == 4;
    assert XorBits(13, 4, 5) == 9;
    assert XorBits(27, 8, 6) == 19;
    assert XorBits(54, 16, 7) == 38;
  }

  lemma FourthLetter(a: byte, b: byte)
    requires a == 0x6C && b == 0x3D
    ensures XorBits(a, b, 8) == 0x51
  {
    assert XorBits(0, 0, 1) == 0;
    assert XorBits(1, 0, 2) == 1;
    assert XorBits(3, 1, 3) == 2;
    assert XorBits(6, 3, 4) == 5;
    assert XorBits(13, 7, 5) == 10;
    assert XorBits(27, 15, 6) == 20;
    assert XorBits(54, 30, 7) == 40;
  }

  lemma FifthLetter(a: byte, b: byte)
    requires a == 0x6F && b == 0x37
    ensures XorBits(a, b, 8) == 0x58
  {
    assert XorBits(0, 0, 1) == 0;
    assert XorBits(1, 0, 2) == 1;
    assert XorBits(3, 1, 3) == 2;
    assert XorBits(6, 3, 4) == 5;
    assert XorBits(13, 6, 5) == 11;
    assert XorBits(27, 13, 6) == 22;
    assert XorBits(55, 27, 7) == 44;
  }

  /** The heads of 256 and of 65536 bytes of binary data. */
  lemma LongExamples(data: seq<byte>)
    ensures |data| == 256 ==> Encode(Frame(true, 0x2, data), None) == [0x82, 0x7E, 0x01, 0x00] + data
    ensures |data| == 65536 ==>
      Encode(Frame(true, 0x2, data), None) == [0x82, 0x7F, 0, 0, 0, 0, 0, 1, 0, 0] + data
  {
    if |data| == 256 {
      TwoBytes(|data|);
    } else if |data| == 65536 {
      EightBytes(|data|);
    }
  }

  lemma TwoBytes(n: nat)
    requires n == 256
    ensures BigEndian(n, 2) == [1, 0]
  {
    assert BigEndian(1, 1) == [1];
  }

  lemma EightBytes(n: nat)
    requires n == 65536
    ensures BigEndian(n, 8) == [0, 0, 0, 0, 0, 1, 0, 0]
  {
    Zeros(5);
    assert BigEndian(1, 6) == BigEndian(0, 5) + [1];
    assert BigEndian(256, 7) == BigEndian(1, 6) + [0];
  }

  lemma {:induction false} Zeros(k: nat)
    ensures BigEndian(0, k) == seq(k, _ => 0)
  {
    if k > 0 {
      Zeros(k - 1);
    }
  }
}
