/** The command line's durations: printing one as `h:mm:ss` or `mm:ss`, and reading one
    written that way or in units, in 64-bit arithmetic. */
module Duration {
  import opened Prelude
  import opened Text

  const U64_LIMIT: nat := 0x1_0000_0000_0000_0000

  /** `Overflow` is arithmetic leaving 64 bits, which the source does not check for. */
  datatype Parsed = Ok(secs: nat) | Bad | NeedsUnit | Zero | Overflow

  // ---- Decimal numbers ----

  function Digit(d: nat): char
    requires d < 10
  {
    '0' + d as char
  }

  function DigitValue(c: char): nat
    requires IsDigit(c)
  {
    (c - '0') as nat
  }

  function Decimal(n: nat): string {
    if n < 10 then [Digit(n)] else Decimal(n / 10) + [Digit(n % 10)]
  }

  /** At least two digits, padded with a zero. */
  function TwoDigits(n: nat): string {
    if n < 10 then ['0'] + Decimal(n) else Decimal(n)
  }

  predicate AllDigits(s: string) {
    forall i :: 0 <= i < |s| ==> IsDigit(s[i])
  }

  function Value(s: string): nat
    requires AllDigits(s)
  {
    if s == [] then 0 else 10 * Value(s[..|s| - 1]) + DigitValue(s[|s| - 1])
  }

  /** Reading an unsigned 64-bit number: an optional plus sign and at least one digit. */
  function ParseU64(s: string): Option<nat> {
    var body := if |s| > 1 && s[0] == '+' then s[1..] else s;
    if body != [] && AllDigits(body) && Value(body) < U64_LIMIT then Some(Value(body)) else None
  }

  lemma {:induction false} DecimalValue(n: nat)
    ensures Decimal(n) != [] && AllDigits(Decimal(n)) && Value(Decimal(n)) == n
  {
    if n >= 10 {
      DecimalValue(n / 10);
      assert Decimal(n)[..|Decimal(n)| - 1] == Decimal(n / 10);
    }
  }

  lemma TwoDigitsValue(n: nat)
    ensures TwoDigits(n) != [] && AllDigits(TwoDigits(n)) && Value(TwoDigits(n)) == n
  {
    DecimalValue(n);
    if n < 10 {
      var s := TwoDigits(n);
      assert s[..1] == ['0'] && s[..1][..0] == [];
      assert Value(s[..1]) == 10 * Value(s[..1][..0]) + 0;
    }
  }

  lemma DigitsParse(s: string)
    requires s != [] && AllDigits(s) && Value(s) < U64_LIMIT
    ensures ParseU64(s) == Some(Value(s))
  {
    assert IsDigit(s[0]);
  }

  lemma DecimalParses(n: nat)
    requires n < U64_LIMIT
    ensures AllDigits(Decimal(n)) && ParseU64(Decimal(n)) == Some(n)
  {
    DecimalValue(n);
    DigitsParse(Decimal(n));
  }

  // ---- Printing ----

  function Clock(h: nat, m: nat, s: nat): string {
    if h > 0 then Decimal(h) + [':'] + TwoDigits(m) + [':'] + TwoDigits(s)
    else TwoDigits(m) + [':'] + TwoDigits(s)
  }

  function FormatDuration(secs: nat): string {
    Clock(secs / 3600, (secs % 3600) / 60, secs % 60)
  }

  // ---- Reading ----

  function TrimStart(s: string): string {
    if s != [] && IsWhitespace(s[0]) then TrimStart(s[1..]) else s
  }

  function TrimEnd(s: string): string {
    if s != [] && IsWhitespace(s[|s| - 1]) then TrimEnd(s[..|s| - 1]) else s
  }

  function Lower(s: string): string {
    seq(|s|, i requires 0 <= i < |s| => LowerChar(s[i]))
  }

  /** The pieces between colons; a string without one is a single piece. */
  function Split(s: string): (parts: seq<string>)
    ensures parts != []
  {
    if s == [] then [[]]
    else
      var rest := Split(s[1..]);
      if s[0] == ':' then [[]] + rest else [[s[0]] + rest[0]] + rest[1..]
  }

  function ParseParts(parts: seq<string>): Option<seq<nat>> {
    if parts == [] then Some([])
    else
      match (ParseU64(parts[0]), ParseParts(parts[1..]))
      case (Some(n), Some(rest)) => Some([n] + rest)
      case _ => None
  }

  /** A number, unless the arithmetic left 64 bits on the way: every term is nonnegative,
      so it did exactly when the result does not fit. */
  function Checked(n: nat): Parsed {
    if n < U64_LIMIT then Ok(n) else Overflow
  }

  function ParseClock(s: string): Parsed {
    match ParseParts(Split(s))
    case None => Bad
    case Some(ns) =>
      if |ns| == 2 then Checked(ns[0] * 60 + ns[1])
      else if |ns| == 3 then Checked(ns[0] * 3600 + ns[1] * 60 + ns[2])
      else Bad
  }

  function UnitSecs(c: char): Option<nat> {
    if c == 'h' then Some(3600) else if c == 'm' then Some(60) else if c == 's' then Some(1) else None
  }

  function InSecs(n: nat, unit: char): nat
    requires UnitSecs(unit).Some?
  {
    if unit == 'h' then 3600 * n else if unit == 'm' then 60 * n else n
  }

  /** The rest of a duration in units, with `total` counted and `number` being collected. */
  function ParseUnits(s: string, total: nat, number: string): Parsed
    decreases |s|
  {
    if s == [] then if number == [] then Checked(total) else NeedsUnit
    else if IsWhitespace(s[0]) then ParseUnits(s[1..], total, number)
    else if IsDigit(s[0]) then ParseUnits(s[1..], total, number + [s[0]])
    else if UnitSecs(s[0]).None? || ParseU64(number).None? then Bad
    else
      var sum := total + InSecs(ParseU64(number).value, s[0]);
      if sum < U64_LIMIT then ParseUnits(s[1..], sum, []) else Overflow
  }

  function AboveZero(r: Parsed): Parsed {
    if r == Ok(0) then Zero else r
  }

  function ParseSpec(s: string): Parsed {
    var t := Lower(TrimEnd(TrimStart(s)));
    AboveZero(if ':' in t then ParseClock(t) else ParseUnits(t, 0, []))
  }

  method ParseDuration(s: string) returns (r: Parsed)
    ensures r == ParseSpec(s)
  {
    var t := Lower(TrimEnd(TrimStart(s)));
    if ':' in t {
      return AboveZero(ParseClock(t));
    }
    var total: nat := 0;
    var number: string := [];
    for i := 0 to |t|
      invariant total < U64_LIMIT
      invariant ParseUnits(t, 0, []) == ParseUnits(t[i..], total, number)
    {
      var c := t[i];
      assert t[i..][1..] == t[i + 1..];
      if IsWhitespace(c) {
        continue;
      }
      if IsDigit(c) {
        number := number + [c];
        continue;
      }
      var unit := UnitSecs(c);
      if unit.None? {
        return Bad;
      }
      var n := ParseU64(number);
      if n.None? {
        return Bad;
      }
      var sum := total + n.value * unit.value;
      assert n.value * unit.value == InSecs(n.value, c);
      if sum >= U64_LIMIT {
        return Overflow;
      }
      total := sum;
      number := [];
    }
    if number != [] {
      return NeedsUnit;
    }
    r := if total == 0 then Zero else Ok(total);
  }

  // ---- Round trips ----

  lemma {:induction false} SplitNoColon(a: string)
    requires ':' !in a
    ensures Split(a) == [a]
  {
    if a != [] {
      assert a[0] in a && forall c :: c in a[1..] ==> c in a;
      SplitNoColon(a[1..]);
      assert [a[0]] + a[1..] == a;
    }
  }

  lemma {:induction false} SplitAtColon(a: string, rest: string)
    requires ':' !in a
    ensures Split(a + [':'] + rest) == [a] + Split(rest)
    decreases |a|
  {
    var s := a + [':'] + rest;
    if a == [] {
      assert s[1..] == rest;
    } else {
      assert a[0] in a && forall c :: c in a[1..] ==> c in a;
      assert s[0] == a[0] && s[1..] == a[1..] + [':'] + rest;
      SplitAtColon(a[1..], rest);
      assert [a[0]] + a[1..] == a;
    }
  }

  predicate ClockChar(c: char) { IsDigit(c) || c == ':' }

  lemma ClockCharsSurvive(s: string)
    requires s != [] && forall i :: 0 <= i < |s| ==> ClockChar(s[i])
    ensures Lower(TrimEnd(TrimStart(s))) == s
  {
    assert ClockChar(s[0]) && ClockChar(s[|s| - 1]);
    assert TrimStart(s) == s && TrimEnd(s) == s;
    assert forall i :: 0 <= i < |s| ==> ClockChar(s[i]) && LowerChar(s[i]) == s[i];
  }

  lemma ParseFirst(part: string, parts: seq<string>)
    requires ParseU64(part).Some? && ParseParts(parts).Some?
    ensures ParseParts([part] + parts) == Some([ParseU64(part).value] + ParseParts(parts).value)
  {
    assert ([part] + parts)[1..] == parts;
  }

  /** A number with some digits, none of them a colon. */
  predicate Written64(s: string, n: nat) {
    s != [] && AllDigits(s) && Value(s) == n && n < U64_LIMIT
  }

  lemma ClockTail(ms: string, m: nat, ss: string, s: nat)
    requires Written64(ms, m) && Written64(ss, s)
    ensures Split(ms + [':'] + ss) == [ms, ss] && ParseParts([ms, ss]) == Some([m, s])
  {
    DigitsParse(ms);
    DigitsParse(ss);
    SplitNoColon(ss);
    SplitAtColon(ms, ss);
    ParseFirst(ss, []);
    ParseFirst(ms, [ss]);
    assert [ms] + [ss] == [ms, ss] && [ss] + [] == [ss] && [m] + ([s] + []) == [m, s];
  }

  lemma ClockHead(hs: string, h: nat, ms: string, m: nat, ss: string, s: nat)
    requires Written64(hs, h) && Written64(ms, m) && Written64(ss, s)
    ensures ParseParts(Split(hs + [':'] + ms + [':'] + ss)) == Some([h, m, s])
  {
    DigitsParse(hs);
    ClockTail(ms, m, ss, s);
    assert hs + [':'] + ms + [':'] + ss == hs + [':'] + (ms + [':'] + ss);
    SplitAtColon(hs, ms + [':'] + ss);
    ParseFirst(hs, [ms, ss]);
    assert [h] + [m, s] == [h, m, s];
  }

  lemma FormattedParts(h: nat, m: nat, s: nat)
    requires h < U64_LIMIT && m < 60 && s < 60
    ensures Written64(Decimal(h), h) && Written64(TwoDigits(m), m) && Written64(TwoDigits(s), s)
  {
    DecimalValue(h);
    TwoDigitsValue(m);
    TwoDigitsValue(s);
  }

  lemma ClockShape(h: nat, m: nat, s: nat)
    requires h < U64_LIMIT && m < 60 && s < 60
    ensures Clock(h, m, s) != [] && ':' in Clock(h, m, s)
    ensures forall i :: 0 <= i < |Clock(h, m, s)| ==> ClockChar(Clock(h, m, s)[i])
  {
    FormattedParts(h, m, s);
    assert Clock(h, m, s)[|if h > 0 then Decimal(h) else TwoDigits(m)|] == ':';
  }

  lemma ClockRoundTrip(h: nat, m: nat, s: nat)
    requires h < U64_LIMIT && m < 60 && s < 60
    ensures ParseClock(Clock(h, m, s)) == Checked(h * 3600 + m * 60 + s)
  {
    FormattedParts(h, m, s);
    if h > 0 {
      ClockHead(Decimal(h), h, TwoDigits(m), m, TwoDigits(s), s);
    } else {
      ClockTail(TwoDigits(m), m, TwoDigits(s), s);
    }
  }

  lemma ClockSpec(h: nat, m: nat, s: nat)
    requires h < U64_LIMIT && m < 60 && s < 60
    ensures ParseSpec(Clock(h, m, s)) == AboveZero(Checked(h * 3600 + m * 60 + s))
  {
    ClockShape(h, m, s);
    ClockCharsSurvive(Clock(h, m, s));
    ClockRoundTrip(h, m, s);
  }

  /** What is printed is read back, without overflow on the way, for every duration above
      zero that fits 64 bits. */
  lemma DurationRoundTrip(secs: nat)
    requires 0 < secs < U64_LIMIT
    ensures ParseSpec(FormatDuration(secs)) == Ok(secs)
  {
    var (h, m, s) := (secs / 3600, (secs % 3600) / 60, secs % 60);
    assert h * 3600 + m * 60 + s == secs && m < 60 by {
      HoursMinutesSeconds(secs);
    }
    ClockSpec(h, m, s);
  }

  lemma HoursMinutesSeconds(secs: nat)
    ensures secs == secs / 3600 * 3600 + (secs % 3600) / 60 * 60 + secs % 60 && (secs % 3600) / 60 < 60
  {
  }

  /** A duration written in units, number by number. */
  datatype Term = Term(count: nat, unit: char)

  predicate Units(terms: seq<Term>) {
    forall i :: 0 <= i < |terms| ==> UnitSecs(terms[i].unit).Some?
  }

  function Written(terms: seq<Term>): string {
    if terms == [] then [] else Decimal(terms[0].count) + [terms[0].unit] + Written(terms[1..])
  }

  function TermSecs(t: Term): nat
    requires UnitSecs(t.unit).Some?
  {
    InSecs(t.count, t.unit)
  }

  lemma AtLeastCount(t: Term)
    requires UnitSecs(t.unit).Some?
    ensures t.count <= TermSecs(t)
  {
  }

  function Total(terms: seq<Term>): nat
    requires Units(terms)
  {
    if terms == [] then 0 else TermSecs(terms[0]) + Total(terms[1..])
  }

  lemma {:induction false} DigitsCollect(digits: string, rest: string, total: nat, number: string)
    requires AllDigits(digits)
    ensures ParseUnits(digits + rest, total, number) == ParseUnits(rest, total, number + digits)
    decreases |digits|
  {
    if digits == [] {
      assert digits + rest == rest && number + digits == number;
    } else {
      assert (digits + rest)[1..] == digits[1..] + rest;
      assert IsDigit((digits + rest)[0]);
      DigitsCollect(digits[1..], rest, total, number + [digits[0]]);
      assert number + [digits[0]] + digits[1..] == number + digits;
    }
  }

  lemma UnitEnds(digits: string, n: nat, unit: char, rest: string, total: nat)
    requires ParseU64(digits) == Some(n) && UnitSecs(unit).Some? && total + InSecs(n, unit) < U64_LIMIT
    ensures ParseUnits([unit] + rest, total, digits) == ParseUnits(rest, total + InSecs(n, unit), [])
  {
    var s := [unit] + rest;
    assert s[1..] == rest && !IsWhitespace(unit) && !IsDigit(unit);
  }

  lemma DigitsThenUnit(digits: string, n: nat, unit: char, rest: string, total: nat)
    requires AllDigits(digits) && ParseU64(digits) == Some(n) && UnitSecs(unit).Some?
      && total + InSecs(n, unit) < U64_LIMIT
    ensures ParseUnits(digits + [unit] + rest, total, []) == ParseUnits(rest, total + InSecs(n, unit), [])
  {
    assert digits + [unit] + rest == digits + ([unit] + rest) && [] + digits == digits;
    DigitsCollect(digits, [unit] + rest, total, []);
    UnitEnds(digits, n, unit, rest, total);
  }

  lemma OneTerm(t: Term, rest: string, total: nat)
    requires UnitSecs(t.unit).Some? && total + TermSecs(t) < U64_LIMIT
    ensures ParseUnits(Decimal(t.count) + [t.unit] + rest, total, []) == ParseUnits(rest, total + TermSecs(t), [])
  {
    AtLeastCount(t);
    DecimalParses(t.count);
    DigitsThenUnit(Decimal(t.count), t.count, t.unit, rest, total);
  }

  lemma {:induction false} TermsAdd(terms: seq<Term>, total: nat)
    requires Units(terms) && total + Total(terms) < U64_LIMIT
    ensures ParseUnits(Written(terms), total, []) == Ok(total + Total(terms))
    decreases |terms|
  {
    if terms != [] {
      OneTerm(terms[0], Written(terms[1..]), total);
      TermsAdd(terms[1..], total + TermSecs(terms[0]));
    }
  }

  lemma {:induction false} WrittenChars(terms: seq<Term>, i: nat)
    requires Units(terms) && i < |Written(terms)|
    ensures IsDigit(Written(terms)[i]) || Written(terms)[i] in {'h', 'm', 's'}
    decreases |terms|
  {
    var digits := Decimal(terms[0].count);
    DecimalValue(terms[0].count);
    if i > |digits| {
      WrittenChars(terms[1..], i - |digits| - 1);
      assert Written(terms)[i] == Written(terms[1..])[i - |digits| - 1];
    }
  }

  /** Numbers written with their units, in any order and number, read as their sum. */
  lemma UnitsRoundTrip(terms: seq<Term>)
    requires Units(terms) && 0 < Total(terms) < U64_LIMIT
    ensures ParseSpec(Written(terms)) == Ok(Total(terms))
  {
    var s := Written(terms);
    forall i | 0 <= i < |s| ensures IsDigit(s[i]) || s[i] in {'h', 'm', 's'} {
      WrittenChars(terms, i);
    }
    assert TrimStart(s) == s && TrimEnd(s) == s && Lower(s) == s;
    TermsAdd(terms, 0);
  }

  // ---- Exactly what is read ----

  /** A number as it was written, and its unit. */
  datatype Piece = Piece(digits: string, unit: char)

  predicate WellWritten(pieces: seq<Piece>) {
    forall i :: 0 <= i < |pieces| ==> Number(pieces[i])
  }

  predicate Number(p: Piece) {
    p.digits != [] && AllDigits(p.digits) && Value(p.digits) < U64_LIMIT && UnitSecs(p.unit).Some?
  }

  function Spelt(pieces: seq<Piece>): string {
    if pieces == [] then [] else pieces[0].digits + [pieces[0].unit] + Spelt(pieces[1..])
  }

  function Amount(pieces: seq<Piece>): nat
    requires WellWritten(pieces)
  {
    if pieces == [] then 0 else Worth(pieces[0]) + Amount(pieces[1..])
  }

  /** What a number with its unit comes to, in seconds. */
  function Worth(p: Piece): nat
    requires Number(p)
  {
    var n := Value(p.digits);
    if p.unit == 'h' then 3600 * n else if p.unit == 'm' then 60 * n else n
  }

  lemma OnePiece(p: Piece, rest: string, total: nat)
    requires Number(p) && total + Worth(p) < U64_LIMIT
    ensures ParseUnits(p.digits + [p.unit] + rest, total, []) == ParseUnits(rest, total + Worth(p), [])
  {
    var n := Value(p.digits);
    assert ParseU64(p.digits) == Some(n) by {
      PlainDigits(p.digits);
    }
    assert Worth(p) == InSecs(n, p.unit);
    DigitsThenUnit(p.digits, n, p.unit, rest, total);
  }

  /** A text without its blanks. */
  function Closed(s: string): string {
    if s == [] then [] else (if IsWhitespace(s[0]) then [] else [s[0]]) + Closed(s[1..])
  }

  lemma PlainDigits(digits: string)
    requires digits != [] && AllDigits(digits)
    ensures ParseU64(digits) == if Value(digits) < U64_LIMIT then Some(Value(digits)) else None
  {
    assert digits[0] != '+';
  }

  lemma DigitMoves(number: string, s: string)
    requires s != [] && !IsWhitespace(s[0])
    ensures number + [s[0]] + Closed(s[1..]) == number + Closed(s)
  {
    assert number + [s[0]] + Closed(s[1..]) == number + ([s[0]] + Closed(s[1..]));
  }

  lemma UnitIsRead(s: string, total: nat, number: string, n: nat)
    requires AllDigits(number) && s != [] && !IsWhitespace(s[0]) && !IsDigit(s[0])
      && ParseUnits(s, total, number) == Ok(n)
    ensures Number(Piece(number, s[0])) && ParseUnits(s[1..], total + Worth(Piece(number, s[0])), []) == Ok(n)
  {
    if number != [] {
      PlainDigits(number);
    }
  }

  lemma SpeltFirst(p: Piece, pieces: seq<Piece>, rest: string)
    ensures ([p] + pieces)[1..] == pieces && [] + rest == rest
    ensures Spelt([p] + pieces) + rest == p.digits + [p.unit] + (Spelt(pieces) + rest)
    ensures Spelt(pieces) == rest ==> Spelt([p] + pieces) == p.digits + ([p.unit] + rest)
  {
    assert ([p] + pieces)[1..] == pieces;
    assert p.digits + [p.unit] + rest == p.digits + ([p.unit] + rest);
  }

  /** What is read as a sum of units is, blanks aside, numbers each with its unit, and it is
      read as their amount. */
  lemma {:induction false} ReadIsSpelt(s: string, total: nat, number: string, n: nat) returns (pieces: seq<Piece>)
    requires AllDigits(number) && ParseUnits(s, total, number) == Ok(n)
    ensures total <= n < U64_LIMIT && Spells(pieces, number + Closed(s), n - total)
    decreases |s|
  {
    if s == [] {
      pieces := [];
    } else if IsWhitespace(s[0]) {
      pieces := ReadIsSpelt(s[1..], total, number, n);
    } else if IsDigit(s[0]) {
      pieces := ReadIsSpelt(s[1..], total, number + [s[0]], n);
      DigitMoves(number, s);
    } else {
      var p := Piece(number, s[0]);
      UnitIsRead(s, total, number, n);
      var rest := ReadIsSpelt(s[1..], total + Worth(p), [], n);
      pieces := [p] + rest;
      assert [] + Closed(s[1..]) == Closed(s[1..]);
      SpellsFirst(p, rest, Closed(s[1..]), n - total - Worth(p));
    }
  }

  /** The pieces spell this text, and come to this amount. */
  ghost predicate Spells(pieces: seq<Piece>, text: string, amount: nat) {
    WellWritten(pieces) && Spelt(pieces) == text && Amount(pieces) == amount
  }

  lemma SpellsFirst(p: Piece, rest: seq<Piece>, text: string, amount: nat)
    requires Number(p) && Spells(rest, text, amount)
    ensures Spells([p] + rest, p.digits + ([p.unit] + text), Worth(p) + amount)
  {
    SpeltFirst(p, rest, text);
  }

  lemma PieceIsRead(p: Piece, tail: string, total: nat, r: Parsed)
    requires Number(p) && total + Worth(p) < U64_LIMIT && ParseUnits(tail, total + Worth(p), []) == r
    ensures ParseUnits(p.digits + [p.unit] + tail, total, []) == r
  {
    OnePiece(p, tail, total);
  }

  lemma {:induction false} BlanksDoNotMatter(s: string, total: nat, number: string)
    ensures ParseUnits(s, total, number) == ParseUnits(Closed(s), total, number)
    decreases |s|
  {
    if s != [] {
      var (t, rest) := (Closed(s), Closed(s[1..]));
      if IsWhitespace(s[0]) {
        BlanksDoNotMatter(s[1..], total, number);
        assert t == rest;
      } else {
        assert t == [s[0]] + rest && t[0] == s[0] && t[1..] == rest;
        if IsDigit(s[0]) {
          BlanksDoNotMatter(s[1..], total, number + [s[0]]);
        } else if UnitSecs(s[0]).Some? && ParseU64(number).Some? {
          BlanksDoNotMatter(s[1..], total + InSecs(ParseU64(number).value, s[0]), []);
        }
      }
    }
  }

  lemma {:induction false} SpeltIsRead(pieces: seq<Piece>, rest: string, total: nat)
    requires WellWritten(pieces) && total + Amount(pieces) < U64_LIMIT
    ensures ParseUnits(Spelt(pieces) + rest, total, []) == ParseUnits(rest, total + Amount(pieces), [])
    decreases |pieces|
  {
    if pieces == [] {
      assert [] + rest == rest;
    } else {
      var (p, later) := (pieces[0], pieces[1..]);
      var tail := Spelt(later) + rest;
      assert Number(p);
      SpeltIsRead(later, rest, total + Worth(p));
      PieceIsRead(p, tail, total, ParseUnits(rest, total + Amount(pieces), []));
      assert Spelt(pieces) + rest == p.digits + [p.unit] + tail by {
        SpeltFirst(p, later, rest);
        assert [p] + later == pieces;
      }
    }
  }

  /** A text is read as a sum of units exactly if, blanks aside, it is numbers each with its
      unit, and then as their amount. */
  lemma UnitsReadExactly(s: string, n: nat)
    ensures ParseUnits(s, 0, []) == Ok(n) <==>
      n < U64_LIMIT && exists pieces :: Spells(pieces, Closed(s), n)
  {
    if ParseUnits(s, 0, []) == Ok(n) {
      var pieces := ReadIsSpelt(s, 0, [], n);
      assert [] + Closed(s) == Closed(s);
    }
    if n < U64_LIMIT && exists pieces :: Spells(pieces, Closed(s), n) {
      var pieces :| Spells(pieces, Closed(s), n);
      SpeltReads(s, pieces);
    }
  }

  lemma SpeltReads(s: string, pieces: seq<Piece>)
    requires WellWritten(pieces) && Spelt(pieces) == Closed(s) && Amount(pieces) < U64_LIMIT
    ensures ParseUnits(s, 0, []) == Ok(Amount(pieces))
  {
    BlanksDoNotMatter(s, 0, []);
    SpeltIsRead(pieces, [], 0);
    assert Spelt(pieces) + [] == Spelt(pieces);
  }

  /** A number left without a unit is refused for that, alone or after others. */
  lemma UnitIsNeeded(pieces: seq<Piece>, digits: string)
    requires WellWritten(pieces) && Amount(pieces) < U64_LIMIT && digits != [] && AllDigits(digits)
    ensures ParseUnits(Spelt(pieces) + digits, 0, []) == NeedsUnit
  {
    SpeltIsRead(pieces, digits, 0);
    DigitsCollect(digits, [], Amount(pieces), []);
    assert digits + [] == digits && [] + digits == digits;
  }

  /** Nothing, or an amount of nothing, is refused. */
  lemma NothingIsRefused(terms: seq<Term>)
    requires Units(terms) && Total(terms) == 0
    ensures ParseSpec(Written(terms)) == Zero
  {
    var s := Written(terms);
    forall i | 0 <= i < |s| ensures IsDigit(s[i]) || s[i] in {'h', 'm', 's'} {
      WrittenChars(terms, i);
    }
    assert TrimStart(s) == s && TrimEnd(s) == s && Lower(s) == s;
    TermsAdd(terms, 0);
  }

  /** Between two digit runs of a clock time there is a colon, and each field is a number: two
      fields are minutes and seconds, three hours too, any other count is refused. */
  lemma ClockFields(s: string, ns: seq<nat>)
    requires ParseParts(Split(s)) == Some(ns)
    ensures ParseClock(s) ==
      if |ns| == 2 then Checked(60 * ns[0] + ns[1])
      else if |ns| == 3 then Checked(3600 * ns[0] + 60 * ns[1] + ns[2]) else Bad
  {
  }

  function JoinedByColon(parts: seq<string>): string
    requires parts != []
  {
    if |parts| == 1 then parts[0] else parts[0] + [':'] + JoinedByColon(parts[1..])
  }

  /** The fields of a clock time are the text between its colons. */
  lemma {:induction false} SplitIsFields(s: string)
    ensures JoinedByColon(Split(s)) == s && forall part <- Split(s) :: ':' !in part
  {
    if s != [] {
      SplitIsFields(s[1..]);
      var rest := Split(s[1..]);
      assert rest[0] in rest && forall part :: part in rest[1..] ==> part in rest;
      if s[0] == ':' {
        assert ([[]] + rest)[1..] == rest;
      } else {
        assert ([[s[0]] + rest[0]] + rest[1..])[1..] == rest[1..];
      }
    }
  }

  /** A printed duration has two digits for the minutes and the seconds, and no hours if
      there are none. */
  lemma FormatShape(secs: nat)
    ensures var (h, m, s) := (secs / 3600, secs % 3600 / 60, secs % 60);
      && |TwoDigits(m)| == |TwoDigits(s)| == 2
      && FormatDuration(secs) ==
           (if h == 0 then [] else Decimal(h) + [':']) + TwoDigits(m) + [':'] + TwoDigits(s)
  {
    TwoIsTwo(secs % 3600 / 60);
    TwoIsTwo(secs % 60);
    assert secs / 3600 == 0 ==> [] + TwoDigits(secs % 3600 / 60) == TwoDigits(secs % 3600 / 60);
  }

  lemma TwoIsTwo(n: nat)
    requires n < 60
    ensures |TwoDigits(n)| == 2
  {
    if n >= 10 {
      assert Decimal(n) == Decimal(n / 10) + [Digit(n % 10)];
    }
  }

  /** A number is printed without zeros in front. */
  lemma {:induction false} NoZeroInFront(n: nat)
    requires n > 0
    ensures Decimal(n)[0] != '0'
  {
    if n >= 10 {
      NoZeroInFront(n / 10);
    }
  }

  // ---- Case and surrounding blanks ----

  function Upper(s: string): string {
    seq(|s|, i requires 0 <= i < |s| => if 'a' <= s[i] <= 'z' then s[i] - 'a' + 'A' else s[i])
  }

  /** Units may be written in capitals. */
  lemma CapitalsAreRead(terms: seq<Term>)
    requires Units(terms) && 0 < Total(terms) < U64_LIMIT
    ensures ParseSpec(Upper(Written(terms))) == Ok(Total(terms))
  {
    var (s, t) := (Written(terms), Upper(Written(terms)));
    forall i | 0 <= i < |s| ensures IsDigit(s[i]) || s[i] in {'h', 'm', 's'} {
      WrittenChars(terms, i);
    }
    assert TrimStart(t) == t && TrimEnd(t) == t && Lower(t) == s;
    TermsAdd(terms, 0);
  }

  lemma {:induction false} TrimStartAfter(s: string, c: char)
    requires IsWhitespace(c)
    ensures TrimEnd(TrimStart(s + [c])) == TrimEnd(TrimStart(s))
  {
    if s == [] {
      assert [] + [c] == [c] && [c][1..] == [];
    } else if IsWhitespace(s[0]) {
      assert (s + [c])[1..] == s[1..] + [c];
      TrimStartAfter(s[1..], c);
    } else {
      assert (s + [c])[..|s|] == s;
    }
  }

  /** Blanks around a duration do not matter. */
  lemma BlanksAround(s: string, c: char)
    requires IsWhitespace(c)
    ensures ParseSpec([c] + s) == ParseSpec(s) == ParseSpec(s + [c])
  {
    assert ([c] + s)[1..] == s;
    TrimStartAfter(s, c);
  }
}
