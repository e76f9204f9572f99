/** The rotary encoder: a quadrature table, an accumulator that forgets on reversal, and
    the run-length reading of a turn that they implement. */
module Encoder {
  import opened Prelude

  datatype Tick = Cw | Ccw

  const QEM: seq<int> := [0, -1, 1, 0, 1, 0, 0, -1, -1, 0, 0, 1, 0, 1, -1, 0]

  const TRANSITIONS_PER_DETENT: int := 4

  /** The two pins read as low or not. */
  datatype Pins = Pins(aLow: bool, bLow: bool)

  function Encode(p: Pins): nat {
    2 * (if p.aLow then 1 else 0) + if p.bLow then 1 else 0
  }

  function Direction(prev: nat, curr: nat): int
    requires prev < 4 && curr < 4
  {
    QEM[4 * prev + curr]
  }

  /** Where a pin state sits on the encoder's Gray-code cycle, clockwise. */
  function Position(code: nat): nat
    requires code < 4
  {
    if code == 0 then 0 else if code == 2 then 1 else if code == 3 then 2 else 3
  }

  /** A transition counts exactly when it is to a neighbour on the cycle, and with its sense. */
  lemma DirectionIsNeighbour(prev: nat, curr: nat)
    requires prev < 4 && curr < 4
    ensures Direction(prev, curr) == 1 <==> Position(curr) == (Position(prev) + 1) % 4
    ensures Direction(prev, curr) == -1 <==> Position(prev) == (Position(curr) + 1) % 4
    ensures Direction(prev, curr) in {-1, 0, 1}
  {
  }

  datatype Decoder = Decoder(prev: nat, accum: int)

  ghost predicate InRange(d: Decoder) {
    d.prev < 4 && -3 <= d.accum <= 3
  }

  /** What one transition does to the accumulator, and the tick it completes, if any. */
  function Accumulate(accum: int, dir: int): (int, Option<Tick>) {
    if dir == 0 then (accum, None)
    else
      var a := (if (accum > 0 && dir < 0) || (accum < 0 && dir > 0) then 0 else accum) + dir;
      if a >= TRANSITIONS_PER_DETENT then (0, Some(Cw))
      else if a <= -TRANSITIONS_PER_DETENT then (0, Some(Ccw))
      else (a, None)
  }

  function Updated(d: Decoder, p: Pins): (Decoder, Option<Tick>)
    requires d.prev < 4
  {
    var (accum, tick) := Accumulate(d.accum, Direction(d.prev, Encode(p)));
    (Decoder(Encode(p), accum), tick)
  }

  class QuadratureDecoder {
    var prev: nat
    var accum: int

    function Value(): Decoder reads this { Decoder(prev, accum) }

    ghost predicate Valid() reads this { InRange(Value()) }

    constructor (p: Pins)
      ensures Valid() && Value() == Decoder(Encode(p), 0)
    {
      prev, accum := Encode(p), 0;
    }

    method Update(p: Pins) returns (tick: Option<Tick>)
      requires Valid()
      modifies this
      ensures Valid() && (Value(), tick) == Updated(old(Value()), p)
    {
      var curr := Encode(p);
      var dir := Direction(prev, curr);
      DirectionIsNeighbour(prev, curr);
      prev := curr;
      if dir == 0 {
        return None;
      }
      if (accum > 0 && dir < 0) || (accum < 0 && dir > 0) {
        accum := 0;
      }
      accum := accum + dir;
      if accum >= TRANSITIONS_PER_DETENT {
        accum := 0;
        return Some(Cw);
      } else if accum <= -TRANSITIONS_PER_DETENT {
        accum := 0;
        return Some(Ccw);
      }
      tick := None;
    }
  }

  // ---- The run-length specification ----

  /** The directions of a run of samples. */
  function Directions(prev: nat, samples: seq<Pins>): seq<int>
    requires prev < 4
    decreases |samples|
  {
    if samples == [] then []
    else [Direction(prev, Encode(samples[0]))] + Directions(Encode(samples[0]), samples[1..])
  }

  /** The ticks the decoder emits over a run of samples. */
  function Ticks(d: Decoder, samples: seq<Pins>): seq<Tick>
    requires d.prev < 4
    decreases |samples|
  {
    if samples == [] then []
    else
      var (d', tick) := Updated(d, samples[0]);
      (if tick.Some? then [tick.value] else []) + Ticks(d', samples[1..])
  }

  function Nonzero(dirs: seq<int>): seq<int> {
    if dirs == [] then [] else (if dirs[0] == 0 then [] else [dirs[0]]) + Nonzero(dirs[1..])
  }

  /** How many leading entries equal `sign`. */
  function RunLength(sign: int, dirs: seq<int>): (n: nat)
    ensures n <= |dirs|
  {
    if dirs != [] && dirs[0] == sign then 1 + RunLength(sign, dirs[1..]) else 0
  }

  function TickOf(sign: int): Tick { if sign > 0 then Cw else Ccw }

  function Copies<T>(x: T, n: nat): seq<T> {
    if n == 0 then [] else [x] + Copies(x, n - 1)
  }

  /** One tick for every full detent of each maximal run of equal directions. */
  function RunTicks(dirs: seq<int>): seq<Tick>
    decreases |dirs|
  {
    if dirs == [] then []
    else
      var n := 1 + RunLength(dirs[0], dirs[1..]);
      Copies(TickOf(dirs[0]), n / 4) + RunTicks(dirs[n..])
  }

  /** The same for a run of `sign` of which `count` transitions came before `dirs`. */
  function RunTicksFrom(sign: int, count: nat, dirs: seq<int>): seq<Tick> {
    var m := RunLength(sign, dirs);
    Copies(TickOf(sign), (count + m) / 4) + RunTicks(dirs[m..])
  }

  lemma NoCredit(sign: int, dirs: seq<int>)
    ensures RunTicksFrom(sign, 0, dirs) == RunTicks(dirs)
  {
    if RunLength(sign, dirs) == 0 {
      NoRun(sign, dirs);
    } else {
      WholeRun(sign, dirs);
    }
  }

  lemma NoRun(sign: int, dirs: seq<int>)
    requires RunLength(sign, dirs) == 0
    ensures RunTicksFrom(sign, 0, dirs) == RunTicks(dirs)
  {
    assert dirs[0..] == dirs;
  }

  lemma {:induction false} WholeRun(sign: int, dirs: seq<int>)
    requires RunLength(sign, dirs) > 0
    ensures RunTicksFrom(sign, 0, dirs) == RunTicks(dirs)
  {
  }

  lemma RunGoesOn(sign: int, count: nat, rest: seq<int>)
    ensures RunTicksFrom(sign, count, [sign] + rest) == RunTicksFrom(sign, count + 1, rest)
  {
    var m := RunLength(sign, rest);
    assert ([sign] + rest)[1..] == rest && ([sign] + rest)[1 + m..] == rest[m..];
  }

  /** A full detent is one tick, whatever follows. */
  lemma Detent(sign: int, rest: seq<int>)
    ensures RunTicksFrom(sign, 4, rest) == [TickOf(sign)] + RunTicks(rest)
  {
    var m := RunLength(sign, rest);
    var ticks, later := Copies(TickOf(sign), m / 4), RunTicks(rest[m..]);
    NoCredit(sign, rest);
    assert (4 + m) / 4 == m / 4 + 1;
    assert [TickOf(sign)] + ticks + later == [TickOf(sign)] + (ticks + later);
  }

  /** Fewer than a detent's worth before a reversal come to nothing. */
  lemma Reversal(sign: int, count: nat, dir: int, rest: seq<int>)
    requires count < 4 && dir != sign
    ensures RunTicksFrom(sign, count, [dir] + rest) == RunTicksFrom(dir, 1, rest)
  {
    assert ([dir] + rest)[0..] == [dir] + rest;
    NoCredit(dir, [dir] + rest);
    RunGoesOn(dir, 0, rest);
  }

  function Abs(a: int): nat { if a < 0 then -a else a }

  function SignOf(a: int): int { if a < 0 then -1 else 1 }

  /** The specification, for transitions that follow the ones an accumulator remembers. */
  function TicksAfter(accum: int, dirs: seq<int>): seq<Tick> {
    RunTicksFrom(SignOf(accum), Abs(accum), dirs)
  }

  lemma AccumulateRuns(accum: int, dir: int, rest: seq<int>)
    requires -3 <= accum <= 3 && dir in {-1, 1}
    ensures var (accum', tick) := Accumulate(accum, dir);
      && -3 <= accum' <= 3
      && TicksAfter(accum, [dir] + rest) == (if tick.Some? then [tick.value] else []) + TicksAfter(accum', rest)
  {
    if accum == 0 {
      NoCredit(1, [dir] + rest);
      NoCredit(dir, [dir] + rest);
      RunGoesOn(dir, 0, rest);
    } else if SignOf(accum) == dir {
      RunGoesOn(dir, Abs(accum), rest);
      if Abs(accum) == 3 {
        Detent(dir, rest);
        NoCredit(1, rest);
      }
    } else {
      Reversal(SignOf(accum), Abs(accum), dir, rest);
    }
  }

  lemma {:induction false} TicksAreRuns(d: Decoder, samples: seq<Pins>)
    requires InRange(d)
    ensures Ticks(d, samples) == TicksAfter(d.accum, Nonzero(Directions(d.prev, samples)))
    decreases |samples|
  {
    if samples != [] {
      var dirs := Directions(d.prev, samples);
      DirectionIsNeighbour(d.prev, Encode(samples[0]));
      if dirs[0] != 0 {
        AccumulateRuns(d.accum, dirs[0], Nonzero(dirs[1..]));
        assert Nonzero(dirs) == [dirs[0]] + Nonzero(dirs[1..]);
      } else {
        assert Nonzero(dirs) == Nonzero(dirs[1..]);
      }
      TicksAreRuns(Updated(d, samples[0]).0, samples[1..]);
    }
  }

  /** From any start, the ticks emitted are those of the run-length specification: drop the
      samples with no direction, and give each maximal run of one direction a tick for
      every four of its transitions. */
  lemma DecoderMeetsSpec(start: Pins, samples: seq<Pins>)
    ensures Ticks(Decoder(Encode(start), 0), samples) == RunTicks(Nonzero(Directions(Encode(start), samples)))
  {
    TicksAreRuns(Decoder(Encode(start), 0), samples);
    NoCredit(1, Nonzero(Directions(Encode(start), samples)));
  }
}
