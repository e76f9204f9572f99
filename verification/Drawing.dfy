/** What a one-bit display has been asked to draw, shared by the three panel drivers. */
module Drawing {
  datatype Pixel = Pixel(x: int, y: int, on: bool)

  /** One call on the driver's drawing side; `ClearFrame` is the driver's own blanking. */
  datatype Drawing = Draw(pixels: seq<Pixel>) | Clear(on: bool) | ClearFrame

  /** The last colour `pixels` draw at a point, over `before`. */
  ghost function LastDrawn(pixels: seq<Pixel>, x: int, y: int, before: bool): bool {
    if pixels == [] then before
    else
      var p := pixels[|pixels| - 1];
      if p.x == x && p.y == y then p.on else LastDrawn(pixels[..|pixels| - 1], x, y, before)
  }

  /** What one call leaves at a point that showed `before`. */
  ghost function Painted(d: Drawing, x: int, y: int, before: bool): bool {
    match d
    case Draw(pixels) => LastDrawn(pixels, x, y, before)
    case Clear(on) => on
    case ClearFrame => false
  }

  /** The last colour drawn at a point by a whole run of drawing calls; a new frame is blank. */
  ghost function LastColour(drawings: seq<Drawing>, x: int, y: int): bool {
    if drawings == [] then false
    else Painted(drawings[|drawings| - 1], x, y, LastColour(drawings[..|drawings| - 1], x, y))
  }

  lemma LastColourExtends(drawings: seq<Drawing>, d: Drawing, x: int, y: int)
    ensures LastColour(drawings + [d], x, y) == Painted(d, x, y, LastColour(drawings, x, y))
  {
    assert (drawings + [d])[..|drawings|] == drawings;
  }

  /** A step of a driver's run: a drawing call, or something else of that driver's own. */
  datatype Step<+Op> = Paint(drawing: Drawing) | Do(op: Op)

  /** The drawing calls of a run. */
  ghost function Drawings<Op>(steps: seq<Step<Op>>): seq<Drawing> {
    if steps == [] then []
    else
      var (before, last) := (Drawings(steps[..|steps| - 1]), steps[|steps| - 1]);
      if last.Paint? then before + [last.drawing] else before
  }

  /** One more step adds its drawing call, if it is one. */
  lemma DrawingsExtend<Op>(steps: seq<Step<Op>>, i: nat)
    requires i < |steps|
    ensures var before := Drawings(steps[..i]);
      Drawings(steps[..i + 1]) == if steps[i].Paint? then before + [steps[i].drawing] else before
  {
    assert steps[..i + 1][..i] == steps[..i];
  }
}
