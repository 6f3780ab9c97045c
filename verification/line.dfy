/**
 * `line` of micro3d.h (lines 31-51) on a `device_t`: the Bresenham loop,
 * written as the code writes it, plotting every visited point through
 * `Pixel`.
 */
module Micro3dLine {
  import opened Plane
  import opened Micro3d
  import opened Bresenham

  /**
   * Draws the line from (x1, y1) to (x2, y2) in colour `clr`, as the code
   * writes it. Every pixel on the device that lies on
   * `LinePoints(x1, y1, x2, y2)` gets `clr`; points off the device are
   * dropped by `Pixel`; every other pixel keeps its colour. On a one-step
   * diagonal the loop never ends (`AsWrittenUnitDiagonalNeverEnds`), so
   * there is no result to describe.
   */
  method Line(d: Device, x1: int, y1: int, x2: int, y2: int, clr: u32) returns (r: Device)
    requires Valid(d)
    requires LineFits(x1, y1, x2, y2)
    requires !UnitDiagonal(x1, y1, x2, y2)
    ensures Valid(r) && r.width == d.width && r.height == d.height
    ensures forall px, py | InBounds(d, px, py) ::
              At(r, px, py) == if Point(px, py) in LinePoints(x1, y1, x2, y2) then clr else At(d, px, py)
  {
    var p := Constants(x1, y1, x2, y2);
    InitialErrorAsWrittenIsGood(p.dx, p.dy);
    StartInv(x1, y1, x2, y2, p.err0);
    r := Plot(d, p, Cursor(x1, y1, p.err0), clr);
  }

  /**
   * `line` with the initial error halved by truncation instead of the
   * shift. It ends on every input and draws `LinePointsCorrected`.
   */
  method LineCorrected(d: Device, x1: int, y1: int, x2: int, y2: int, clr: u32) returns (r: Device)
    requires Valid(d)
    requires LineFits(x1, y1, x2, y2)
    ensures Valid(r) && r.width == d.width && r.height == d.height
    ensures forall px, py | InBounds(d, px, py) ::
              At(r, px, py) == if Point(px, py) in LinePointsCorrected(x1, y1, x2, y2) then clr else At(d, px, py)
  {
    var p := Constants(x1, y1, x2, y2);
    p := Truncated(p);
    InitialErrorIsGood(p.dx, p.dy);
    StartInv(x1, y1, x2, y2, p.err0);
    r := Plot(d, p, Cursor(x1, y1, p.err0), clr);
  }

  /** The loop constants with the initial error recomputed by C's truncating `/ 2`. */
  method Truncated(p: Params) returns (q: Params)
    requires 0 <= p.dx && 0 <= p.dy
    ensures q == p.(err0 := InitialError(p.dx, p.dy))
  {
    var v := if p.dx > p.dy then p.dx else -p.dy;
    var half := if v < 0 then -((-v) / 2) else v / 2;
    q := p.(err0 := half);
  }

  /**
   * The set-up of `line` before its loop, micro3d.h:32-36. Dafny's `/` by
   * 2 rounds toward minus infinity, as the arithmetic shift `>> 1` of a
   * signed `int` does.
   */
  method Constants(x1: int, y1: int, x2: int, y2: int) returns (p: Params)
    ensures p == Setup(x1, y1, x2, y2, InitialErrorAsWritten(Abs(x2 - x1), Abs(y2 - y1)))
  {
    var dx := if x1 < x2 then x2 - x1 else x1 - x2;
    var dy := if y1 < y2 then y2 - y1 else y1 - y2;
    var sx := if x1 < x2 then 1 else -1;
    var sy := if y1 < y2 then 1 else -1;
    var err := (if dx > dy then dx else -dy) / 2;
    p := Params(x2, y2, dx, dy, sx, sy, err);
  }

  /** The `while (1)` loop of `line`, run from loop state `c`. */
  method Plot(d: Device, p: Params, c: Cursor, clr: u32) returns (r: Device)
    requires Valid(d) && Inv(p, c)
    ensures r == Paint(d, Trace(p, c), clr)
  {
    var x, y, err := c.x, c.y, c.err;
    ghost var plotted: seq<Point> := [];
    r := d;
    while true
      invariant Inv(p, Cursor(x, y, err))
      invariant plotted + Trace(p, Cursor(x, y, err)) == Trace(p, c)
      invariant Valid(r) && r == Paint(d, plotted, clr)
      decreases Remaining(p, Cursor(x, y, err))
    {
      TraceUnfold(p, Cursor(x, y, err), plotted);
      PaintSnoc(d, plotted, Point(x, y), clr);
      r := Pixel(r, x, y, clr);
      plotted := plotted + [Point(x, y)];
      if x == p.x2 && y == p.y2 {
        break;
      }
      x, y, err := Advance(p, x, y, err);
    }
  }

  /** The loop body after the exit test: the two error tests of micro3d.h:41-49. */
  method Advance(p: Params, x0: int, y0: int, err0: int) returns (x: int, y: int, err: int)
    ensures Cursor(x, y, err) == Step(p, Cursor(x0, y0, err0))
  {
    x, y, err := x0, y0, err0;
    var err2 := err;
    if err2 > -p.dx {
      err := err - p.dy;
      x := x + p.sx;
    }
    if err2 < p.dy {
      err := err + p.dx;
      y := y + p.sy;
    }
  }
}
