/**
 * `DrawLine` of win-main.cpp (lines 150-184): the Bresenham loop of
 * `Win32Bresenham`, stamping a 3x3 block of `DrawPixel` calls around every
 * point it visits, which draws a line three pixels wide.
 */
module Win32Line {
  import opened Plane
  import opened Win32Color
  import opened Dib
  import B = Bresenham
  import W = Win32Bresenham

  /** `q` lies in the 3x3 block centred on `c`. */
  predicate Near(q: Point, c: Point)
  {
    Abs(q.x - c.x) <= 1 && Abs(q.y - c.y) <= 1
  }

  /** `q` lies in the 3x3 block centred on some point of `t`. */
  predicate NearLine(q: Point, t: seq<Point>)
  {
    exists k | 0 <= k < |t| :: Near(q, t[k])
  }

  /**
   * The nine pixels of the 3x3 stamp centred on `c`, in the order the two
   * nested loops draw them: x offset `i` outer, y offset `j` inner.
   */
  function Block(c: Point): (b: seq<Point>)
    ensures |b| == 9
  {
    [Point(c.x - 1, c.y - 1), Point(c.x - 1, c.y), Point(c.x - 1, c.y + 1),
     Point(c.x, c.y - 1),     Point(c.x, c.y),     Point(c.x, c.y + 1),
     Point(c.x + 1, c.y - 1), Point(c.x + 1, c.y), Point(c.x + 1, c.y + 1)]
  }

  /** Iteration (i, j) of the nested loops draws entry `3 * (i + 1) + (j + 1)` of `Block`. */
  lemma BlockAt(c: Point, i: int, j: int)
    requires -1 <= i <= 1 && -1 <= j <= 1
    ensures Block(c)[3 * (i + 1) + (j + 1)] == Point(c.x + i, c.y + j)
  {
  }

  /** The stamp covers exactly the pixels within one unit of its centre on both axes. */
  lemma BlockCovers(c: Point)
    ensures forall q :: q in Block(c) <==> Near(q, c)
  {
    forall q | Near(q, c)
      ensures q in Block(c)
    {
      BlockAt(c, q.x - c.x, q.y - c.y);
    }
  }

  /**
   * The pixels the stamps along `t` draw, in drawing order. A pixel is
   * among them exactly when it is within one unit, on both axes, of some
   * point of `t`.
   */
  function Thicken(t: seq<Point>): (r: seq<Point>)
    ensures forall q :: q in r <==> NearLine(q, t)
    decreases |t|
  {
    if t == [] then
      []
    else
      var init, last := t[..|t| - 1], t[|t| - 1];
      var r := Thicken(init) + Block(last);
      BlockCovers(last);
      assert forall k | 0 <= k < |init| :: init[k] == t[k];
      assert forall q | NearLine(q, t) && !Near(q, last) :: NearLine(q, init);
      r
  }

  /** Stamping one more point appends its block. */
  lemma ThickenSnoc(t: seq<Point>, pt: Point)
    ensures Thicken(t + [pt]) == Thicken(t) + Block(pt)
  {
    assert (t + [pt])[..|t|] == t;
  }

  /** The first `k` pixels of the stamp centred on `c`, drawn in order. */
  function Stamped(s: Surface, c: Point, k: nat, color: ColorRef): (r: Surface)
    requires Valid(s) && k <= 9
    ensures Valid(r) && r.width == s.width && r.height == s.height
  {
    if k == 0 then s else DrawPixel(Stamped(s, c, k - 1, color), Block(c)[k - 1].x, Block(c)[k - 1].y, color)
  }

  /** Drawing the first `k` pixels of the stamp one by one is drawing `Block(c)[..k]`. */
  lemma {:induction false} StampedIsDrawn(s: Surface, c: Point, k: nat, color: ColorRef)
    requires Valid(s) && k <= 9
    ensures Stamped(s, c, k, color) == DrawPixels(s, Block(c)[..k], color)
  {
    if k > 0 {
      StampedIsDrawn(s, c, k - 1, color);
      assert Block(c)[..k] == Block(c)[..k - 1] + [Block(c)[k - 1]];
      DrawPixelsSnoc(s, Block(c)[..k - 1], Block(c)[k - 1], color);
    }
  }

  /**
   * The two nested `for` loops of `DrawLine`: `DrawPixel` at every pixel of
   * the 3x3 block centred on (x, y).
   */
  method Stamp(s: Surface, x: int, y: int, color: ColorRef) returns (r: Surface)
    requires Valid(s)
    ensures r == DrawPixels(s, Block(Point(x, y)), color)
  {
    r := s;
    for i := -1 to 2
      invariant r == Stamped(s, Point(x, y), 3 * (i + 1), color)
    {
      for j := -1 to 2
        invariant r == Stamped(s, Point(x, y), 3 * (i + 1) + (j + 1), color)
      {
        BlockAt(Point(x, y), i, j);
        r := DrawPixel(r, x + i, y + j, color);
      }
    }
    StampedIsDrawn(s, Point(x, y), 9, color);
    assert Block(Point(x, y))[..9] == Block(Point(x, y));
  }

  /**
   * `DrawLine`: every pixel of the window within one unit, on both axes,
   * of a point of `W.LinePoints(x1, y1, x2, y2)` gets `color`; every other
   * pixel keeps its bytes.
   */
  method DrawLine(s: Surface, x1: int, y1: int, x2: int, y2: int, color: ColorRef) returns (r: Surface)
    requires Valid(s)
    requires ThickLineFits(x1, y1, x2, y2)
    ensures Valid(r) && r.width == s.width && r.height == s.height
    ensures forall px, py | OnSurface(s, px, py) ::
              PixelAt(r, px, py)
                == if NearLine(Point(px, py), W.LinePoints(x1, y1, x2, y2)) then Bgra(color) else PixelAt(s, px, py)
  {
    var p := Constants(x1, y1, x2, y2);
    W.StartInv(x1, y1, x2, y2);
    r := Sweep(s, p, B.Cursor(x1, y1, p.err0), color);
    ThickDrawn(s, W.LinePoints(x1, y1, x2, y2), color);
  }

  /** The set-up of `DrawLine` before its loop, win-main.cpp:152-156. */
  method Constants(x1: int, y1: int, x2: int, y2: int) returns (p: B.Params)
    ensures p == W.Setup(x1, y1, x2, y2)
  {
    var dx := if x2 - x1 < 0 then -(x2 - x1) else x2 - x1;
    var dy := if y2 - y1 < 0 then -(y2 - y1) else y2 - y1;
    var sx := if x1 < x2 then 1 else -1;
    var sy := if y1 < y2 then 1 else -1;
    var err := dx - dy;
    p := B.Params(x2, y2, dx, dy, sx, sy, err);
  }

  /** Stamping along `t` gives `color` to exactly the window pixels near `t`. */
  lemma ThickDrawn(s: Surface, t: seq<Point>, color: ColorRef)
    requires Valid(s)
    ensures forall px, py | OnSurface(s, px, py) ::
              PixelAt(DrawPixels(s, Thicken(t), color), px, py)
                == if NearLine(Point(px, py), t) then Bgra(color) else PixelAt(s, px, py)
  {
    DrawnPixels(s, Thicken(t), color);
  }

  /** The `while (true)` loop of `DrawLine`, run from loop state `c`. */
  method Sweep(s: Surface, p: B.Params, c: B.Cursor, color: ColorRef) returns (r: Surface)
    requires Valid(s) && W.Inv(p, c)
    ensures r == DrawPixels(s, Thicken(W.Trace(p, c)), color)
  {
    var x1, y1, err := c.x, c.y, c.err;
    ghost var stamped: seq<Point> := [];
    r := s;
    while true
      invariant W.Inv(p, B.Cursor(x1, y1, err))
      invariant stamped + W.Trace(p, B.Cursor(x1, y1, err)) == W.Trace(p, c)
      invariant Valid(r) && r == DrawPixels(s, Thicken(stamped), color)
      decreases B.Remaining(p, B.Cursor(x1, y1, err))
    {
      W.TraceUnfold(p, B.Cursor(x1, y1, err), stamped);
      r := Stamp(r, x1, y1, color);
      ThickenSnoc(stamped, Point(x1, y1));
      DrawPixelsAppend(s, Thicken(stamped), Block(Point(x1, y1)), color);
      stamped := stamped + [Point(x1, y1)];
      if x1 == p.x2 && y1 == p.y2 {
        break;
      }
      x1, y1, err := Advance(p, x1, y1, err);
    }
  }

  /** The loop body after the exit test: the two tests on `e2` of win-main.cpp:172-182. */
  method Advance(p: B.Params, x0: int, y0: int, err0: int) returns (x1: int, y1: int, err: int)
    ensures B.Cursor(x1, y1, err) == W.Step(p, B.Cursor(x0, y0, err0))
  {
    x1, y1, err := x0, y0, err0;
    var e2 := 2 * err;
    if e2 > -p.dy {
      err := err - p.dy;
      x1 := x1 + p.sx;
    }
    if e2 < p.dx {
      err := err + p.dx;
      y1 := y1 + p.sy;
    }
  }

  /** The wide line covers the thin one: both endpoints and every point in between get `color`. */
  lemma WideCoversThin(x1: int, y1: int, x2: int, y2: int)
    ensures forall k | 0 <= k < |W.LinePoints(x1, y1, x2, y2)| ::
              NearLine(W.LinePoints(x1, y1, x2, y2)[k], W.LinePoints(x1, y1, x2, y2))
    ensures NearLine(Point(x1, y1), W.LinePoints(x1, y1, x2, y2))
    ensures NearLine(Point(x2, y2), W.LinePoints(x1, y1, x2, y2))
  {
    var t := W.LinePoints(x1, y1, x2, y2);
    forall k | 0 <= k < |t|
      ensures NearLine(t[k], t)
    {
      assert Near(t[k], t[k]);
    }
    assert Near(t[0], t[0]) && Near(t[|t| - 1], t[|t| - 1]);
  }

  /** Nothing is drawn more than one pixel outside the box spanned by the endpoints. */
  lemma WideInBox(x1: int, y1: int, x2: int, y2: int, q: Point)
    requires NearLine(q, W.LinePoints(x1, y1, x2, y2))
    ensures Between(q.x, x1, x2) || Abs(q.x - x1) <= 1 || Abs(q.x - x2) <= 1
    ensures Between(q.y, y1, y2) || Abs(q.y - y1) <= 1 || Abs(q.y - y2) <= 1
  {
    var t := W.LinePoints(x1, y1, x2, y2);
    W.LineInBox(x1, y1, x2, y2);
    var k :| 0 <= k < |t| && Near(q, t[k]);
    assert Between(t[k].x, x1, x2) && Between(t[k].y, y1, y2);
  }
}
