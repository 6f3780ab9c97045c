/**
 * The point sequence visited by the Bresenham loop of `DrawLine` in
 * win-main.cpp (lines 150-184). It shares the loop constants, the loop
 * state and the distance-to-go measures with the micro3d.h loop, but keeps
 * its error term doubled: it starts at `dx - dy`, an x step happens when
 * `2 * err > -dy` and a y step when `2 * err < dx`, both tested on the
 * value `e2` computed before either update.
 */
module Win32Bresenham {
  import opened Plane
  import B = Bresenham

  /** The loop constants of `DrawLine`: `err` starts at `dx - dy`. */
  function Setup(x1: int, y1: int, x2: int, y2: int): (p: B.Params)
    ensures p.x2 == x2 && p.y2 == y2
    ensures p.dx == Abs(x2 - x1) && p.dy == Abs(y2 - y1) && p.err0 == p.dx - p.dy
    ensures p.sx == 1 || p.sx == -1
    ensures p.sy == 1 || p.sy == -1
    ensures B.Toward(x1, p.sx, p.dx) == x2 && B.Toward(y1, p.sy, p.dy) == y2
    ensures (x1 < x2 <==> p.sx == 1) && (y1 < y2 <==> p.sy == 1)
  {
    var dx, dy := Abs(x2 - x1), Abs(y2 - y1);
    B.Setup(x1, y1, x2, y2, dx - dy)
  }

  /** One pass of the loop body after the exit test, win-main.cpp:172-182. */
  function Step(p: B.Params, c: B.Cursor): B.Cursor
  {
    var e2 := 2 * c.err;
    var c1 := if e2 > -p.dy then B.Cursor(c.x + p.sx, c.y, c.err - p.dy) else c;
    if e2 < p.dx then B.Cursor(c1.x, c1.y + p.sy, c1.err + p.dx) else c1
  }

  /**
   * The loop invariant: the cursor has not passed the endpoint on either
   * axis, `err` is `dx - dy` corrected by the steps taken so far, and
   * twice `err` stays on the side of the major axis' test that makes it
   * step on every iteration.
   */
  predicate Inv(p: B.Params, c: B.Cursor)
  {
    && (p.sx == 1 || p.sx == -1)
    && (p.sy == 1 || p.sy == -1)
    && 0 <= p.dx && 0 <= p.dy && p.err0 == p.dx - p.dy
    && 0 <= B.RemX(p, c) <= p.dx
    && 0 <= B.RemY(p, c) <= p.dy
    && c.err == p.err0 + p.dy * B.RemX(p, c) - p.dx * B.RemY(p, c)
    && (p.dx > p.dy ==> 2 * c.err > -p.dy)
    && (p.dx < p.dy ==> 2 * c.err < p.dx)
    && (p.dx == p.dy ==> c.err == 0)
  }

  lemma NothingLeftIsEnd(p: B.Params, c: B.Cursor)
    requires Inv(p, c)
    ensures B.AtEnd(p, c) <==> B.RemX(p, c) == 0 && B.RemY(p, c) == 0
  {
  }

  /** An x-major line steps along x every time, along y while `2 * err < dx`. */
  lemma StepXMajor(p: B.Params, c: B.Cursor)
    requires Inv(p, c) && !B.AtEnd(p, c) && p.dx > p.dy
    ensures Inv(p, Step(p, c))
    ensures B.RemX(p, Step(p, c)) == B.RemX(p, c) - 1
    ensures B.RemY(p, Step(p, c)) == B.RemY(p, c) || B.RemY(p, Step(p, c)) == B.RemY(p, c) - 1
  {
    NothingLeftIsEnd(p, c);
    var a, b := B.RemX(p, c), B.RemY(p, c);
    if a == 0 {
      MulAtLeast(b, p.dx);
      assert false;
    }
    if 2 * c.err < p.dx {
      if b == 0 {
        MulAtLeast(a, p.dy);
        assert false;
      }
      StepXMajorDiagonal(p, c);
    } else {
      StepXMajorStraight(p, c);
    }
  }

  lemma StepXMajorDiagonal(p: B.Params, c: B.Cursor)
    requires Inv(p, c) && p.dx > p.dy && B.RemX(p, c) >= 1 && B.RemY(p, c) >= 1 && 2 * c.err < p.dx
    ensures Step(p, c) == B.Cursor(c.x + p.sx, c.y + p.sy, c.err - p.dy + p.dx)
    ensures Inv(p, Step(p, c))
    ensures B.RemX(p, Step(p, c)) == B.RemX(p, c) - 1 && B.RemY(p, Step(p, c)) == B.RemY(p, c) - 1
  {
    var c' := B.Cursor(c.x + p.sx, c.y + p.sy, c.err - p.dy + p.dx);
    assert Step(p, c) == c';
    var a, b := B.RemX(p, c), B.RemY(p, c);
    assert B.RemX(p, c') == a - 1 && B.RemY(p, c') == b - 1;
    assert p.dy * (a - 1) == p.dy * a - p.dy;
    assert p.dx * (b - 1) == p.dx * b - p.dx;
    assert c'.err == p.err0 + p.dy * (a - 1) - p.dx * (b - 1);
  }

  lemma StepXMajorStraight(p: B.Params, c: B.Cursor)
    requires Inv(p, c) && p.dx > p.dy && B.RemX(p, c) >= 1 && 2 * c.err >= p.dx
    ensures Step(p, c) == B.Cursor(c.x + p.sx, c.y, c.err - p.dy)
    ensures Inv(p, Step(p, c))
    ensures B.RemX(p, Step(p, c)) == B.RemX(p, c) - 1 && B.RemY(p, Step(p, c)) == B.RemY(p, c)
  {
    var c' := B.Cursor(c.x + p.sx, c.y, c.err - p.dy);
    assert Step(p, c) == c';
    var a, b := B.RemX(p, c), B.RemY(p, c);
    assert B.RemX(p, c') == a - 1 && B.RemY(p, c') == b;
    assert p.dy * (a - 1) == p.dy * a - p.dy;
    assert c'.err == p.err0 + p.dy * (a - 1) - p.dx * b;
  }

  /** A y-major line steps along y every time, along x while `2 * err > -dy`. */
  lemma StepYMajor(p: B.Params, c: B.Cursor)
    requires Inv(p, c) && !B.AtEnd(p, c) && p.dx < p.dy
    ensures Inv(p, Step(p, c))
    ensures B.RemY(p, Step(p, c)) == B.RemY(p, c) - 1
    ensures B.RemX(p, Step(p, c)) == B.RemX(p, c) || B.RemX(p, Step(p, c)) == B.RemX(p, c) - 1
  {
    NothingLeftIsEnd(p, c);
    var a, b := B.RemX(p, c), B.RemY(p, c);
    if b == 0 {
      MulAtLeast(a, p.dy);
      assert false;
    }
    if 2 * c.err > -p.dy {
      if a == 0 {
        MulAtLeast(b, p.dx);
        assert false;
      }
      StepYMajorDiagonal(p, c);
    } else {
      StepYMajorStraight(p, c);
    }
  }

  lemma StepYMajorDiagonal(p: B.Params, c: B.Cursor)
    requires Inv(p, c) && p.dx < p.dy && B.RemX(p, c) >= 1 && B.RemY(p, c) >= 1 && 2 * c.err > -p.dy
    ensures Step(p, c) == B.Cursor(c.x + p.sx, c.y + p.sy, c.err - p.dy + p.dx)
    ensures Inv(p, Step(p, c))
    ensures B.RemX(p, Step(p, c)) == B.RemX(p, c) - 1 && B.RemY(p, Step(p, c)) == B.RemY(p, c) - 1
  {
    var c' := B.Cursor(c.x + p.sx, c.y + p.sy, c.err - p.dy + p.dx);
    assert Step(p, c) == c';
    var a, b := B.RemX(p, c), B.RemY(p, c);
    assert B.RemX(p, c') == a - 1 && B.RemY(p, c') == b - 1;
    assert p.dy * (a - 1) == p.dy * a - p.dy;
    assert p.dx * (b - 1) == p.dx * b - p.dx;
    assert c'.err == p.err0 + p.dy * (a - 1) - p.dx * (b - 1);
  }

  lemma StepYMajorStraight(p: B.Params, c: B.Cursor)
    requires Inv(p, c) && p.dx < p.dy && B.RemY(p, c) >= 1 && 2 * c.err <= -p.dy
    ensures Step(p, c) == B.Cursor(c.x, c.y + p.sy, c.err + p.dx)
    ensures Inv(p, Step(p, c))
    ensures B.RemX(p, Step(p, c)) == B.RemX(p, c) && B.RemY(p, Step(p, c)) == B.RemY(p, c) - 1
  {
    var c' := B.Cursor(c.x, c.y + p.sy, c.err + p.dx);
    assert Step(p, c) == c';
    var a, b := B.RemX(p, c), B.RemY(p, c);
    assert B.RemX(p, c') == a && B.RemY(p, c') == b - 1;
    assert p.dx * (b - 1) == p.dx * b - p.dx;
    assert c'.err == p.err0 + p.dy * a - p.dx * (b - 1);
  }

  /** On a 45-degree line (dx == dy) the cursor is as far from the endpoint along x as along y. */
  lemma DiagonalEven(p: B.Params, c: B.Cursor)
    requires Inv(p, c) && p.dx == p.dy
    ensures p.dx > 0 ==> B.RemX(p, c) == B.RemY(p, c)
  {
    var a, b := B.RemX(p, c), B.RemY(p, c);
    if p.dx > 0 && a < b {
      assert p.dx * (b - a) == p.dx * b - p.dx * a;
      MulAtLeast(b - a, p.dx);
      assert false;
    }
    if p.dx > 0 && b < a {
      assert false;
    }
  }

  /** A 45-degree line keeps `err` at 0 and steps diagonally every time. */
  lemma StepDiagonal(p: B.Params, c: B.Cursor)
    requires Inv(p, c) && !B.AtEnd(p, c) && p.dx == p.dy
    ensures Step(p, c) == B.Cursor(c.x + p.sx, c.y + p.sy, 0)
    ensures Inv(p, Step(p, c))
    ensures B.RemX(p, Step(p, c)) == B.RemX(p, c) - 1 && B.RemY(p, Step(p, c)) == B.RemY(p, c) - 1
  {
    NothingLeftIsEnd(p, c);
    DiagonalEven(p, c);
    var a := B.RemX(p, c);
    assert p.dx * (a - 1) == p.dx * a - p.dx;
  }

  /**
   * One iteration keeps the invariant, moves by one unit on x and/or y
   * toward the endpoint, and always moves along the major axis.
   */
  lemma StepPreserves(p: B.Params, c: B.Cursor)
    requires Inv(p, c) && !B.AtEnd(p, c)
    ensures Inv(p, Step(p, c))
    ensures B.Remaining(p, Step(p, c)) < B.Remaining(p, c)
    ensures UnitStep(Point(c.x, c.y), Point(Step(p, c).x, Step(p, c).y), p.sx, p.sy)
    ensures Between(Step(p, c).x, c.x, p.x2) && Between(Step(p, c).y, c.y, p.y2)
    ensures p.dx >= p.dy ==> B.RemX(p, Step(p, c)) == B.RemX(p, c) - 1
    ensures p.dx <= p.dy ==> B.RemY(p, Step(p, c)) == B.RemY(p, c) - 1
  {
    if p.dx > p.dy {
      StepXMajor(p, c);
    } else if p.dx < p.dy {
      StepYMajor(p, c);
    } else {
      StepDiagonal(p, c);
    }
  }

  /**
   * The points `DrawLine` centres its 3x3 stamp on from loop state `c` on:
   * the current point, then the points after one more step, until the
   * endpoint has been stamped.
   */
  function Trace(p: B.Params, c: B.Cursor): (t: seq<Point>)
    requires Inv(p, c)
    ensures |t| >= 1 && t[0] == Point(c.x, c.y)
    ensures t[|t| - 1] == Point(p.x2, p.y2)
    decreases B.Remaining(p, c)
  {
    if B.AtEnd(p, c) then
      [Point(c.x, c.y)]
    else
      StepPreserves(p, c);
      [Point(c.x, c.y)] + Trace(p, Step(p, c))
  }

  /**
   * `Trace` unfolded once behind the points `done` already stamped, with
   * what the loop needs to carry on.
   */
  lemma TraceUnfold(p: B.Params, c: B.Cursor, done: seq<Point>)
    requires Inv(p, c)
    ensures B.AtEnd(p, c) ==> done + Trace(p, c) == done + [Point(c.x, c.y)]
    ensures !B.AtEnd(p, c) ==>
              && Inv(p, Step(p, c))
              && B.Remaining(p, Step(p, c)) < B.Remaining(p, c)
              && done + Trace(p, c) == (done + [Point(c.x, c.y)]) + Trace(p, Step(p, c))
  {
    if !B.AtEnd(p, c) {
      StepPreserves(p, c);
      var t' := Trace(p, Step(p, c));
      assert Trace(p, c) == [Point(c.x, c.y)] + t';
      assert done + ([Point(c.x, c.y)] + t') == (done + [Point(c.x, c.y)]) + t';
    }
  }

  /** Consecutive points are one unit step apart, in the directions sx, sy. */
  lemma {:induction false} TraceSteps(p: B.Params, c: B.Cursor)
    requires Inv(p, c)
    ensures forall i | 0 < i < |Trace(p, c)| :: UnitStep(Trace(p, c)[i - 1], Trace(p, c)[i], p.sx, p.sy)
    decreases B.Remaining(p, c)
  {
    if !B.AtEnd(p, c) {
      StepPreserves(p, c);
      var t, t' := Trace(p, c), Trace(p, Step(p, c));
      assert t == [Point(c.x, c.y)] + t';
      TraceSteps(p, Step(p, c));
      forall i | 0 < i < |t|
        ensures UnitStep(t[i - 1], t[i], p.sx, p.sy)
      {
        if i > 1 {
          assert t[i - 1] == t'[i - 2] && t[i] == t'[i - 1];
        }
      }
    }
  }

  /** Every point lies in the box spanned by the current point and the endpoint. */
  lemma {:induction false} TraceBetween(p: B.Params, c: B.Cursor)
    requires Inv(p, c)
    ensures forall i | 0 <= i < |Trace(p, c)| ::
              Between(Trace(p, c)[i].x, c.x, p.x2) && Between(Trace(p, c)[i].y, c.y, p.y2)
    decreases B.Remaining(p, c)
  {
    if !B.AtEnd(p, c) {
      StepPreserves(p, c);
      var t, t' := Trace(p, c), Trace(p, Step(p, c));
      assert t == [Point(c.x, c.y)] + t';
      TraceBetween(p, Step(p, c));
      forall i | 0 <= i < |t|
        ensures Between(t[i].x, c.x, p.x2) && Between(t[i].y, c.y, p.y2)
      {
        if i > 0 {
          assert t[i] == t'[i - 1];
        }
      }
    }
  }

  /** One point per unit of the major axis, plus the starting point. */
  lemma {:induction false} TraceLength(p: B.Params, c: B.Cursor)
    requires Inv(p, c)
    ensures |Trace(p, c)| == (if p.dx >= p.dy then B.RemX(p, c) else B.RemY(p, c)) + 1
    decreases B.Remaining(p, c)
  {
    if !B.AtEnd(p, c) {
      StepPreserves(p, c);
      TraceLength(p, Step(p, c));
    }
  }

  /** The loop state on entry. */
  lemma StartInv(x1: int, y1: int, x2: int, y2: int)
    ensures Inv(Setup(x1, y1, x2, y2), B.Cursor(x1, y1, Abs(x2 - x1) - Abs(y2 - y1)))
  {
    var p := Setup(x1, y1, x2, y2);
    assert p.dy * p.dx == p.dx * p.dy;
  }

  /**
   * The centres `DrawLine` stamps from (x1, y1) to (x2, y2). It starts at
   * (x1, y1), ends at (x2, y2), and is a single point exactly when the
   * endpoints coincide.
   */
  function LinePoints(x1: int, y1: int, x2: int, y2: int): (t: seq<Point>)
    ensures |t| >= 1 && t[0] == Point(x1, y1) && t[|t| - 1] == Point(x2, y2)
    ensures |t| == 1 <==> (x1 == x2 && y1 == y2)
  {
    StartInv(x1, y1, x2, y2);
    Trace(Setup(x1, y1, x2, y2), B.Cursor(x1, y1, Abs(x2 - x1) - Abs(y2 - y1)))
  }

  /** Each step moves x by 0 or sx and y by 0 or sy, and moves at least one of them. */
  lemma LineSteps(x1: int, y1: int, x2: int, y2: int)
    ensures forall i | 0 < i < |LinePoints(x1, y1, x2, y2)| ::
              && UnitStep(LinePoints(x1, y1, x2, y2)[i - 1], LinePoints(x1, y1, x2, y2)[i],
                          if x1 < x2 then 1 else -1, if y1 < y2 then 1 else -1)
              && Adjacent(LinePoints(x1, y1, x2, y2)[i - 1], LinePoints(x1, y1, x2, y2)[i])
  {
    StartInv(x1, y1, x2, y2);
    var p := Setup(x1, y1, x2, y2);
    TraceSteps(p, B.Cursor(x1, y1, Abs(x2 - x1) - Abs(y2 - y1)));
    var t := LinePoints(x1, y1, x2, y2);
    forall i | 0 < i < |t|
      ensures Adjacent(t[i - 1], t[i])
    {
      assert UnitStep(t[i - 1], t[i], p.sx, p.sy);
    }
  }

  /** x never leaves the closed interval between x1 and x2, nor y the one between y1 and y2. */
  lemma LineInBox(x1: int, y1: int, x2: int, y2: int)
    ensures forall i | 0 <= i < |LinePoints(x1, y1, x2, y2)| ::
              && Between(LinePoints(x1, y1, x2, y2)[i].x, x1, x2)
              && Between(LinePoints(x1, y1, x2, y2)[i].y, y1, y2)
  {
    StartInv(x1, y1, x2, y2);
    TraceBetween(Setup(x1, y1, x2, y2), B.Cursor(x1, y1, Abs(x2 - x1) - Abs(y2 - y1)));
  }

  /** The line has max(|Δx|, |Δy|) + 1 centres. */
  lemma LineLength(x1: int, y1: int, x2: int, y2: int)
    ensures |LinePoints(x1, y1, x2, y2)| == Max(Abs(x2 - x1), Abs(y2 - y1)) + 1
  {
    StartInv(x1, y1, x2, y2);
    TraceLength(Setup(x1, y1, x2, y2), B.Cursor(x1, y1, Abs(x2 - x1) - Abs(y2 - y1)));
  }
}
