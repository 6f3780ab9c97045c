/**
 * The point sequence visited by the Bresenham loop of `line` in micro3d.h
 * (lines 31-51): the loop constants, one iteration of the loop body as a
 * pure step function, and `Trace`, the points plotted from a loop state up
 * to the endpoint.
 *
 * The error term of this formulation is kept in single units: an x step
 * happens when `err > -dx`, a y step when `err < dy`, both tested on the
 * value `err2` saved before either update.
 */
module Bresenham {
  import opened Plane

  /** What `line` fixes before its loop: the endpoint, |Δx|, |Δy|, the step signs and the initial error. */
  datatype Params = Params(x2: int, y2: int, dx: int, dy: int, sx: int, sy: int, err0: int)

  /** The loop state: the current point (`x1`, `y1` in the code) and `err`. */
  datatype Cursor = Cursor(x: int, y: int, err: int)

  /** `a` moved `k` units in direction `s` (+1 or -1). */
  function Toward(a: int, s: int, k: int): int
  {
    if s == 1 then a + k else a - k
  }

  /**
   * The initial error as micro3d.h:36 writes it: `(dx > dy ? dx : -dy) >> 1`.
   * An arithmetic right shift of a signed `int` rounds toward minus infinity.
   */
  function InitialErrorAsWritten(dx: int, dy: int): (e: int)
    ensures var v := if dx > dy then dx else -dy;
            2 * e <= v < 2 * e + 2
  {
    (if dx > dy then dx else -dy) / 2
  }

  /**
   * The initial error with C's truncating `/ 2` in place of `>> 1`, the
   * Bresenham formulation the shift was meant to implement: it rounds
   * toward zero.
   */
  function InitialError(dx: int, dy: int): (e: int)
    requires 0 <= dx && 0 <= dy
    ensures var v := if dx > dy then dx else -dy;
            && (v >= 0 ==> 0 <= 2 * e <= v < 2 * e + 2)
            && (v <= 0 ==> 2 * e - 2 < v <= 2 * e <= 0)
  {
    if dx > dy then dx / 2 else -(dy / 2)
  }

  /** micro3d.h:32-35: the absolute differences and the step directions. */
  function Setup(x1: int, y1: int, x2: int, y2: int, err0: int): (p: Params)
    ensures p.x2 == x2 && p.y2 == y2 && p.err0 == err0
    ensures p.sx == 1 || p.sx == -1
    ensures p.sy == 1 || p.sy == -1
    ensures Toward(x1, p.sx, p.dx) == x2 && Toward(y1, p.sy, p.dy) == y2
    ensures (x1 < x2 <==> p.sx == 1) && (y1 < y2 <==> p.sy == 1)
  {
    Params(x2, y2,
           if x1 < x2 then x2 - x1 else x1 - x2,
           if y1 < y2 then y2 - y1 else y1 - y2,
           if x1 < x2 then 1 else -1,
           if y1 < y2 then 1 else -1,
           err0)
  }

  /** The loop's exit test, micro3d.h:40. */
  predicate AtEnd(p: Params, c: Cursor)
  {
    c.x == p.x2 && c.y == p.y2
  }

  /** One pass of the loop body after the exit test, micro3d.h:41-49. */
  function Step(p: Params, c: Cursor): Cursor
  {
    var err2 := c.err;
    var c1 := if err2 > -p.dx then Cursor(c.x + p.sx, c.y, c.err - p.dy) else c;
    if err2 < p.dy then Cursor(c1.x, c1.y + p.sy, c1.err + p.dx) else c1
  }

  /** Steps still to take along x (and y) to reach the endpoint. */
  function RemX(p: Params, c: Cursor): int
  {
    if p.sx == 1 then p.x2 - c.x else c.x - p.x2
  }

  function RemY(p: Params, c: Cursor): int
  {
    if p.sy == 1 then p.y2 - c.y else c.y - p.y2
  }

  /**
   * Initial errors from which the loop lands on the endpoint: in an
   * x-major line a value in [0, dx), in a y-major one a value in (-dy, 0]
   * (any value <= 0 when the line is vertical).
   */
  predicate GoodStart(dx: int, dy: int, e: int)
  {
    && 0 <= dx && 0 <= dy
    && (dx > dy ==> 0 <= e < dx)
    && (dx <= dy ==> e <= 0 && (dx == 0 || -e < dy))
  }

  /**
   * The loop invariant: the cursor has not passed the endpoint on either
   * axis, `err` is the initial error corrected by the steps taken so far,
   * and its sign matches the major axis.
   */
  predicate Inv(p: Params, c: Cursor)
  {
    && (p.sx == 1 || p.sx == -1)
    && (p.sy == 1 || p.sy == -1)
    && GoodStart(p.dx, p.dy, p.err0)
    && 0 <= RemX(p, c) <= p.dx
    && 0 <= RemY(p, c) <= p.dy
    && c.err == p.err0 + p.dy * RemX(p, c) - p.dx * RemY(p, c)
    && (p.dx > p.dy ==> c.err >= 0)
    && (p.dx <= p.dy ==> c.err <= 0)
  }

  /** The loop variant. */
  function Remaining(p: Params, c: Cursor): int
  {
    RemX(p, c) + RemY(p, c)
  }

  /** In an x-major line the cursor cannot run out of x steps before y steps. */
  lemma XMajorEndsTogether(p: Params, c: Cursor)
    requires Inv(p, c) && p.dx > p.dy
    ensures RemX(p, c) == 0 ==> RemY(p, c) == 0
    ensures RemY(p, c) == 0 && RemX(p, c) >= 1 ==> c.err >= p.dy
  {
    var a, b := RemX(p, c), RemY(p, c);
    if a == 0 && b >= 1 {
      MulAtLeast(b, p.dx);
      assert false;
    }
    if b == 0 && a >= 1 {
      MulAtLeast(a, p.dy);
    }
  }

  /** In a y-major line the cursor cannot run out of y steps before x steps. */
  lemma YMajorEndsTogether(p: Params, c: Cursor)
    requires Inv(p, c) && p.dx <= p.dy
    ensures RemY(p, c) == 0 ==> RemX(p, c) == 0
    ensures RemX(p, c) == 0 && RemY(p, c) >= 1 ==> c.err <= -p.dx
  {
    var a, b := RemX(p, c), RemY(p, c);
    if b == 0 && a >= 1 {
      MulAtLeast(a, p.dy);
      assert false;
    }
    if a == 0 && b >= 1 {
      MulAtLeast(b, p.dx);
    }
  }

  /** Both coordinates at their targets means the exit test succeeds. */
  lemma NothingLeftIsEnd(p: Params, c: Cursor)
    requires Inv(p, c)
    ensures AtEnd(p, c) <==> RemX(p, c) == 0 && RemY(p, c) == 0
  {
  }

  /** The step of an x-major line: always along x, along y while `err < dy`. */
  lemma StepXMajor(p: Params, c: Cursor)
    requires Inv(p, c) && !AtEnd(p, c) && p.dx > p.dy
    ensures Inv(p, Step(p, c))
    ensures RemX(p, Step(p, c)) == RemX(p, c) - 1
    ensures RemY(p, Step(p, c)) == RemY(p, c) || RemY(p, Step(p, c)) == RemY(p, c) - 1
  {
    XMajorEndsTogether(p, c);
    NothingLeftIsEnd(p, c);
    if c.err < p.dy {
      StepXMajorDiagonal(p, c);
    } else {
      StepXMajorStraight(p, c);
    }
  }

  lemma StepXMajorDiagonal(p: Params, c: Cursor)
    requires Inv(p, c) && p.dx > p.dy && RemX(p, c) >= 1 && RemY(p, c) >= 1 && c.err < p.dy
    ensures Step(p, c) == Cursor(c.x + p.sx, c.y + p.sy, c.err - p.dy + p.dx)
    ensures Inv(p, Step(p, c))
    ensures RemX(p, Step(p, c)) == RemX(p, c) - 1 && RemY(p, Step(p, c)) == RemY(p, c) - 1
  {
    var c' := Cursor(c.x + p.sx, c.y + p.sy, c.err - p.dy + p.dx);
    assert Step(p, c) == c';
    var a, b := RemX(p, c), RemY(p, c);
    assert RemX(p, c') == a - 1 && RemY(p, c') == b - 1;
    assert p.dy * (a - 1) == p.dy * a - p.dy;
    assert p.dx * (b - 1) == p.dx * b - p.dx;
    assert c'.err == p.err0 + p.dy * (a - 1) - p.dx * (b - 1);
  }

  lemma StepXMajorStraight(p: Params, c: Cursor)
    requires Inv(p, c) && p.dx > p.dy && RemX(p, c) >= 1 && c.err >= p.dy
    ensures Step(p, c) == Cursor(c.x + p.sx, c.y, c.err - p.dy)
    ensures Inv(p, Step(p, c))
    ensures RemX(p, Step(p, c)) == RemX(p, c) - 1 && RemY(p, Step(p, c)) == RemY(p, c)
  {
    var c' := Cursor(c.x + p.sx, c.y, c.err - p.dy);
    assert Step(p, c) == c';
    var a, b := RemX(p, c), RemY(p, c);
    assert RemX(p, c') == a - 1 && RemY(p, c') == b;
    assert p.dy * (a - 1) == p.dy * a - p.dy;
    assert c'.err == p.err0 + p.dy * (a - 1) - p.dx * b;
  }

  /** The step of a y-major line: always along y, along x while `err > -dx`. */
  lemma StepYMajor(p: Params, c: Cursor)
    requires Inv(p, c) && !AtEnd(p, c) && p.dx <= p.dy
    ensures Inv(p, Step(p, c))
    ensures RemY(p, Step(p, c)) == RemY(p, c) - 1
    ensures RemX(p, Step(p, c)) == RemX(p, c) || RemX(p, Step(p, c)) == RemX(p, c) - 1
  {
    YMajorEndsTogether(p, c);
    NothingLeftIsEnd(p, c);
    if c.err > -p.dx {
      StepYMajorDiagonal(p, c);
    } else {
      StepYMajorStraight(p, c);
    }
  }

  lemma StepYMajorDiagonal(p: Params, c: Cursor)
    requires Inv(p, c) && p.dx <= p.dy && RemX(p, c) >= 1 && RemY(p, c) >= 1 && c.err > -p.dx
    ensures Step(p, c) == Cursor(c.x + p.sx, c.y + p.sy, c.err - p.dy + p.dx)
    ensures Inv(p, Step(p, c))
    ensures RemX(p, Step(p, c)) == RemX(p, c) - 1 && RemY(p, Step(p, c)) == RemY(p, c) - 1
  {
    var c' := Cursor(c.x + p.sx, c.y + p.sy, c.err - p.dy + p.dx);
    assert Step(p, c) == c';
    var a, b := RemX(p, c), RemY(p, c);
    assert RemX(p, c') == a - 1 && RemY(p, c') == b - 1;
    assert p.dy * (a - 1) == p.dy * a - p.dy;
    assert p.dx * (b - 1) == p.dx * b - p.dx;
    assert c'.err == p.err0 + p.dy * (a - 1) - p.dx * (b - 1);
  }

  lemma StepYMajorStraight(p: Params, c: Cursor)
    requires Inv(p, c) && p.dx <= p.dy && RemY(p, c) >= 1 && c.err <= -p.dx
    ensures Step(p, c) == Cursor(c.x, c.y + p.sy, c.err + p.dx)
    ensures Inv(p, Step(p, c))
    ensures RemX(p, Step(p, c)) == RemX(p, c) && RemY(p, Step(p, c)) == RemY(p, c) - 1
  {
    var c' := Cursor(c.x, c.y + p.sy, c.err + p.dx);
    assert Step(p, c) == c';
    var a, b := RemX(p, c), RemY(p, c);
    assert RemX(p, c') == a && RemY(p, c') == b - 1;
    assert p.dx * (b - 1) == p.dx * b - p.dx;
    assert c'.err == p.err0 + p.dy * a - p.dx * (b - 1);
  }

  /**
   * One iteration keeps the invariant, moves by one unit on x and/or y
   * toward the endpoint, and always moves along the major axis.
   */
  lemma StepPreserves(p: Params, c: Cursor)
    requires Inv(p, c) && !AtEnd(p, c)
    ensures Inv(p, Step(p, c))
    ensures Remaining(p, Step(p, c)) < Remaining(p, c)
    ensures UnitStep(Point(c.x, c.y), Point(Step(p, c).x, Step(p, c).y), p.sx, p.sy)
    ensures Between(Step(p, c).x, c.x, p.x2) && Between(Step(p, c).y, c.y, p.y2)
    ensures p.dx > p.dy ==> RemX(p, Step(p, c)) == RemX(p, c) - 1
    ensures p.dx <= p.dy ==> RemY(p, Step(p, c)) == RemY(p, c) - 1
  {
    if p.dx > p.dy {
      StepXMajor(p, c);
    } else {
      StepYMajor(p, c);
    }
  }

  /**
   * The points `line` plots from loop state `c` on: the current point, then
   * the points after one more step, until the endpoint has been plotted.
   */
  function Trace(p: Params, c: Cursor): (t: seq<Point>)
    requires Inv(p, c)
    ensures |t| >= 1 && t[0] == Point(c.x, c.y)
    ensures t[|t| - 1] == Point(p.x2, p.y2)
    decreases Remaining(p, c)
  {
    if AtEnd(p, c) then
      [Point(c.x, c.y)]
    else
      StepPreserves(p, c);
      [Point(c.x, c.y)] + Trace(p, Step(p, c))
  }

  /**
   * `Trace` unfolded once behind the points `done` already plotted, with
   * what the loop needs to carry on.
   */
  lemma TraceUnfold(p: Params, c: Cursor, done: seq<Point>)
    requires Inv(p, c)
    ensures AtEnd(p, c) ==> done + Trace(p, c) == done + [Point(c.x, c.y)]
    ensures !AtEnd(p, c) ==>
              && Inv(p, Step(p, c))
              && Remaining(p, Step(p, c)) < Remaining(p, c)
              && done + Trace(p, c) == (done + [Point(c.x, c.y)]) + Trace(p, Step(p, c))
  {
    if !AtEnd(p, c) {
      StepPreserves(p, c);
      var t' := Trace(p, Step(p, c));
      assert Trace(p, c) == [Point(c.x, c.y)] + t';
      assert done + ([Point(c.x, c.y)] + t') == (done + [Point(c.x, c.y)]) + t';
    }
  }

  /** Consecutive plotted points are one unit step apart, in the directions sx, sy. */
  lemma {:induction false} TraceSteps(p: Params, c: Cursor)
    requires Inv(p, c)
    ensures forall i | 0 < i < |Trace(p, c)| :: UnitStep(Trace(p, c)[i - 1], Trace(p, c)[i], p.sx, p.sy)
    decreases Remaining(p, c)
  {
    if !AtEnd(p, c) {
      StepPreserves(p, c);
      var t, t' := Trace(p, c), Trace(p, Step(p, c));
      assert t == [Point(c.x, c.y)] + t';
      TraceSteps(p, Step(p, c));
      forall i | 0 < i < |t|
        ensures UnitStep(t[i - 1], t[i], p.sx, p.sy)
      {
        if i > 1 {
          assert t[i - 1] == t'[i - 2] && t[i] == t'[i - 1];
        }
      }
    }
  }

  /** Every plotted point lies in the box spanned by the current point and the endpoint. */
  lemma {:induction false} TraceBetween(p: Params, c: Cursor)
    requires Inv(p, c)
    ensures forall i | 0 <= i < |Trace(p, c)| ::
              Between(Trace(p, c)[i].x, c.x, p.x2) && Between(Trace(p, c)[i].y, c.y, p.y2)
    decreases Remaining(p, c)
  {
    if !AtEnd(p, c) {
      StepPreserves(p, c);
      var t, t' := Trace(p, c), Trace(p, Step(p, c));
      assert t == [Point(c.x, c.y)] + t';
      TraceBetween(p, Step(p, c));
      forall i | 0 <= i < |t|
        ensures Between(t[i].x, c.x, p.x2) && Between(t[i].y, c.y, p.y2)
      {
        if i > 0 {
          assert t[i] == t'[i - 1];
        }
      }
    }
  }

  /** One point per unit of the major axis, plus the starting point. */
  lemma {:induction false} TraceLength(p: Params, c: Cursor)
    requires Inv(p, c)
    ensures |Trace(p, c)| == (if p.dx > p.dy then RemX(p, c) else RemY(p, c)) + 1
    decreases Remaining(p, c)
  {
    if AtEnd(p, c) {
    } else {
      StepPreserves(p, c);
      TraceLength(p, Step(p, c));
    }
  }

  /** A horizontal run (dy == 0) never leaves the row: the k-th point is k units along x. */
  lemma {:induction false} TraceHorizontal(p: Params, c: Cursor)
    requires Inv(p, c) && p.dy == 0
    ensures forall k | 0 <= k < |Trace(p, c)| :: Trace(p, c)[k] == Point(Toward(c.x, p.sx, k), c.y)
    decreases Remaining(p, c)
  {
    if !AtEnd(p, c) {
      StepPreserves(p, c);
      var c' := Step(p, c);
      assert c'.x == Toward(c.x, p.sx, 1) && c'.y == c.y;
      var t, t' := Trace(p, c), Trace(p, c');
      assert t == [Point(c.x, c.y)] + t';
      TraceHorizontal(p, c');
      forall k | 0 <= k < |t|
        ensures t[k] == Point(Toward(c.x, p.sx, k), c.y)
      {
        if k > 0 {
          assert t[k] == t'[k - 1];
        }
      }
    }
  }

  /** A 45-degree line (dx == dy) moves diagonally on every step. */
  lemma {:induction false} TraceDiagonal(p: Params, c: Cursor)
    requires Inv(p, c) && p.dx == p.dy && c.err == p.err0
    ensures forall k | 0 <= k < |Trace(p, c)| ::
              Trace(p, c)[k] == Point(Toward(c.x, p.sx, k), Toward(c.y, p.sy, k))
    decreases Remaining(p, c)
  {
    if !AtEnd(p, c) {
      StepPreserves(p, c);
      var c' := Step(p, c);
      assert c' == Cursor(Toward(c.x, p.sx, 1), Toward(c.y, p.sy, 1), c.err);
      var t, t' := Trace(p, c), Trace(p, c');
      assert t == [Point(c.x, c.y)] + t';
      TraceDiagonal(p, c');
      forall k | 0 <= k < |t|
        ensures t[k] == Point(Toward(c.x, p.sx, k), Toward(c.y, p.sy, k))
      {
        if k > 0 {
          assert t[k] == t'[k - 1];
        }
      }
    }
  }

  /** The loop state on entry, for a given initial error. */
  lemma StartInv(x1: int, y1: int, x2: int, y2: int, err0: int)
    requires GoodStart(Abs(x2 - x1), Abs(y2 - y1), err0)
    ensures Inv(Setup(x1, y1, x2, y2, err0), Cursor(x1, y1, err0))
  {
    var p := Setup(x1, y1, x2, y2, err0);
    assert p.dy * p.dx == p.dx * p.dy;
  }

  /** The truncating initial error always lands the loop on the endpoint. */
  lemma InitialErrorIsGood(dx: int, dy: int)
    requires 0 <= dx && 0 <= dy
    ensures GoodStart(dx, dy, InitialError(dx, dy))
  {
  }

  /**
   * The shifted initial error lands the loop on the endpoint exactly when
   * the line is not a one-step diagonal (|Δx| == |Δy| == 1).
   */
  lemma InitialErrorAsWrittenIsGood(dx: int, dy: int)
    requires 0 <= dx && 0 <= dy
    ensures GoodStart(dx, dy, InitialErrorAsWritten(dx, dy)) <==> !(dx == 1 && dy == 1)
  {
    var e := InitialErrorAsWritten(dx, dy);
    if dx > dy {
      assert 0 <= e < dx;
    } else if dx == 1 && dy == 1 {
      assert e == -1;
    } else if dx > 0 {
      assert -e < dy;
    }
  }

  /** The inputs on which `line` as written does not terminate, the one-step diagonals: |Δx| == |Δy| == 1. */
  predicate UnitDiagonal(x1: int, y1: int, x2: int, y2: int)
  {
    Abs(x2 - x1) == 1 && Abs(y2 - y1) == 1
  }

  /**
   * The points the loop plots from (x1, y1) to (x2, y2) when `err` starts
   * at `e`. It starts at (x1, y1), ends at (x2, y2), and is a single point
   * exactly when the endpoints coincide.
   */
  function LineFrom(x1: int, y1: int, x2: int, y2: int, e: int): (t: seq<Point>)
    requires GoodStart(Abs(x2 - x1), Abs(y2 - y1), e)
    ensures |t| >= 1 && t[0] == Point(x1, y1) && t[|t| - 1] == Point(x2, y2)
    ensures |t| == 1 <==> (x1 == x2 && y1 == y2)
  {
    StartInv(x1, y1, x2, y2, e);
    Trace(Setup(x1, y1, x2, y2, e), Cursor(x1, y1, e))
  }

  /**
   * The points `line` plots from (x1, y1) to (x2, y2), with the initial
   * error the code computes. The one-step diagonal, on which the loop
   * never ends, has no such sequence.
   */
  function LinePoints(x1: int, y1: int, x2: int, y2: int): (t: seq<Point>)
    requires !UnitDiagonal(x1, y1, x2, y2)
    ensures |t| >= 1 && t[0] == Point(x1, y1) && t[|t| - 1] == Point(x2, y2)
    ensures |t| == 1 <==> (x1 == x2 && y1 == y2)
  {
    InitialErrorAsWrittenIsGood(Abs(x2 - x1), Abs(y2 - y1));
    LineFrom(x1, y1, x2, y2, InitialErrorAsWritten(Abs(x2 - x1), Abs(y2 - y1)))
  }

  /** The points of the corrected `line`, whose initial error is the truncating one. */
  function LinePointsCorrected(x1: int, y1: int, x2: int, y2: int): (t: seq<Point>)
    ensures |t| >= 1 && t[0] == Point(x1, y1) && t[|t| - 1] == Point(x2, y2)
    ensures |t| == 1 <==> (x1 == x2 && y1 == y2)
  {
    InitialErrorIsGood(Abs(x2 - x1), Abs(y2 - y1));
    LineFrom(x1, y1, x2, y2, InitialError(Abs(x2 - x1), Abs(y2 - y1)))
  }

  /** From any good initial error, consecutive points are unit steps toward the endpoint. */
  lemma LineFromSteps(x1: int, y1: int, x2: int, y2: int, e: int)
    requires GoodStart(Abs(x2 - x1), Abs(y2 - y1), e)
    ensures forall i | 0 < i < |LineFrom(x1, y1, x2, y2, e)| ::
              && UnitStep(LineFrom(x1, y1, x2, y2, e)[i - 1], LineFrom(x1, y1, x2, y2, e)[i],
                          if x1 < x2 then 1 else -1, if y1 < y2 then 1 else -1)
              && Adjacent(LineFrom(x1, y1, x2, y2, e)[i - 1], LineFrom(x1, y1, x2, y2, e)[i])
  {
    StartInv(x1, y1, x2, y2, e);
    var p := Setup(x1, y1, x2, y2, e);
    TraceSteps(p, Cursor(x1, y1, e));
    var t := LineFrom(x1, y1, x2, y2, e);
    forall i | 0 < i < |t|
      ensures Adjacent(t[i - 1], t[i])
    {
      assert UnitStep(t[i - 1], t[i], p.sx, p.sy);
    }
  }

  /** From any good initial error, the points stay in the box spanned by the endpoints. */
  lemma LineFromInBox(x1: int, y1: int, x2: int, y2: int, e: int)
    requires GoodStart(Abs(x2 - x1), Abs(y2 - y1), e)
    ensures forall i | 0 <= i < |LineFrom(x1, y1, x2, y2, e)| ::
              && Between(LineFrom(x1, y1, x2, y2, e)[i].x, x1, x2)
              && Between(LineFrom(x1, y1, x2, y2, e)[i].y, y1, y2)
  {
    StartInv(x1, y1, x2, y2, e);
    TraceBetween(Setup(x1, y1, x2, y2, e), Cursor(x1, y1, e));
  }

  /** From any good initial error, the loop plots max(|Δx|, |Δy|) + 1 points. */
  lemma LineFromLength(x1: int, y1: int, x2: int, y2: int, e: int)
    requires GoodStart(Abs(x2 - x1), Abs(y2 - y1), e)
    ensures |LineFrom(x1, y1, x2, y2, e)| == Max(Abs(x2 - x1), Abs(y2 - y1)) + 1
  {
    StartInv(x1, y1, x2, y2, e);
    TraceLength(Setup(x1, y1, x2, y2, e), Cursor(x1, y1, e));
  }

  /** From any good initial error, a 45-degree line plots exactly the diagonal. */
  lemma LineFromDiagonal(x1: int, y1: int, x2: int, y2: int, e: int)
    requires Abs(x2 - x1) == Abs(y2 - y1) && GoodStart(Abs(x2 - x1), Abs(y2 - y1), e)
    ensures |LineFrom(x1, y1, x2, y2, e)| == Abs(x2 - x1) + 1
    ensures forall k | 0 <= k < |LineFrom(x1, y1, x2, y2, e)| ::
              LineFrom(x1, y1, x2, y2, e)[k]
                == Point(if x1 < x2 then x1 + k else x1 - k, if y1 < y2 then y1 + k else y1 - k)
  {
    StartInv(x1, y1, x2, y2, e);
    TraceDiagonal(Setup(x1, y1, x2, y2, e), Cursor(x1, y1, e));
    LineFromLength(x1, y1, x2, y2, e);
  }

  /** Each step of `line` moves x by 0 or sx and y by 0 or sy, and moves at least one of them. */
  lemma LineSteps(x1: int, y1: int, x2: int, y2: int)
    requires !UnitDiagonal(x1, y1, x2, y2)
    ensures forall i | 0 < i < |LinePoints(x1, y1, x2, y2)| ::
              && UnitStep(LinePoints(x1, y1, x2, y2)[i - 1], LinePoints(x1, y1, x2, y2)[i],
                          if x1 < x2 then 1 else -1, if y1 < y2 then 1 else -1)
              && Adjacent(LinePoints(x1, y1, x2, y2)[i - 1], LinePoints(x1, y1, x2, y2)[i])
  {
    InitialErrorAsWrittenIsGood(Abs(x2 - x1), Abs(y2 - y1));
    LineFromSteps(x1, y1, x2, y2, InitialErrorAsWritten(Abs(x2 - x1), Abs(y2 - y1)));
  }

  /** x never leaves the closed interval between x1 and x2, nor y the one between y1 and y2. */
  lemma LineInBox(x1: int, y1: int, x2: int, y2: int)
    requires !UnitDiagonal(x1, y1, x2, y2)
    ensures forall i | 0 <= i < |LinePoints(x1, y1, x2, y2)| ::
              && Between(LinePoints(x1, y1, x2, y2)[i].x, x1, x2)
              && Between(LinePoints(x1, y1, x2, y2)[i].y, y1, y2)
  {
    InitialErrorAsWrittenIsGood(Abs(x2 - x1), Abs(y2 - y1));
    LineFromInBox(x1, y1, x2, y2, InitialErrorAsWritten(Abs(x2 - x1), Abs(y2 - y1)));
  }

  /** `line` plots max(|Δx|, |Δy|) + 1 points. */
  lemma LineLength(x1: int, y1: int, x2: int, y2: int)
    requires !UnitDiagonal(x1, y1, x2, y2)
    ensures |LinePoints(x1, y1, x2, y2)| == Max(Abs(x2 - x1), Abs(y2 - y1)) + 1
  {
    InitialErrorAsWrittenIsGood(Abs(x2 - x1), Abs(y2 - y1));
    LineFromLength(x1, y1, x2, y2, InitialErrorAsWritten(Abs(x2 - x1), Abs(y2 - y1)));
  }

  /** A horizontal line plots every pixel from x1 to x2 on row y1 and nothing else. */
  lemma LineHorizontal(x1: int, y: int, x2: int)
    ensures |LinePoints(x1, y, x2, y)| == Abs(x2 - x1) + 1
    ensures forall k | 0 <= k < |LinePoints(x1, y, x2, y)| ::
              LinePoints(x1, y, x2, y)[k] == Point(if x1 < x2 then x1 + k else x1 - k, y)
  {
    var dx := Abs(x2 - x1);
    var e := InitialErrorAsWritten(dx, 0);
    InitialErrorAsWrittenIsGood(dx, 0);
    StartInv(x1, y, x2, y, e);
    TraceHorizontal(Setup(x1, y, x2, y, e), Cursor(x1, y, e));
    LineLength(x1, y, x2, y);
  }

  /**
   * A 45-degree line plots exactly the diagonal from (x1, y1) to (x2, y2),
   * except the one-step diagonal, on which the loop never ends.
   */
  lemma LineDiagonal(x1: int, y1: int, x2: int, y2: int)
    requires Abs(x2 - x1) == Abs(y2 - y1) != 1
    ensures |LinePoints(x1, y1, x2, y2)| == Abs(x2 - x1) + 1
    ensures forall k | 0 <= k < |LinePoints(x1, y1, x2, y2)| ::
              LinePoints(x1, y1, x2, y2)[k]
                == Point(if x1 < x2 then x1 + k else x1 - k, if y1 < y2 then y1 + k else y1 - k)
  {
    var d := Abs(x2 - x1);
    InitialErrorAsWrittenIsGood(d, d);
    LineFromDiagonal(x1, y1, x2, y2, InitialErrorAsWritten(d, d));
  }

  /**
   * The corrected `line` ends on every input, the one-step diagonal
   * included, with unit steps inside the endpoints' box and
   * max(|Δx|, |Δy|) + 1 points; a 45-degree line is exactly the diagonal.
   */
  lemma CorrectedLine(x1: int, y1: int, x2: int, y2: int)
    ensures |LinePointsCorrected(x1, y1, x2, y2)| == Max(Abs(x2 - x1), Abs(y2 - y1)) + 1
    ensures forall i | 0 < i < |LinePointsCorrected(x1, y1, x2, y2)| ::
              Adjacent(LinePointsCorrected(x1, y1, x2, y2)[i - 1], LinePointsCorrected(x1, y1, x2, y2)[i])
    ensures forall i | 0 <= i < |LinePointsCorrected(x1, y1, x2, y2)| ::
              && Between(LinePointsCorrected(x1, y1, x2, y2)[i].x, x1, x2)
              && Between(LinePointsCorrected(x1, y1, x2, y2)[i].y, y1, y2)
    ensures Abs(x2 - x1) == Abs(y2 - y1) ==>
              forall k | 0 <= k < |LinePointsCorrected(x1, y1, x2, y2)| ::
                LinePointsCorrected(x1, y1, x2, y2)[k]
                  == Point(if x1 < x2 then x1 + k else x1 - k, if y1 < y2 then y1 + k else y1 - k)
  {
    var e := InitialError(Abs(x2 - x1), Abs(y2 - y1));
    InitialErrorIsGood(Abs(x2 - x1), Abs(y2 - y1));
    LineFromSteps(x1, y1, x2, y2, e);
    LineFromInBox(x1, y1, x2, y2, e);
    LineFromLength(x1, y1, x2, y2, e);
    if Abs(x2 - x1) == Abs(y2 - y1) {
      LineFromDiagonal(x1, y1, x2, y2, e);
    }
  }

  /**
   * Where the shift and the truncating halving agree (x-major lines, and
   * lines with even |Δy|), `line` as written plots the corrected points.
   */
  lemma CorrectedAgrees(x1: int, y1: int, x2: int, y2: int)
    requires Abs(x2 - x1) > Abs(y2 - y1) || Abs(y2 - y1) % 2 == 0
    ensures !UnitDiagonal(x1, y1, x2, y2)
    ensures LinePoints(x1, y1, x2, y2) == LinePointsCorrected(x1, y1, x2, y2)
  {
    InitialErrorsDiffer(Abs(x2 - x1), Abs(y2 - y1));
  }

  /**
   * Elsewhere they can plot different pixels: for (0,0)-(1,3) the shift
   * starts `err` at -2 and steps along y twice before the diagonal step.
   */
  lemma AsWrittenSteepOdd()
    ensures LinePoints(0, 0, 1, 3) == [Point(0, 0), Point(0, 1), Point(0, 2), Point(1, 3)]
  {
    assert LinePoints(0, 0, 1, 3) == Trace(Params(1, 3, 1, 3, 1, 1, -2), Cursor(0, 0, -2));
  }

  /** The truncating halving starts (0,0)-(1,3) at -1 and steps diagonally second. */
  lemma CorrectedSteepOdd()
    ensures LinePointsCorrected(0, 0, 1, 3) == [Point(0, 0), Point(0, 1), Point(1, 2), Point(1, 3)]
  {
    assert LinePointsCorrected(0, 0, 1, 3) == Trace(Params(1, 3, 1, 3, 1, 1, -1), Cursor(0, 0, -1));
  }

  /** The loop state after `n` iterations, ignoring the exit test. */
  function Iterate(p: Params, c: Cursor, n: nat): Cursor
  {
    if n == 0 then c else Step(p, Iterate(p, c, n - 1))
  }

  /**
   * With the shift as written, a one-step diagonal (|Δx| == |Δy| == 1)
   * first steps along y only and then diagonally forever: after n >= 1
   * iterations the cursor is n - 1 units along x and n along y.
   */
  lemma {:induction false} AsWrittenUnitDiagonalOrbit(x1: int, y1: int, x2: int, y2: int, n: nat)
    requires Abs(x2 - x1) == 1 && Abs(y2 - y1) == 1
    ensures var p := Setup(x1, y1, x2, y2, InitialErrorAsWritten(1, 1));
            Iterate(p, Cursor(x1, y1, p.err0), n)
              == if n == 0 then Cursor(x1, y1, -1)
                 else Cursor(Toward(x1, p.sx, n - 1), Toward(y1, p.sy, n), 0)
  {
    if n > 0 {
      AsWrittenUnitDiagonalOrbit(x1, y1, x2, y2, n - 1);
    }
  }

  /**
   * Hence `line` as written never reaches the endpoint of a one-step
   * diagonal such as (0,0)-(1,1): the exit test fails after every number
   * of iterations, and the loop does not terminate.
   */
  lemma AsWrittenUnitDiagonalNeverEnds(x1: int, y1: int, x2: int, y2: int, n: nat)
    requires Abs(x2 - x1) == 1 && Abs(y2 - y1) == 1
    ensures var p := Setup(x1, y1, x2, y2, InitialErrorAsWritten(1, 1));
            !AtEnd(p, Iterate(p, Cursor(x1, y1, p.err0), n))
  {
    AsWrittenUnitDiagonalOrbit(x1, y1, x2, y2, n);
  }

  /** The shift and the truncating division disagree exactly on y-major lines with odd |Δy|. */
  lemma InitialErrorsDiffer(dx: int, dy: int)
    requires 0 <= dx && 0 <= dy
    ensures InitialErrorAsWritten(dx, dy) != InitialError(dx, dy) <==> (dx <= dy && dy % 2 == 1)
  {
  }
}
