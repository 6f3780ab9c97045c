/**
 * Integer plane shared by both rasterizers: pixel positions, absolute
 * value, and the 32-bit `int` range the C/C++ code computes in.
 */
module Plane {

  /** An integer pixel position. */
  datatype Point = Point(x: int, y: int)

  function Abs(v: int): nat
  {
    if v < 0 then -v else v
  }

  function Max(a: int, b: int): int
  {
    if a < b then b else a
  }

  /** `v` lies in the closed interval spanned by `a` and `b`, in either order. */
  predicate Between(v: int, a: int, b: int)
  {
    (a <= v <= b) || (b <= v <= a)
  }

  const INT32_MIN: int := -0x8000_0000
  const INT32_MAX: int := 0x7fff_ffff

  predicate IsInt32(v: int)
  {
    INT32_MIN <= v <= INT32_MAX
  }

  /**
   * The no-overflow assumption for a line from (x1,y1) to (x2,y2): the
   * endpoints, |Δx| + |Δy| (which bounds the differences and every error
   * value) fit in a 32-bit signed `int`. Nothing in the model depends on
   * it; it records what a caller must keep.
   */
  predicate LineFits(x1: int, y1: int, x2: int, y2: int)
  {
    && IsInt32(x1) && IsInt32(y1) && IsInt32(x2) && IsInt32(y2)
    && Abs(x2 - x1) + Abs(y2 - y1) <= INT32_MAX
  }

  /**
   * The same for the three-pixel-wide line: the one-pixel neighbours of the
   * points it visits (the stamp reaches x-1 .. x+1) and twice the error
   * bound (the loop doubles `err`) fit as well.
   */
  predicate ThickLineFits(x1: int, y1: int, x2: int, y2: int)
  {
    && IsInt32(x1 - 1) && IsInt32(x1 + 1) && IsInt32(y1 - 1) && IsInt32(y1 + 1)
    && IsInt32(x2 - 1) && IsInt32(x2 + 1) && IsInt32(y2 - 1) && IsInt32(y2 + 1)
    && 2 * (Abs(x2 - x1) + Abs(y2 - y1)) <= INT32_MAX
  }

  /** One unit step in x and/or y, in the given directions, and not a standstill. */
  predicate UnitStep(p: Point, q: Point, sx: int, sy: int)
  {
    && (q.x == p.x || q.x == p.x + sx)
    && (q.y == p.y || q.y == p.y + sy)
    && q != p
  }

  /** The 8-neighbourhood relation: distinct points at Chebyshev distance 1. */
  predicate Adjacent(p: Point, q: Point)
  {
    Abs(q.x - p.x) <= 1 && Abs(q.y - p.y) <= 1 && q != p
  }

  /**
   * Row-major layout, shared by both frame buffers: pixel (x, y) of a
   * `w`-wide grid is cell `x + y * w`.
   */
  lemma RowMajorInRange(w: int, h: int, x: int, y: int)
    requires 0 <= x < w && 0 <= y < h
    ensures 0 <= x + y * w < w * h
  {
    assert y * w <= (h - 1) * w;
    assert (h - 1) * w + w == h * w;
  }

  /** Distinct pixels of a row-major grid occupy distinct cells. */
  lemma RowMajorInjective(w: int, x: int, y: int, x': int, y': int)
    requires 0 <= x < w && 0 <= x' < w
    requires x + y * w == x' + y' * w
    ensures x == x' && y == y'
  {
    if y' < y {
      assert (y - y') * w == x' - x;
      MulAtLeast(y - y', w);
      assert false;
    }
    if y < y' {
      assert (y' - y) * w == x - x';
      MulAtLeast(y' - y, w);
      assert false;
    }
  }

  /** Every cell of a row-major grid is the cell of pixel (i % w, i / w). */
  lemma RowMajorCell(w: int, h: int, i: int)
    requires 0 <= w && 0 <= h && 0 <= i < w * h
    ensures 0 <= i % w < w && 0 <= i / w < h
    ensures i % w + (i / w) * w == i
  {
    if w == 0 {
      assert false;
    }
    var q, r := i / w, i % w;
    assert i == q * w + r;
    if q >= h {
      assert false;
    }
  }

  /** `k * w >= w` for a positive factor `k`. */
  lemma MulAtLeast(k: int, w: int)
    requires k >= 1 && w >= 0
    ensures k * w >= w
  {
    assert k * w == w + (k - 1) * w;
  }
}
