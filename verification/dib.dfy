/**
 * The 32-bit DIB section win-main.cpp draws into: `g_windowWidth` by
 * `g_windowHeight` pixels, row-major from `g_pixels`, four bytes per pixel
 * in blue, green, red, unused order. `DrawPixel` and `ClearScreen` write
 * it byte by byte; the model states what they do to each pixel.
 */
module Dib {
  import opened Plane
  import opened Win32Color

  /** The pixel memory and the window size it was created for. */
  datatype Surface = Surface(width: int, height: int, pixels: seq<byte>)

  /** The memory holds exactly four bytes per pixel. */
  predicate Valid(s: Surface)
  {
    0 <= s.width && 0 <= s.height && |s.pixels| == 4 * (s.width * s.height)
  }

  predicate OnSurface(s: Surface, x: int, y: int)
  {
    0 <= x < s.width && 0 <= y < s.height
  }

  /** The first byte of pixel (x, y): `(y * g_windowWidth + x) * 4`. */
  function Offset(s: Surface, x: int, y: int): int
  {
    (y * s.width + x) * 4
  }

  lemma OffsetInRange(s: Surface, x: int, y: int)
    requires Valid(s) && OnSurface(s, x, y)
    ensures 0 <= Offset(s, x, y) && Offset(s, x, y) + 4 <= |s.pixels|
  {
    RowMajorInRange(s.width, s.height, x, y);
  }

  /** The four bytes of two distinct pixels do not overlap. */
  lemma OffsetsApart(s: Surface, x: int, y: int, x': int, y': int)
    requires OnSurface(s, x, y) && OnSurface(s, x', y') && (x != x' || y != y')
    ensures Offset(s, x, y) + 4 <= Offset(s, x', y') || Offset(s, x', y') + 4 <= Offset(s, x, y)
  {
    if y * s.width + x == y' * s.width + x' {
      RowMajorInjective(s.width, x, y, x', y');
      assert false;
    }
  }

  /** Byte `k` is byte `k % 4` of pixel ((k / 4) % width, (k / 4) / width). */
  lemma EveryByteInAPixel(s: Surface, k: int)
    requires Valid(s) && 0 <= k < |s.pixels|
    ensures OnSurface(s, (k / 4) % s.width, (k / 4) / s.width)
    ensures Offset(s, (k / 4) % s.width, (k / 4) / s.width) + k % 4 == k
  {
    RowMajorCell(s.width, s.height, k / 4);
  }

  /** The four bytes of pixel (x, y). */
  function PixelAt(s: Surface, x: int, y: int): seq<byte>
    requires Valid(s) && OnSurface(s, x, y)
  {
    OffsetInRange(s, x, y);
    s.pixels[Offset(s, x, y)..Offset(s, x, y) + 4]
  }

  /**
   * Two surfaces of the same size whose pixels all agree are the same
   * surface: the pixel view loses no byte.
   */
  lemma PixelwiseEqual(s: Surface, t: Surface)
    requires Valid(s) && Valid(t) && s.width == t.width && s.height == t.height
    requires forall x, y | OnSurface(s, x, y) :: PixelAt(s, x, y) == PixelAt(t, x, y)
    ensures s == t
  {
    forall k | 0 <= k < |s.pixels|
      ensures s.pixels[k] == t.pixels[k]
    {
      EveryByteInAPixel(s, k);
      var x, y := (k / 4) % s.width, (k / 4) / s.width;
      assert PixelAt(s, x, y)[k % 4] == PixelAt(t, x, y)[k % 4];
    }
  }

  /** Writing the four bytes of (x, y) changes that pixel, to `Bgra(color)`, and no other. */
  lemma StoreBgra(s: Surface, x: int, y: int, color: ColorRef)
    requires Valid(s) && OnSurface(s, x, y)
    ensures 0 <= Offset(s, x, y) && Offset(s, x, y) + 4 <= |s.pixels|
    ensures var o := Offset(s, x, y);
            var r := s.(pixels := s.pixels[o := GetBValue(color)][o + 1 := GetGValue(color)]
                                            [o + 2 := GetRValue(color)][o + 3 := 0]);
            && (forall k | 0 <= k < |s.pixels| ::
                  r.pixels[k] == if o <= k < o + 4 then Bgra(color)[k - o] else s.pixels[k])
            && (forall px, py | OnSurface(s, px, py) ::
                  PixelAt(r, px, py) == if px == x && py == y then Bgra(color) else PixelAt(s, px, py))
  {
    OffsetInRange(s, x, y);
    var o := Offset(s, x, y);
    var r := s.(pixels := s.pixels[o := GetBValue(color)][o + 1 := GetGValue(color)]
                                    [o + 2 := GetRValue(color)][o + 3 := 0]);
    forall px, py | OnSurface(s, px, py)
      ensures PixelAt(r, px, py) == if px == x && py == y then Bgra(color) else PixelAt(s, px, py)
    {
      OffsetInRange(s, px, py);
      if px != x || py != y {
        OffsetsApart(s, x, y, px, py);
        var o' := Offset(s, px, py);
        assert forall j | 0 <= j < 4 :: PixelAt(r, px, py)[j] == r.pixels[o' + j] == s.pixels[o' + j];
      }
    }
  }

  /**
   * `DrawPixel`: a position off the window is ignored; otherwise the four
   * bytes from `Offset(s, x, y)` on become `color`'s blue, green and red
   * bytes and a zero, and the bytes before and after them are kept.
   */
  function DrawPixel(s: Surface, x: int, y: int, color: ColorRef): (r: Surface)
    requires Valid(s)
    ensures Valid(r) && r.width == s.width && r.height == s.height
    ensures !OnSurface(s, x, y) ==> r == s
    ensures OnSurface(s, x, y) ==>
              var o := Offset(s, x, y);
              && 0 <= o && o + 4 <= |s.pixels|
              && r.pixels == s.pixels[..o] + Bgra(color) + s.pixels[o + 4..]
  {
    if x < 0 || x >= s.width || y < 0 || y >= s.height then
      s
    else
      StoreBgra(s, x, y, color);
      var offset := y * s.width + x;
      var r := s.(pixels := s.pixels[offset * 4 := GetBValue(color)][offset * 4 + 1 := GetGValue(color)]
                                    [offset * 4 + 2 := GetRValue(color)][offset * 4 + 3 := 0]);
      var o := Offset(s, x, y);
      assert r.pixels == s.pixels[..o] + Bgra(color) + s.pixels[o + 4..];
      r
  }

  /** In pixel terms, `DrawPixel` gives (x, y) `color` and leaves every other pixel as it was. */
  lemma DrawnPixel(s: Surface, x: int, y: int, color: ColorRef)
    requires Valid(s)
    ensures forall px, py | OnSurface(s, px, py) ::
              PixelAt(DrawPixel(s, x, y, color), px, py)
                == if px == x && py == y then Bgra(color) else PixelAt(s, px, py)
  {
    if OnSurface(s, x, y) {
      StoreBgra(s, x, y, color);
    }
  }

  /**
   * `DrawPixel` applied to the points of `pts` in order. A pixel ends up
   * with `color` exactly when it is on the window and in `pts`; every other
   * pixel keeps its bytes.
   */
  function DrawPixels(s: Surface, pts: seq<Point>, color: ColorRef): (r: Surface)
    requires Valid(s)
    ensures Valid(r) && r.width == s.width && r.height == s.height
    decreases |pts|
  {
    if pts == [] then
      s
    else
      var last := pts[|pts| - 1];
      DrawPixel(DrawPixels(s, pts[..|pts| - 1], color), last.x, last.y, color)
  }

  /**
   * A pixel ends up with `color` exactly when it is on the window and in
   * `pts`; every other pixel keeps its bytes.
   */
  lemma {:induction false} DrawnPixels(s: Surface, pts: seq<Point>, color: ColorRef)
    requires Valid(s)
    ensures forall px, py | OnSurface(s, px, py) ::
              PixelAt(DrawPixels(s, pts, color), px, py)
                == if Point(px, py) in pts then Bgra(color) else PixelAt(s, px, py)
    decreases |pts|
  {
    if pts != [] {
      var init, last := pts[..|pts| - 1], pts[|pts| - 1];
      DrawnPixels(s, init, color);
      DrawnPixel(DrawPixels(s, init, color), last.x, last.y, color);
      assert pts == init + [last];
    }
  }

  /** Drawing one more point is one more `DrawPixel` on top. */
  lemma DrawPixelsSnoc(s: Surface, pts: seq<Point>, pt: Point, color: ColorRef)
    requires Valid(s)
    ensures DrawPixels(s, pts + [pt], color) == DrawPixel(DrawPixels(s, pts, color), pt.x, pt.y, color)
  {
    assert (pts + [pt])[..|pts|] == pts;
  }

  /** Drawing `a` and then `b` is drawing `a + b`. */
  lemma {:induction false} DrawPixelsAppend(s: Surface, a: seq<Point>, b: seq<Point>, color: ColorRef)
    requires Valid(s)
    ensures DrawPixels(DrawPixels(s, a, color), b, color) == DrawPixels(s, a + b, color)
    decreases |b|
  {
    if b == [] {
      assert a + b == a;
    } else {
      var b', last := b[..|b| - 1], b[|b| - 1];
      assert b == b' + [last];
      assert a + b == (a + b') + [last];
      DrawPixelsAppend(s, a, b', color);
      DrawPixelsSnoc(DrawPixels(s, a, color), b', last, color);
      DrawPixelsSnoc(s, a + b', last, color);
    }
  }

  /** Every pixel of the window, in memory order. */
  function AllPoints(s: Surface): seq<Point>
    requires Valid(s)
  {
    if s.width == 0 then [] else seq(s.width * s.height, i => Point(i % s.width, i / s.width))
  }

  /** Every pixel of the window is in `AllPoints`. */
  lemma InAllPoints(s: Surface, x: int, y: int)
    requires Valid(s) && OnSurface(s, x, y)
    ensures Point(x, y) in AllPoints(s)
  {
    var w := s.width;
    var i := x + y * w;
    RowMajorInRange(w, s.height, x, y);
    RowMajorCell(w, s.height, i);
    RowMajorInjective(w, i % w, i / w, x, y);
    assert AllPoints(s)[i] == Point(x, y);
  }

  /** Filling every byte from the repeating pattern `Bgra(color)` fills every pixel with it. */
  lemma PatternPixels(s: Surface, color: ColorRef)
    requires Valid(s)
    requires forall k | 0 <= k < |s.pixels| :: s.pixels[k] == Bgra(color)[k % 4]
    ensures forall px, py | OnSurface(s, px, py) :: PixelAt(s, px, py) == Bgra(color)
  {
    forall px, py | OnSurface(s, px, py)
      ensures PixelAt(s, px, py) == Bgra(color)
    {
      OffsetInRange(s, px, py);
      var o := Offset(s, px, py);
      assert o % 4 == 0;
      assert (o + 1) % 4 == 1 && (o + 2) % 4 == 2 && (o + 3) % 4 == 3;
    }
  }

  /** A surface whose every pixel is `color` is the window drawn all over with `DrawPixel`. */
  lemma FilledIsDrawnAll(s: Surface, r: Surface, color: ColorRef)
    requires Valid(s) && Valid(r) && r.width == s.width && r.height == s.height
    requires forall px, py | OnSurface(s, px, py) :: PixelAt(r, px, py) == Bgra(color)
    ensures r == DrawPixels(s, AllPoints(s), color)
  {
    var drawn := DrawPixels(s, AllPoints(s), color);
    DrawnPixels(s, AllPoints(s), color);
    forall px, py | OnSurface(s, px, py)
      ensures PixelAt(drawn, px, py) == PixelAt(r, px, py)
    {
      InAllPoints(s, px, py);
    }
    PixelwiseEqual(r, drawn);
  }

  /** `n` copies of the pixel bytes of `color`, back to back. */
  function Repeat(color: ColorRef, n: nat): (q: seq<byte>)
    ensures |q| == 4 * n
  {
    if n == 0 then [] else Repeat(color, n - 1) + Bgra(color)
  }

  /** Byte `k` of the repeated pattern is byte `k % 4` of one pixel. */
  lemma {:induction false} RepeatAt(color: ColorRef, n: nat, k: int)
    requires 0 <= k < 4 * n
    ensures Repeat(color, n)[k] == Bgra(color)[k % 4]
  {
    if k < 4 * (n - 1) {
      RepeatAt(color, n - 1, k);
    } else {
      var j := k - 4 * (n - 1);
      assert k % 4 == j;
    }
  }

  /** Memory holding `Repeat(color, width * height)` shows `color` in every byte slot and every pixel. */
  lemma Cleared(s: Surface, color: ColorRef)
    requires Valid(s) && s.pixels == Repeat(color, s.width * s.height)
    ensures forall k | 0 <= k < |s.pixels| :: s.pixels[k] == Bgra(color)[k % 4]
    ensures forall px, py | OnSurface(s, px, py) :: PixelAt(s, px, py) == Bgra(color)
  {
    forall k | 0 <= k < |s.pixels|
      ensures s.pixels[k] == Bgra(color)[k % 4]
    {
      RepeatAt(color, s.width * s.height, k);
    }
    PatternPixels(s, color);
  }

  /**
   * `ClearScreen`: a single pass over the whole memory, four bytes per
   * pixel. Every byte becomes the matching byte of `Bgra(color)`, so every
   * pixel gets `color` whatever it held, and the result is what drawing
   * each pixel of the window with `DrawPixel` would give.
   */
  method ClearScreen(s: Surface, color: ColorRef) returns (r: Surface)
    requires Valid(s)
    ensures Valid(r) && r.width == s.width && r.height == s.height
    ensures forall k | 0 <= k < |r.pixels| :: r.pixels[k] == Bgra(color)[k % 4]
    ensures forall px, py | OnSurface(s, px, py) :: PixelAt(r, px, py) == Bgra(color)
    ensures r == DrawPixels(s, AllPoints(s), color)
  {
    var red, green, blue := GetRValue(color), GetGValue(color), GetBValue(color);
    var pixel := s.pixels;
    var totalPixels := s.width * s.height;
    var p := 0;
    for i := 0 to totalPixels
      invariant p == 4 * i && |pixel| == |s.pixels|
      invariant pixel[..p] == Repeat(color, i)
    {
      ghost var before := pixel;
      pixel := pixel[p := blue][p + 1 := green][p + 2 := red][p + 3 := 0];
      assert pixel[..p] == before[..p];
      assert pixel[..p + 4] == pixel[..p] + Bgra(color);
      p := p + 4;
    }
    assert pixel == pixel[..p];
    r := s.(pixels := pixel);
    Cleared(r, color);
    FilledIsDrawnAll(s, r, color);
  }
}
