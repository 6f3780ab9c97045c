/**
 * The `device_t` frame buffer of micro3d.h: `width * height` packed
 * `unsigned int` colours, pixel (x, y) stored at index `x + y * width`,
 * and the bounds-checked `pixel` write every primitive goes through.
 */
module Micro3d {
  import opened Plane

  /** C `unsigned int`: a packed colour. */
  type u32 = v: int | 0 <= v < 0x1_0000_0000

  datatype Device = Device(width: int, height: int, buffer: seq<u32>)

  /** The buffer holds exactly one colour per pixel. */
  predicate Valid(d: Device)
  {
    0 <= d.width && 0 <= d.height && |d.buffer| == d.width * d.height
  }

  predicate InBounds(d: Device, x: int, y: int)
  {
    0 <= x < d.width && 0 <= y < d.height
  }

  function Index(d: Device, x: int, y: int): int
  {
    x + y * d.width
  }

  lemma IndexInRange(d: Device, x: int, y: int)
    requires Valid(d) && InBounds(d, x, y)
    ensures 0 <= Index(d, x, y) < |d.buffer|
  {
    RowMajorInRange(d.width, d.height, x, y);
  }

  /** Distinct pixels occupy distinct buffer cells. */
  lemma IndexInjective(d: Device, x: int, y: int, x': int, y': int)
    requires InBounds(d, x, y) && InBounds(d, x', y')
    requires Index(d, x, y) == Index(d, x', y')
    ensures x == x' && y == y'
  {
    RowMajorInjective(d.width, x, y, x', y');
  }

  /** The cell of (x, y) belongs to no other in-range pixel. */
  lemma CellOfOnePixel(d: Device, x: int, y: int)
    requires InBounds(d, x, y)
    ensures forall px, py | InBounds(d, px, py) && (px != x || py != y) ::
              Index(d, px, py) != Index(d, x, y)
  {
    forall px, py | InBounds(d, px, py) && Index(d, px, py) == Index(d, x, y)
      ensures px == x && py == y
    {
      IndexInjective(d, px, py, x, y);
    }
  }

  /** Every buffer cell is the cell of exactly the pixel (i % width, i / width). */
  lemma EveryCellIsAPixel(d: Device, i: int)
    requires Valid(d) && 0 <= i < |d.buffer|
    ensures InBounds(d, i % d.width, i / d.width)
    ensures Index(d, i % d.width, i / d.width) == i
  {
    RowMajorCell(d.width, d.height, i);
  }

  /** The colour of an in-range pixel. */
  function At(d: Device, x: int, y: int): u32
    requires Valid(d) && InBounds(d, x, y)
  {
    IndexInRange(d, x, y);
    d.buffer[Index(d, x, y)]
  }

  /**
   * Two buffers with the same shape that agree on every in-range pixel
   * are the same buffer: the pixel view below loses nothing.
   */
  lemma {:induction false} PixelwiseEqual(d: Device, e: Device)
    requires Valid(d) && Valid(e) && d.width == e.width && d.height == e.height
    requires forall x, y | InBounds(d, x, y) :: At(d, x, y) == At(e, x, y)
    ensures d == e
  {
    forall i | 0 <= i < |d.buffer|
      ensures d.buffer[i] == e.buffer[i]
    {
      EveryCellIsAPixel(d, i);
      var x, y := i % d.width, i / d.width;
      assert At(d, x, y) == At(e, x, y);
    }
  }

  /** Storing into the cell of (x, y) changes the colour of that pixel only. */
  lemma StoreCell(d: Device, x: int, y: int, clr: u32)
    requires Valid(d) && InBounds(d, x, y)
    ensures 0 <= Index(d, x, y) < |d.buffer|
    ensures var r := d.(buffer := d.buffer[Index(d, x, y) := clr]);
            forall px, py | InBounds(d, px, py) ::
              At(r, px, py) == if px == x && py == y then clr else At(d, px, py)
  {
    IndexInRange(d, x, y);
    CellOfOnePixel(d, x, y);
    var r := d.(buffer := d.buffer[Index(d, x, y) := clr]);
    forall px, py | InBounds(d, px, py)
      ensures At(r, px, py) == if px == x && py == y then clr else At(d, px, py)
    {
      IndexInRange(d, px, py);
    }
  }

  /**
   * `pixel`: writes `clr` at (x, y) when the position is on the device and
   * does nothing otherwise.
   */
  function Pixel(d: Device, x: int, y: int, clr: u32): (r: Device)
    requires Valid(d)
    ensures Valid(r) && r.width == d.width && r.height == d.height
    ensures !InBounds(d, x, y) ==> r == d
    ensures InBounds(d, x, y) ==>
              forall i | 0 <= i < |d.buffer| :: r.buffer[i] == if i == Index(d, x, y) then clr else d.buffer[i]
    ensures forall px, py | InBounds(d, px, py) ::
              At(r, px, py) == if px == x && py == y then clr else At(d, px, py)
  {
    if 0 <= x < d.width && 0 <= y < d.height then
      StoreCell(d, x, y, clr);
      d.(buffer := d.buffer[Index(d, x, y) := clr])
    else
      d
  }

  /**
   * Plotting a sequence of points, in order, through `Pixel`. A pixel ends
   * up with `clr` exactly when it is on the device and in `pts`; points off
   * the device are dropped and every other pixel keeps its colour.
   */
  function Paint(d: Device, pts: seq<Point>, clr: u32): (r: Device)
    requires Valid(d)
    ensures Valid(r) && r.width == d.width && r.height == d.height
    ensures forall px, py | InBounds(d, px, py) ::
              At(r, px, py) == if Point(px, py) in pts then clr else At(d, px, py)
    decreases |pts|
  {
    if pts == [] then
      d
    else
      var last := pts[|pts| - 1];
      var r := Pixel(Paint(d, pts[..|pts| - 1], clr), last.x, last.y, clr);
      assert pts == pts[..|pts| - 1] + [last];
      r
  }

  /** Plotting one more point is one more `Pixel` on top. */
  lemma PaintSnoc(d: Device, pts: seq<Point>, pt: Point, clr: u32)
    requires Valid(d)
    ensures Paint(d, pts + [pt], clr) == Pixel(Paint(d, pts, clr), pt.x, pt.y, clr)
  {
    assert (pts + [pt])[..|pts|] == pts;
  }

  /** A buffer is changed only where an on-device point of `pts` lies. */
  lemma PaintFrame(d: Device, pts: seq<Point>, clr: u32, i: int)
    requires Valid(d) && 0 <= i < |d.buffer|
    requires forall p | p in pts && InBounds(d, p.x, p.y) :: Index(d, p.x, p.y) != i
    ensures Paint(d, pts, clr).buffer[i] == d.buffer[i]
  {
    EveryCellIsAPixel(d, i);
    var x, y := i % d.width, i / d.width;
    assert Index(d, x, y) == i;
    assert Point(x, y) !in pts;
  }
}
