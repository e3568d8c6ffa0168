/** Shared value types of the region picker: integer device-pixel rectangles,
    real-valued logical rectangles, the Win32 RECT record, and the two pieces
    of numeric behaviour the source relies on (.NET banker's rounding and
    C#'s truncating integer division). */
module Geometry {

  /** A value that may be absent: C#'s `null` for reference and nullable types. */
  datatype Option<+T> = None | Some(value: T)

  /** A DPI scale factor; every scale the model divides by is positive. */
  type PosReal = r: real | r > 0.0 witness 1.0

  /** Integer device-pixel point and rectangle (Avalonia PixelPoint / PixelRect). */
  datatype PixelPoint = PixelPoint(x: int, y: int)
  datatype PixelRect = PixelRect(x: int, y: int, width: int, height: int)

  /** Real-valued logical point, vector, size and rectangle (Avalonia Point / Vector / Size / Rect). */
  datatype Point = Point(x: real, y: real)
  datatype Vector = Vector(dx: real, dy: real)
  datatype Size = Size(width: real, height: real)
  datatype Rect = Rect(x: real, y: real, width: real, height: real)
  {
    function Position(): Point { Point(x, y) }
    function Extent(): Size { Size(width, height) }
    function TopLeft(): Point { Point(x, y) }
    function TopRight(): Point { Point(x + width, y) }
    function BottomRight(): Point { Point(x + width, y + height) }
    function BottomLeft(): Point { Point(x, y + height) }
  }

  /** `default(PixelRect)` and `default(Rect)`. */
  const ZeroPixelRect := PixelRect(0, 0, 0, 0)
  const ZeroRect := Rect(0.0, 0.0, 0.0, 0.0)
  const Origin := PixelPoint(0, 0)

  /** `new Rect(Point topLeft, Point bottomRight)`: the size is the difference of the corners. */
  function RectFromCorners(topLeft: Point, bottomRight: Point): (r: Rect)
    ensures r.TopLeft() == topLeft && r.BottomRight() == bottomRight
  {
    Rect(topLeft.x, topLeft.y, bottomRight.x - topLeft.x, bottomRight.y - topLeft.y)
  }

  /** `new Rect(Point position, Size size)`. */
  function RectAt(position: Point, size: Size): (r: Rect)
    ensures r.Position() == position && r.Extent() == size
  {
    Rect(position.x, position.y, size.width, size.height)
  }

  /** `Point + Vector`. */
  function Translate(p: Point, d: Vector): (q: Point)
    ensures q.x - p.x == d.dx && q.y - p.y == d.dy
  {
    Point(p.x + d.dx, p.y + d.dy)
  }

  /** Closed containment of a point in a rectangle of non-negative size; used
      only to state where the two drag points lie. */
  predicate InClosedRect(p: Point, r: Rect)
  {
    r.x <= p.x <= r.x + r.width && r.y <= p.y <= r.y + r.height
  }

  /** The Win32 RECT structure, as the four edges the OS reports. */
  datatype Win32Rect = Win32Rect(left: int, top: int, right: int, bottom: int)
  {
    /** `RECT.Width` / `RECT.Height` (Right - Left, Bottom - Top). */
    function Width(): int { right - left }
    function Height(): int { bottom - top }
  }

  /** RECT -> PixelRect, `new PixelRect(Left, Top, Right - Left, Bottom - Top)`. */
  function ToPixelRect(r: Win32Rect): (p: PixelRect)
    ensures p.x == r.left && p.y == r.top
    ensures p.x + p.width == r.right && p.y + p.height == r.bottom
  {
    PixelRect(r.left, r.top, r.Width(), r.Height())
  }

  /** The conversion forgets nothing: the edges are recovered from the pixel rectangle. */
  lemma ToPixelRectInjective(a: Win32Rect, b: Win32Rect)
    ensures ToPixelRect(a) == ToPixelRect(b) <==> a == b
  {
    if ToPixelRect(a) == ToPixelRect(b) {
      assert a.right == ToPixelRect(a).x + ToPixelRect(a).width;
      assert b.right == ToPixelRect(b).x + ToPixelRect(b).width;
    }
  }

  /** .NET `Math.Round(double)`: nearest integer, ties to the even neighbour. */
  function RoundHalfEven(x: real): (n: int)
    ensures -0.5 <= n as real - x <= 0.5
    ensures (n as real - x == 0.5 || x - n as real == 0.5) ==> n % 2 == 0
  {
    var f := x.Floor;
    var frac := x - f as real;
    if frac < 0.5 then f
    else if frac > 0.5 then f + 1
    else if f % 2 == 0 then f
    else f + 1
  }

  /** The rounding is the unique nearest integer whenever there is no tie. */
  lemma RoundHalfEvenNearest(x: real, m: int)
    requires -0.5 < m as real - x < 0.5
    ensures RoundHalfEven(x) == m
  {
    var n := RoundHalfEven(x);
    assert -1.0 < n as real - m as real < 1.0;
  }

  /** Rounding an integral value is exact. */
  lemma RoundHalfEvenOfInt(k: int)
    ensures RoundHalfEven(k as real) == k
  {
    RoundHalfEvenNearest(k as real, k);
  }

  /** C#'s `int / 2`, which truncates toward zero (Dafny's `/` is Euclidean). */
  function HalfTowardZero(n: int): (h: int)
    ensures n >= 0 ==> 0 <= 2 * h <= n < 2 * h + 2
    ensures n < 0 ==> 2 * h - 2 < n <= 2 * h <= 0
  {
    if n >= 0 then n / 2 else -((-n) / 2)
  }

  /** Truncating and floor halving disagree exactly on negative odd sizes, where
      truncation is one larger (-3 gives -1, not -2). */
  lemma HalfTowardZeroDiffersFromFloor(n: int)
    ensures n < 0 && n % 2 == 1 ==> HalfTowardZero(n) == n / 2 + 1
    ensures n >= 0 || n % 2 == 0 ==> HalfTowardZero(n) == n / 2
  {
  }
}
