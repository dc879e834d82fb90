/** Qt's integer points and rectangles, and the coercion applied when a
    Python float reaches a Qt parameter that takes an int. */
module Geometry {

  /** A `QPoint`. */
  datatype Point = Point(x: int, y: int)

  /** A width and height in pixels. */
  datatype Size = Size(w: int, h: int)

  /** `QPoint + QPoint`. */
  function Add(p: Point, q: Point): (r: Point) { Point(p.x + q.x, p.y + q.y) }

  /** `QPoint - QPoint`. */
  function Sub(p: Point, q: Point): (r: Point) { Point(p.x - q.x, p.y - q.y) }

  /** Python's `max` on two ints. */
  function Max(a: int, b: int): (m: int)
    ensures a <= m && b <= m && (m == a || m == b)
  {
    if a >= b then a else b
  }

  /** Python's `min` on two ints. */
  function Min(a: int, b: int): (m: int)
    ensures m <= a && m <= b && (m == a || m == b)
  {
    if a <= b then a else b
  }

  function AbsR(x: real): (r: real) { if x < 0.0 then -x else x }

  /** The float-to-int coercion of a Qt argument: rounding toward zero.
      The contract pins the result down uniquely on each side of zero. */
  function Trunc(x: real): (n: int)
    ensures 0.0 <= x ==> n as real <= x < n as real + 1.0
    ensures x < 0.0 ==> n as real - 1.0 < x <= n as real
    ensures AbsR(x - n as real) < 1.0
  {
    if x >= 0.0 then x.Floor else -((-x).Floor)
  }

  lemma PositiveQuotient(a: real, b: real)
    requires 0.0 < a && 0.0 < b
    ensures 0.0 < a / b
  {
  }

  /** A length measured from a coerced coordinate is within one pixel of
      the length measured from the exact one: `v + k == target`. */
  lemma TruncOffset(v: real, k: int, target: real)
    requires v + k as real == target
    ensures AbsR((Trunc(v) + k) as real - target) < 1.0
  {
    assert (Trunc(v) + k) as real - target == Trunc(v) as real - v;
  }

  /** The same, for a length measured back from the coordinate:
      `k - v == target`. */
  lemma TruncOffsetBack(v: real, k: int, target: real)
    requires k as real - v == target
    ensures AbsR((k - Trunc(v)) as real - target) < 1.0
  {
    assert (k - Trunc(v)) as real - target == v - Trunc(v) as real;
  }

  /** A `QRect`, stored as Qt stores it: the two corner coordinates
      `x1, y1` and `x2, y2`, with `x2 = x1 + width - 1`. */
  datatype Rect = Rect(x1: int, y1: int, x2: int, y2: int)

  /** `QRect(x, y, w, h)` and `QRect(QPoint, QSize)`. */
  function RectAt(x: int, y: int, w: int, h: int): (r: Rect)
    ensures r.x2 - r.x1 + 1 == w && r.y2 - r.y1 + 1 == h
  {
    Rect(x, y, x + w - 1, y + h - 1)
  }

  /** `QRect(QPoint topLeft, QPoint bottomRight)`. */
  function RectFromCorners(a: Point, b: Point): (r: Rect) {
    Rect(a.x, a.y, b.x, b.y)
  }

  /** One axis of `QRect::contains`: a span whose far end lies more than one
      pixel before its near end is read backwards (Qt 5's normalisation);
      otherwise it is the inclusive interval `[lo, hi]`, empty when
      `hi == lo - 1`. */
  predicate InSpan(lo: int, hi: int, v: int) {
    if hi < lo - 1 then hi <= v <= lo else lo <= v <= hi
  }

  /** `QRect::contains(QPoint)` (not the `proper` variant). */
  predicate Contains(r: Rect, p: Point) {
    InSpan(r.x1, r.x2, p.x) && InSpan(r.y1, r.y2, p.y)
  }

  /** What a sized rectangle covers: `w` pixels to the right of `x` for a
      non-negative width, and the `|w| + 2` pixels ending at `x` for a
      negative one; likewise vertically. */
  lemma ContainsSized(x: int, y: int, w: int, h: int, p: Point)
    ensures 0 <= w && 0 <= h ==>
      (Contains(RectAt(x, y, w, h), p) <==> x <= p.x < x + w && y <= p.y < y + h)
    ensures w < 0 && h < 0 ==>
      (Contains(RectAt(x, y, w, h), p) <==> x + w - 1 <= p.x <= x && y + h - 1 <= p.y <= y)
  {
  }

  /** Two spans laid out along one axis: when the second starts at least
      `size` after the first (both non-negative) and a whole number `t` does
      not exceed `size`, the truncated first start plus `t` does not pass the
      truncated second start. */
  lemma TruncGap(a: real, b: real, size: real, t: int)
    requires 0.0 <= a && a + size <= b && t as real <= size
    ensures Trunc(a) + t <= Trunc(b)
  {
    var n := Trunc(a) + t;
    assert n as real <= b;
    assert b < Trunc(b) as real + 1.0;
  }
}
