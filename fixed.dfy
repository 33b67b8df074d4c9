/**
  The 26.6 fixed-point arithmetic of golang.org/x/image/math/fixed, stated as
  definitions: an `Int26_6` counts 1/64ths of a pixel.  Go's `Int26_6` is an
  int32; these integers are unbounded (values used by the atlas stay far below
  2^31).
*/
module Fixed {

  /** A coordinate in 1/64-pixel units. */
  type Int26_6 = int

  /** `fixed.I(n)`: the whole pixel count `n` in 26.6 units (`n << 6`). */
  function I(n: int): (x: Int26_6)
    ensures Aligned(x)
    ensures Floor(x) == n && Ceil(x) == n
  {
    64 * n
  }

  /** `x.Floor()`: the greatest whole pixel count not above `x` (`x >> 6`). */
  function Floor(x: Int26_6): (n: int)
    ensures 64 * n <= x < 64 * n + 64
  {
    x / 64
  }

  /** `x.Ceil()`: the least whole pixel count not below `x` (`(x + 63) >> 6`). */
  function Ceil(x: Int26_6): (n: int)
    ensures 64 * n - 64 < x <= 64 * n
  {
    (x + 63) / 64
  }

  /** A 26.6 value that lies on a whole pixel boundary. */
  predicate Aligned(x: Int26_6) {
    x % 64 == 0
  }

  /** Rounding an aligned value up or down leaves it where it is. */
  lemma AlignedRounding(x: Int26_6)
    requires Aligned(x)
    ensures I(Floor(x)) == x && I(Ceil(x)) == x
  {
  }

  /** Rounding up to the next pixel never moves a value down and never by a whole pixel. */
  lemma CeilBounds(x: Int26_6)
    ensures x <= I(Ceil(x)) < x + 64
    ensures Aligned(I(Ceil(x)))
  {
  }

  /** Rounding up is monotone. */
  lemma CeilMonotone(x: Int26_6, y: Int26_6)
    requires x <= y
    ensures Ceil(x) <= Ceil(y)
  {
  }

  /** `fixed.Point26_6`. */
  datatype Point = Point(x: Int26_6, y: Int26_6) {

    /** `p.Add(q)`. */
    function Add(q: Point): Point {
      Point(x + q.x, y + q.y)
    }

    /** Both coordinates on whole pixel boundaries. */
    predicate IsAligned() {
      Aligned(x) && Aligned(y)
    }
  }

  /** `fixed.P(a, b)`: a point at whole pixel coordinates. */
  function P(a: int, b: int): (p: Point)
    ensures p.IsAligned()
    ensures Floor(p.x) == a && Floor(p.y) == b
  {
    Point(I(a), I(b))
  }

  /** `fixed.Rectangle26_6`: `min` is inclusive, `max` exclusive. */
  datatype Rect = Rect(min: Point, max: Point) {

    /** `r.Empty()`: the rectangle holds no point. */
    predicate Empty() {
      min.x >= max.x || min.y >= max.y
    }

    /** Width, which is negative for an inverted rectangle. */
    function Dx(): Int26_6 {
      max.x - min.x
    }

    /** Height, which is negative for an inverted rectangle. */
    function Dy(): Int26_6 {
      max.y - min.y
    }

    /** All four coordinates on whole pixel boundaries. */
    predicate IsAligned() {
      min.IsAligned() && max.IsAligned()
    }

    /** Neither axis is inverted. */
    predicate WellFormed() {
      min.x <= max.x && min.y <= max.y
    }

    /** `r.Add(p)`: the rectangle translated by `p`. */
    function Add(p: Point): (r: Rect)
      ensures r.Dx() == Dx() && r.Dy() == Dy()
      ensures r.min == min.Add(p)
      ensures r.Empty() == Empty() && r.WellFormed() == WellFormed()
    {
      Rect(min.Add(p), max.Add(p))
    }

    /**
      `r.Union(s)`: the smallest rectangle holding both; an empty operand is
      ignored, so the union of two empty rectangles is `s`.
    */
    function Union(s: Rect): (u: Rect)
      ensures Empty() ==> u == s
      ensures !Empty() && s.Empty() ==> u == this
      ensures !Empty() ==> Contains(u, this)
      ensures !s.Empty() ==> Contains(u, s)
      ensures !Empty() || !s.Empty() ==> !u.Empty()
    {
      if Empty() then s
      else if s.Empty() then this
      else Rect(Point(Min(min.x, s.min.x), Min(min.y, s.min.y)),
                Point(Max(max.x, s.max.x), Max(max.y, s.max.y)))
    }
  }

  /** The zero rectangle `fixed.Rectangle26_6{}`; it is empty. */
  const ZeroRect: Rect := Rect(Point(0, 0), Point(0, 0))

  function Min(a: int, b: int): int { if a <= b then a else b }

  function Max(a: int, b: int): int { if a >= b then a else b }

  /** `inner` lies within `outer` (corner-wise). */
  predicate Contains(outer: Rect, inner: Rect) {
    outer.min.x <= inner.min.x && outer.min.y <= inner.min.y &&
    inner.max.x <= outer.max.x && inner.max.y <= outer.max.y
  }

  /** `r.Overlaps(s)`: the two rectangles share a point. */
  predicate Overlaps(r: Rect, s: Rect) {
    !r.Empty() && !s.Empty() &&
    r.min.x < s.max.x && s.min.x < r.max.x &&
    r.min.y < s.max.y && s.min.y < r.max.y
  }

  /** The union of two non-empty rectangles is the smallest one holding both. */
  lemma UnionLeast(r: Rect, s: Rect, o: Rect)
    requires !r.Empty() && !s.Empty() && Contains(o, r) && Contains(o, s)
    ensures Contains(o, r.Union(s))
  {
  }

  /** Containment is transitive. */
  lemma ContainsTransitive(a: Rect, b: Rect, c: Rect)
    requires Contains(a, b) && Contains(b, c)
    ensures Contains(a, c)
  {
  }
}
