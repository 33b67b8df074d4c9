/**
  The floating-point rectangles of the engine's `geometry` package, over exact
  reals: a rectangle is two corner vectors, built by `R` and brought to normal
  form (minimum corner below and left of the maximum one) by `Norm`.
*/
module Geometry {

  /** `geometry.Vec`. */
  datatype Vec = Vec(x: real, y: real)

  // `Min`, `Max`, `Contains` and `Overlaps` are the same notions as in `Fixed`,
  // restated over reals because Dafny has no overloading across `int` and `real`.

  function Min(a: real, b: real): real { if a <= b then a else b }

  function Max(a: real, b: real): real { if a >= b then a else b }

  function Abs(a: real): real { if a >= 0.0 then a else -a }

  /** `geometry.Rect`: corners `min` and `max`, in whatever order they were given. */
  datatype Rect = Rect(min: Vec, max: Vec) {

    /** Width, negative when the x corners are swapped. */
    function W(): real { max.x - min.x }

    /** Height, negative when the y corners are swapped. */
    function H(): real { max.y - min.y }

    /** The normal form: `min` is not right of or above `max`. */
    predicate Normal() {
      min.x <= max.x && min.y <= max.y
    }

    /**
      `r.Norm()`: the same rectangle with, on each axis, the smaller
      coordinate in `min` and the larger in `max`.
    */
    function Norm(): (n: Rect)
      ensures n.Normal()
      ensures Normal() ==> n == this
      ensures (n.min.x, n.max.x) == (min.x, max.x) || (n.min.x, n.max.x) == (max.x, min.x)
      ensures (n.min.y, n.max.y) == (min.y, max.y) || (n.min.y, n.max.y) == (max.y, min.y)
      ensures n.W() == Abs(W()) && n.H() == Abs(H())
    {
      Rect(Vec(Min(min.x, max.x), Min(min.y, max.y)), Vec(Max(min.x, max.x), Max(min.y, max.y)))
    }
  }

  /** `geometry.R(minX, minY, maxX, maxY)`: the rectangle with those corners, as given. */
  function R(minX: real, minY: real, maxX: real, maxY: real): Rect {
    Rect(Vec(minX, minY), Vec(maxX, maxY))
  }

  /** `inner` lies within `outer` (corner-wise). */
  predicate Contains(outer: Rect, inner: Rect) {
    outer.min.x <= inner.min.x && outer.min.y <= inner.min.y &&
    inner.max.x <= outer.max.x && inner.max.y <= outer.max.y
  }

  /** Two normal rectangles of positive area whose interiors meet. */
  predicate Overlaps(r: Rect, s: Rect) {
    r.min.x < r.max.x && r.min.y < r.max.y && s.min.x < s.max.x && s.min.y < s.max.y &&
    r.min.x < s.max.x && s.min.x < r.max.x &&
    r.min.y < s.max.y && s.min.y < r.max.y
  }
}
