/**
  The glyph layout of atlas.go: a greedy row packer (`makeMapping`) and the
  bisection that picks the row width giving the squarest atlas
  (`makeSquareMapping`).  The font face is an oracle that reports each rune's
  ink box and advance, and the line metrics.
*/
module Atlas {
  import opened Wrappers
  import opened Fixed

  /** A Go `rune`: a code point. */
  type Rune = int

  /** What `face.GlyphBounds(r)` reports when its `ok` result is true. */
  datatype InkBox = InkBox(bounds: Rect, advance: Int26_6)

  /**
    The font face as the packer uses it: `GlyphBounds` (`None` stands for
    `ok == false`) and the `Ascent` and `Descent` of `Metrics()`.
  */
  datatype Face = Face(glyphBounds: Rune -> Option<InkBox>, ascent: Int26_6, descent: Int26_6)

  /** `fixedGlyph`: pen position, placed frame and advance of one glyph. */
  datatype FixedGlyph = FixedGlyph(dot: Point, frame: Rect, advance: Int26_6)

  /** One placement made by the packer, in order, and whether a new row followed it. */
  datatype Placement = Placement(rune: Rune, glyph: FixedGlyph, wrapped: bool)

  /**
    The packer's state between two runes: the pen `dot`, the running `bounds`,
    the `mapping` built so far, and the history of placements made.
  */
  datatype PackState = PackState(dot: Point, bounds: Rect, mapping: map<Rune, FixedGlyph>, placed: seq<Placement>)

  /** The state before the first rune: pen at the origin, zero bounds, empty mapping. */
  const Start: PackState := PackState(P(0, 0), ZeroRect, map[], [])

  /** `i2f`: a 26.6 value as a number of pixels. */
  function I2F(x: Int26_6): (f: real)
    ensures f * 64.0 == x as real
    ensures Aligned(x) ==> f == (x / 64) as real
  {
    x as real / 64.0
  }

  /**
    The ink box rounded outward to whole pixels: the smallest pixel-aligned
    rectangle holding it.
  */
  function PixelFrame(b: Rect): (f: Rect)
    ensures f.IsAligned()
    ensures f.min.x <= b.min.x < f.min.x + 64 && f.min.y <= b.min.y < f.min.y + 64
    ensures f.max.x - 64 < b.max.x <= f.max.x && f.max.y - 64 < b.max.y <= f.max.y
    ensures b.WellFormed() ==> f.WellFormed()
  {
    Rect(P(Floor(b.min.x), Floor(b.min.y)), P(Ceil(b.max.x), Ceil(b.max.y)))
  }

  /**
    The glyph placed with the pen at `dot`: the pixel frame is shifted so that
    its left edge lands on the pen, and the shifted pen is recorded.
  */
  function PlaceGlyph(dot: Point, ink: InkBox): (g: FixedGlyph)
    ensures g.frame.min.x == dot.x
    ensures g.dot.y == dot.y && g.frame.min.y == dot.y + PixelFrame(ink.bounds).min.y
    ensures g.frame == PixelFrame(ink.bounds).Add(g.dot)
    ensures g.frame.Dx() == PixelFrame(ink.bounds).Dx() && g.frame.Dy() == PixelFrame(ink.bounds).Dy()
    ensures g.advance == ink.advance
  {
    var f := PixelFrame(ink.bounds);
    var d := Point(dot.x - f.min.x, dot.y);
    FixedGlyph(d, f.Add(d), ink.advance)
  }

  /** The pen after a glyph with placed `frame`, the pen having been at `dot`. */
  function NextDot(face: Face, padding: Int26_6, width: Int26_6, dot: Point, frame: Rect): (d: Point)
    ensures frame.max.x >= width ==> d.x == 0 && d.y == I(Ceil(dot.y + face.ascent + face.descent + padding))
    ensures frame.max.x < width ==> d.y == dot.y && frame.max.x + padding <= d.x < frame.max.x + padding + 64
    ensures d.x % 64 == 0 && (dot.y % 64 == 0 ==> d.y % 64 == 0)
  {
    if frame.max.x >= width then Point(0, I(Ceil(dot.y + face.ascent + face.descent + padding)))
    else Point(I(Ceil(frame.max.x + padding)), dot.y)
  }

  /** One iteration of `makeMapping`'s loop over rune `r`. */
  function Step(face: Face, padding: Int26_6, width: Int26_6, st: PackState, r: Rune): (st': PackState)
    ensures face.glyphBounds(r).None? ==> st' == st
    ensures face.glyphBounds(r).Some? ==>
      var g := PlaceGlyph(st.dot, face.glyphBounds(r).value);
      && st'.mapping == st.mapping[r := g]
      && st'.bounds == st.bounds.Union(g.frame)
      && st'.placed == st.placed + [Placement(r, g, g.frame.max.x >= width)]
      && st'.dot == NextDot(face, padding, width, st.dot, g.frame)
  {
    match face.glyphBounds(r)
    case None => st
    case Some(ink) =>
      var g := PlaceGlyph(st.dot, ink);
      var wrapped := g.frame.max.x >= width;
      PackState(NextDot(face, padding, width, st.dot, g.frame), st.bounds.Union(g.frame),
                st.mapping[r := g], st.placed + [Placement(r, g, wrapped)])
  }

  /** The state `makeMapping` reaches after the runes `runes`, in order. */
  function Pack(face: Face, runes: seq<Rune>, padding: Int26_6, width: Int26_6): PackState
    decreases |runes|
  {
    if runes == [] then Start
    else Step(face, padding, width, Pack(face, runes[..|runes| - 1], padding, width), runes[|runes| - 1])
  }

  /**
    `makeMapping`: the greedy row packer.  Glyphs go left to right from the
    pen; after a glyph whose frame reaches `width`, the pen moves to a new row.
  */
  method MakeMapping(face: Face, runes: seq<Rune>, padding: Int26_6, width: Int26_6)
    returns (mapping: map<Rune, FixedGlyph>, bounds: Rect)
    ensures mapping == Pack(face, runes, padding, width).mapping
    ensures bounds == Pack(face, runes, padding, width).bounds
  {
    mapping := map[];
    bounds := ZeroRect;
    var dot := P(0, 0);
    for i := 0 to |runes|
      invariant dot == Pack(face, runes[..i], padding, width).dot
      invariant bounds == Pack(face, runes[..i], padding, width).bounds
      invariant mapping == Pack(face, runes[..i], padding, width).mapping
    {
      assert runes[..i + 1][..i] == runes[..i];
      ghost var st := Pack(face, runes[..i], padding, width);
      assert Pack(face, runes[..i + 1], padding, width) == Step(face, padding, width, st, runes[i]);
      var r := runes[i];
      var glyphBounds := face.glyphBounds(r);
      if glyphBounds.None? {
        continue;
      }
      var b, advance := glyphBounds.value.bounds, glyphBounds.value.advance;

      var frame := Rect(P(Floor(b.min.x), Floor(b.min.y)), P(Ceil(b.max.x), Ceil(b.max.y)));
      dot := dot.(x := dot.x - frame.min.x);
      frame := frame.Add(dot);
      assert FixedGlyph(dot, frame, advance) == PlaceGlyph(st.dot, glyphBounds.value);

      mapping := mapping[r := FixedGlyph(dot, frame, advance)];
      bounds := bounds.Union(frame);

      dot := dot.(x := frame.max.x);
      dot := dot.(x := dot.x + padding);
      dot := dot.(x := I(Ceil(dot.x)));

      if frame.max.x >= width {
        dot := dot.(x := 0);
        dot := dot.(y := dot.y + face.ascent + face.descent);
        dot := dot.(y := dot.y + padding);
        dot := dot.(y := I(Ceil(dot.y)));
      }
    }
    assert runes[..|runes|] == runes;
  }

  /**
    `sort.Search(n, f)`: bisection for the first index in `[0, n)` where `f`
    holds, `n` when there is none.  The result meets the bisection invariant
    whether or not `f` is monotone.
  */
  method Search(n: int, f: int -> bool) returns (i: int)
    ensures 0 <= i && (n >= 0 ==> i <= n) && (n < 0 ==> i == 0)
    ensures i < n ==> f(i)
    ensures i > 0 ==> !f(i - 1)
    ensures (forall a, b :: 0 <= a <= b < n && f(a) ==> f(b)) ==>
              (forall k :: 0 <= k < n ==> (f(k) <==> i <= k))
  {
    var j := n;
    i := 0;
    while i < j
      invariant 0 <= i && (n >= 0 ==> i <= j <= n) && (n < 0 ==> i == 0)
      invariant i > 0 ==> !f(i - 1)
      invariant j < n ==> f(j)
      decreases j - i
    {
      var h := (i + j) / 2;
      if !f(h) {
        i := h + 1;
      } else {
        j := h;
      }
    }
    BisectionPartition(n, f, i);
  }

  /**
    For a monotone predicate, an index meeting the bisection invariant splits
    `[0, n)` into the part where the predicate fails and the part where it holds.
  */
  lemma BisectionPartition(n: int, f: int -> bool, i: int)
    requires 0 <= i && (n >= 0 ==> i <= n)
    requires i < n ==> f(i)
    requires i > 0 ==> !f(i - 1)
    ensures (forall a, b :: 0 <= a <= b < n && f(a) ==> f(b)) ==>
              (forall k :: 0 <= k < n ==> (f(k) <==> i <= k))
  {
    if forall a, b :: 0 <= a <= b < n && f(a) ==> f(b) {
      forall k | 0 <= k < n
        ensures f(k) <==> i <= k
      {
        if k < i {
          assert !f(i - 1);
        } else {
          assert f(i);
        }
      }
    }
  }

  /** The exclusive upper end of the width search, `fixed.I(1024 * 1024)` = 2^26. */
  const SearchLimit: int := I(1024 * 1024)

  /** The closure of `makeSquareMapping`: the bounds are at least as wide as high. */
  predicate WideEnough(bounds: Rect) {
    bounds.Dx() >= bounds.Dy()
  }

  /** Whether packing at `width` gives bounds at least as wide as high. */
  function PacksWide(face: Face, runes: seq<Rune>, padding: Int26_6, width: Int26_6): bool {
    WideEnough(Pack(face, runes, padding, width).bounds)
  }

  /**
    `makeSquareMapping`: bisect the row width over `[0, 2^26)` for the first
    width whose packing is at least as wide as high, then pack at that width.
    The chosen `width` is returned as a ghost so that the contract can name it.
  */
  method MakeSquareMapping(face: Face, runes: seq<Rune>, padding: Int26_6)
    returns (mapping: map<Rune, FixedGlyph>, bounds: Rect, ghost width: Int26_6)
    ensures 0 <= width <= SearchLimit
    ensures width < SearchLimit ==> PacksWide(face, runes, padding, width)
    ensures width > 0 ==> !PacksWide(face, runes, padding, width - 1)
    ensures (forall a, b :: 0 <= a <= b < SearchLimit && PacksWide(face, runes, padding, a) ==> PacksWide(face, runes, padding, b)) ==>
              (forall w :: 0 <= w < SearchLimit ==> (PacksWide(face, runes, padding, w) <==> width <= w))
    ensures mapping == Pack(face, runes, padding, width).mapping
    ensures bounds == Pack(face, runes, padding, width).bounds
  {
    var w := Search(SearchLimit, i => PacksWide(face, runes, padding, i));
    mapping, bounds := MakeMapping(face, runes, padding, w);
    width := w;
  }
}
