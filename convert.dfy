/**
  The pure parts of convert.go: expanding the configured character ranges into
  a set of runes, the pixel canvas rectangle of the packed bounds, and the
  vertical flip that turns each packed frame into a normalised rectangle in
  the engine's bottom-up coordinates.
*/
module Convert {
  import opened Wrappers
  import opened Fixed
  import opened Atlas
  import opened AtlasProofs
  import G = Geometry

  // ---------------------------------------------------------------------
  // Range expansion
  // ---------------------------------------------------------------------

  /** One configured range: two strings, each meant to hold exactly one rune. */
  datatype RuneRange = RuneRange(low: string, high: string)

  /** `incorrect range value`: the offending range. */
  datatype RangeError = IncorrectRange(range: RuneRange)

  /** Both endpoints hold exactly one rune. */
  predicate ValidRange(rr: RuneRange) {
    |rr.low| == 1 && |rr.high| == 1
  }

  predicate AllValid(ranges: seq<RuneRange>) {
    forall k :: 0 <= k < |ranges| ==> ValidRange(ranges[k])
  }

  function Low(rr: RuneRange): Rune
    requires ValidRange(rr)
  {
    rr.low[0] as int
  }

  function High(rr: RuneRange): Rune
    requires ValidRange(rr)
  {
    rr.high[0] as int
  }

  /** The runes from `lo` to `hi` inclusive, added from the low end up; none when `lo > hi`. */
  function Span(lo: Rune, hi: Rune): set<Rune>
    decreases hi - lo
  {
    if lo > hi then {} else Span(lo, hi - 1) + {hi}
  }

  /** The runes the ranges cover, range by range. */
  function Covered(ranges: seq<RuneRange>): set<Rune>
    requires AllValid(ranges)
    decreases |ranges|
  {
    if ranges == [] then {}
    else Covered(ranges[..|ranges| - 1]) + Span(Low(ranges[|ranges| - 1]), High(ranges[|ranges| - 1]))
  }

  /** `e` is the error for the first range that is not valid. */
  ghost predicate FirstInvalid(ranges: seq<RuneRange>, e: RangeError) {
    exists k :: 0 <= k < |ranges| && e == IncorrectRange(ranges[k]) && !ValidRange(ranges[k]) && AllValid(ranges[..k])
  }

  /** No element occurs twice. */
  predicate Distinct(s: seq<Rune>) {
    forall i, j :: 0 <= i < j < |s| ==> s[i] != s[j]
  }

  /**
    `runeRangesToRunes`: every rune of every range, each once, in the order
    Go's map iteration yields them (any order).  An endpoint with no rune or
    more than one rune aborts with that range as the error.
  */
  method RuneRangesToRunes(ranges: seq<RuneRange>) returns (res: Result<seq<Rune>, RangeError>)
    ensures res.Failure? <==> !AllValid(ranges)
    ensures res.Failure? ==> FirstInvalid(ranges, res.error)
    ensures res.Success? ==>
      && AllValid(ranges)
      && (forall x :: x in res.value <==> x in Covered(ranges))
      && Distinct(res.value)
      && |res.value| == |Covered(ranges)|
  {
    var runeSet: set<Rune> := {};
    var k := 0;
    while k < |ranges|
      invariant 0 <= k <= |ranges|
      invariant AllValid(ranges[..k])
      invariant runeSet == Covered(ranges[..k])
    {
      var runeRange := ranges[k];
      if |runeRange.low| > 1 || |runeRange.high| > 1 {
        assert ranges[..k][..k] == ranges[..k];
        return Failure(IncorrectRange(runeRange));
      }
      if |runeRange.low| <= 0 || |runeRange.high| <= 0 {
        assert ranges[..k][..k] == ranges[..k];
        return Failure(IncorrectRange(runeRange));
      }
      var a := runeRange.low[0] as int;
      var b := runeRange.high[0] as int;
      var i := a;
      while i <= b
        invariant a <= i && (i <= b + 1 || i == a)
        invariant runeSet == Covered(ranges[..k]) + Span(a, i - 1)
        decreases b + 1 - i
      {
        runeSet := runeSet + {i};
        i := i + 1;
      }
      assert Span(a, i - 1) == Span(a, b);
      assert ranges[..k + 1][..k] == ranges[..k];
      k := k + 1;
    }
    assert ranges[..k] == ranges;

    var runeArr: seq<Rune> := [];
    var rest := runeSet;
    while rest != {}
      invariant rest <= runeSet
      invariant forall x :: x in runeSet <==> x in runeArr || x in rest
      invariant forall x :: x in runeArr ==> x !in rest
      invariant Distinct(runeArr)
      invariant |runeArr| + |rest| == |runeSet|
      decreases |rest|
    {
      NonEmptyHasMember(rest);
      var run :| run in rest;
      runeArr := runeArr + [run];
      rest := rest - {run};
    }
    return Success(runeArr);
  }

  /** A set that is not empty has a member to pick. */
  lemma NonEmptyHasMember(s: set<Rune>)
    requires s != {}
    ensures exists x :: x in s
  {
    if forall x :: x !in s {
      assert false;
    }
  }

  /** A rune is covered exactly when it lies between the endpoints of some range. */
  lemma {:induction false} CoveredMembers(ranges: seq<RuneRange>, x: Rune)
    requires AllValid(ranges)
    ensures x in Covered(ranges) <==> exists k :: 0 <= k < |ranges| && Low(ranges[k]) <= x <= High(ranges[k])
    decreases |ranges|
  {
    if ranges != [] {
      var init := ranges[..|ranges| - 1];
      CoveredMembers(init, x);
      SpanMembers(Low(ranges[|ranges| - 1]), High(ranges[|ranges| - 1]), x);
      if x in Covered(init) {
        var k :| 0 <= k < |init| && Low(init[k]) <= x <= High(init[k]);
        assert ranges[k] == init[k];
      } else if exists k :: 0 <= k < |ranges| && Low(ranges[k]) <= x <= High(ranges[k]) {
        var k :| 0 <= k < |ranges| && Low(ranges[k]) <= x <= High(ranges[k]);
        if k < |init| {
          assert init[k] == ranges[k];
        }
        SpanMembers(Low(ranges[k]), High(ranges[k]), x);
      }
    }
  }

  /** A range holds exactly the runes between its ends, inclusive. */
  lemma {:induction false} SpanMembers(lo: Rune, hi: Rune, x: Rune)
    ensures x in Span(lo, hi) <==> lo <= x <= hi
    decreases hi - lo
  {
    if lo <= hi {
      SpanMembers(lo, hi - 1, x);
    }
  }

  /** A range holds `hi - lo + 1` runes, and none when `lo > hi`. */
  lemma {:induction false} SpanSize(lo: Rune, hi: Rune)
    ensures |Span(lo, hi)| == if lo <= hi then hi - lo + 1 else 0
    decreases hi - lo
  {
    if lo <= hi {
      SpanSize(lo, hi - 1);
      SpanMembers(lo, hi - 1, hi);
    }
  }

  /** A valid range whose low end is above its high end adds nothing and is not an error. */
  lemma InvertedRangeAddsNothing(ranges: seq<RuneRange>, rr: RuneRange)
    requires AllValid(ranges) && ValidRange(rr) && Low(rr) > High(rr)
    ensures AllValid(ranges + [rr])
    ensures Covered(ranges + [rr]) == Covered(ranges)
  {
    assert (ranges + [rr])[..|ranges|] == ranges;
    assert Span(Low(rr), High(rr)) == {};
  }

  // ---------------------------------------------------------------------
  // The canvas rectangle
  // ---------------------------------------------------------------------

  /** `image.Point`. */
  datatype ImagePoint = ImagePoint(x: int, y: int)

  /** `image.Rectangle`, in whole pixels. */
  datatype ImageRect = ImageRect(min: ImagePoint, max: ImagePoint)

  /** `image.Rect(x0, y0, x1, y1)`: the rectangle with those corners, swapped where needed so that min <= max. */
  function ImageRectangle(x0: int, y0: int, x1: int, y1: int): (r: ImageRect)
    ensures r.min.x <= r.max.x && r.min.y <= r.max.y
    ensures {r.min.x, r.max.x} == {x0, x1} && {r.min.y, r.max.y} == {y0, y1}
  {
    var (lx, hx) := if x0 > x1 then (x1, x0) else (x0, x1);
    var (ly, hy) := if y0 > y1 then (y1, y0) else (y0, y1);
    ImageRect(ImagePoint(lx, ly), ImagePoint(hx, hy))
  }

  /**
    The canvas `ToAtlasData` allocates: the bounds with the minimum corner
    floored and the maximum corner ceiled to whole pixels.  For bounds that are
    not inverted it is the smallest pixel rectangle holding them.
  */
  function CanvasRect(b: Rect): (c: ImageRect)
    ensures c.min.x <= c.max.x && c.min.y <= c.max.y
    ensures b.WellFormed() ==>
      && 64 * c.min.x <= b.min.x < 64 * c.min.x + 64 && 64 * c.min.y <= b.min.y < 64 * c.min.y + 64
      && 64 * c.max.x - 64 < b.max.x <= 64 * c.max.x && 64 * c.max.y - 64 < b.max.y <= 64 * c.max.y
  {
    ImageRectangle(Floor(b.min.x), Floor(b.min.y), Ceil(b.max.x), Ceil(b.max.y))
  }

  /** The canvas in 26.6 units. */
  function CanvasFixed(c: ImageRect): Rect {
    Rect(P(c.min.x, c.min.y), P(c.max.x, c.max.y))
  }

  /**
    For the packer's bounds, with ink boxes that are not inverted, the canvas
    is exactly the bounds in whole pixels, so it holds every non-empty frame.
  */
  lemma PackCanvas(face: Face, runes: seq<Rune>, padding: Int26_6, width: Int26_6)
    requires InkWellFormed(face)
    ensures var st := Pack(face, runes, padding, width);
      && CanvasFixed(CanvasRect(st.bounds)) == st.bounds
      && forall r :: r in st.mapping && !st.mapping[r].frame.Empty() ==>
           Contains(CanvasFixed(CanvasRect(st.bounds)), st.mapping[r].frame)
  {
    PackWellFormed(face, runes, padding, width);
    PackAligned(face, runes, padding, width);
    PackBoundsContainFrames(face, runes, padding, width);
    var b := Pack(face, runes, padding, width).bounds;
    AlignedRounding(b.min.x);
    AlignedRounding(b.min.y);
    AlignedRounding(b.max.x);
    AlignedRounding(b.max.y);
  }

  // ---------------------------------------------------------------------
  // The vertical flip
  // ---------------------------------------------------------------------

  /** A 26.6 rectangle in pixels, corners as given, as convert.go:100-105 builds `bounds`. */
  function ToReal(b: Rect): G.Rect {
    G.R(I2F(b.min.x), I2F(b.min.y), I2F(b.max.x), I2F(b.max.y))
  }

  /**
    Mirror `r` top to bottom inside `bounds`: y goes to
    `bounds.max.y - (y - bounds.min.y)`, x stays, and the result is normalised.
  */
  function Mirror(bounds: G.Rect, r: G.Rect): (m: G.Rect)
    ensures m.Normal()
    ensures m.W() == G.Abs(r.W()) && m.H() == G.Abs(r.H())
    ensures r.Normal() ==>
      && m.min.x == r.min.x && m.max.x == r.max.x
      && m.min.y == bounds.min.y + bounds.max.y - r.max.y
      && m.max.y == bounds.min.y + bounds.max.y - r.min.y
  {
    G.R(r.min.x, bounds.max.y - (r.min.y - bounds.min.y), r.max.x, bounds.max.y - (r.max.y - bounds.min.y)).Norm()
  }

  /** The flipped frame of one glyph, for the atlas bounds `bounds` in pixels. */
  function FlipFrame(bounds: G.Rect, f: Rect): G.Rect {
    Mirror(bounds, ToReal(f))
  }

  /** Mirroring twice gives back the rectangle, normalised. */
  lemma MirrorTwice(bounds: G.Rect, r: G.Rect)
    ensures Mirror(bounds, Mirror(bounds, r)) == r.Norm()
  {
    var n := r.Norm();
    assert Mirror(bounds, r).Normal();
    assert Mirror(bounds, r) == Mirror(bounds, n);
  }

  /**
    The flip keeps x, maps the y interval `[y0, y1]` of a frame that is not
    inverted to `[Bmin + Bmax - y1, Bmin + Bmax - y0]`, and keeps the width
    and the height, in pixels.
  */
  lemma FlipFrameShape(fixedBounds: Rect, f: Rect)
    requires f.WellFormed()
    ensures var g := FlipFrame(ToReal(fixedBounds), f);
      && g.Normal()
      && g.min.x == I2F(f.min.x) && g.max.x == I2F(f.max.x)
      && g.min.y == I2F(fixedBounds.min.y) + I2F(fixedBounds.max.y) - I2F(f.max.y)
      && g.max.y == I2F(fixedBounds.min.y) + I2F(fixedBounds.max.y) - I2F(f.min.y)
      && g.W() == I2F(f.Dx()) && g.H() == I2F(f.Dy())
  {
    assert ToReal(f).Normal();
  }

  /** A frame that is not inverted and lies in the bounds still lies in them once flipped. */
  lemma FlipStaysInside(fixedBounds: Rect, f: Rect)
    requires f.WellFormed() && Contains(fixedBounds, f)
    ensures G.Contains(ToReal(fixedBounds), FlipFrame(ToReal(fixedBounds), f))
  {
    FlipFrameShape(fixedBounds, f);
  }

  /** Flipping neither creates nor removes an overlap between two frames that are not inverted. */
  lemma FlipKeepsOverlap(fixedBounds: Rect, f: Rect, g: Rect)
    requires f.WellFormed() && g.WellFormed()
    ensures G.Overlaps(FlipFrame(ToReal(fixedBounds), f), FlipFrame(ToReal(fixedBounds), g)) <==> Overlaps(f, g)
  {
    FlipFrameShape(fixedBounds, f);
    FlipFrameShape(fixedBounds, g);
  }

  /** Every packed frame, flipped inside `fixedBounds`. */
  function FlipAll(fixedMapping: map<Rune, FixedGlyph>, fixedBounds: Rect): map<Rune, G.Rect> {
    map r | r in fixedMapping :: FlipFrame(ToReal(fixedBounds), fixedMapping[r].frame)
  }

  /** A map with the keys of `fixedMapping` and every frame flipped is `FlipAll`. */
  lemma FlipAllUnique(mapping: map<Rune, G.Rect>, fixedMapping: map<Rune, FixedGlyph>, fixedBounds: Rect)
    requires mapping.Keys == fixedMapping.Keys
    requires forall r :: r in mapping ==> mapping[r] == FlipFrame(ToReal(fixedBounds), fixedMapping[r].frame)
    ensures mapping == FlipAll(fixedMapping, fixedBounds)
  {
    var m := FlipAll(fixedMapping, fixedBounds);
    assert mapping.Keys == m.Keys;
    forall r | r in mapping
      ensures mapping[r] == m[r]
    {
    }
  }

  /**
    The loop of `ToAtlasData` that writes `mapping`: every packed frame,
    flipped inside the atlas bounds and normalised.
  */
  method FlipFrames(fixedMapping: map<Rune, FixedGlyph>, fixedBounds: Rect) returns (mapping: map<Rune, G.Rect>)
    ensures mapping.Keys == fixedMapping.Keys
    ensures mapping == FlipAll(fixedMapping, fixedBounds)
  {
    var bounds := G.R(I2F(fixedBounds.min.x), I2F(fixedBounds.min.y), I2F(fixedBounds.max.x), I2F(fixedBounds.max.y));
    mapping := map[];
    var todo := fixedMapping.Keys;
    while todo != {}
      invariant todo <= fixedMapping.Keys
      invariant mapping.Keys == fixedMapping.Keys - todo
      invariant forall r :: r in mapping ==> mapping[r] == FlipFrame(ToReal(fixedBounds), fixedMapping[r].frame)
      decreases |todo|
    {
      NonEmptyHasMember(todo);
      var r :| r in todo;
      var fg := fixedMapping[r];
      var flipped := G.R(
        I2F(fg.frame.min.x),
        bounds.max.y - (I2F(fg.frame.min.y) - bounds.min.y),
        I2F(fg.frame.max.x),
        bounds.max.y - (I2F(fg.frame.max.y) - bounds.min.y)
      ).Norm();
      assert flipped == FlipFrame(bounds, fg.frame);
      mapping := mapping[r := flipped];
      todo := todo - {r};
    }
    FlipAllUnique(mapping, fixedMapping, fixedBounds);
  }

  // ---------------------------------------------------------------------
  // The layout part of `ToAtlasData`
  // ---------------------------------------------------------------------

  /** The canvas to paint into and the flipped frame of every glyph. */
  datatype AtlasLayout = AtlasLayout(canvas: ImageRect, frames: map<Rune, G.Rect>)

  /** No two distinct runes have overlapping flipped frames. */
  ghost predicate FlippedDisjoint(m: map<Rune, G.Rect>) {
    forall r, s :: r in m && s in m && r != s ==> !G.Overlaps(m[r], m[s])
  }

  /**
    `ToAtlasData` from the rune ranges on, without painting: expand the
    ranges, pack at the squarest width with two pixels of padding, size the
    canvas and flip the frames.  The runes and the chosen width are ghosts so
    that the contract can name them.
  */
  method ToAtlasLayout(face: Face, ranges: seq<RuneRange>)
    returns (res: Result<AtlasLayout, RangeError>, ghost runes: seq<Rune>, ghost width: Int26_6)
    ensures res.Failure? <==> !AllValid(ranges)
    ensures res.Failure? ==> FirstInvalid(ranges, res.error)
    ensures res.Success? ==>
      && AllValid(ranges)
      && (forall x :: x in runes <==> x in Covered(ranges))
      && Distinct(runes)
      && 0 <= width <= SearchLimit
      && (width < SearchLimit ==> PacksWide(face, runes, I(2), width))
      && (width > 0 ==> !PacksWide(face, runes, I(2), width - 1))
      && ((forall a, b :: 0 <= a <= b < SearchLimit && PacksWide(face, runes, I(2), a) ==> PacksWide(face, runes, I(2), b)) ==>
            (forall w :: 0 <= w < SearchLimit ==> (PacksWide(face, runes, I(2), w) <==> width <= w)))
      && var st := Pack(face, runes, I(2), width);
      && res.value.canvas == CanvasRect(st.bounds)
      && res.value.frames.Keys == st.mapping.Keys
      && res.value.frames.Keys == set r | r in Covered(ranges) && face.glyphBounds(r).Some?
      && res.value.frames == FlipAll(st.mapping, st.bounds)
      && (InkWellFormed(face) ==>
            && CanvasFixed(res.value.canvas) == st.bounds
            && forall r :: r in res.value.frames && !st.mapping[r].frame.Empty() ==>
                 G.Contains(ToReal(st.bounds), res.value.frames[r]))
      && (InkWithinLine(face) ==> FlippedDisjoint(res.value.frames))
  {
    runes := [];
    width := 0;
    var rs := RuneRangesToRunes(ranges);
    if rs.Failure? {
      return Failure(rs.error), runes, width;
    }
    var rns := rs.value;
    runes := rns;
    var fixedMapping, fixedBounds, w := MakeSquareMapping(face, rns, I(2));
    width := w;
    var canvas := CanvasRect(fixedBounds);
    var mapping := FlipFrames(fixedMapping, fixedBounds);
    PackKeys(face, runes, I(2), width);
    if InkWellFormed(face) {
      PackCanvas(face, runes, I(2), width);
      LayoutFramesPlaced(face, runes, width);
    }
    res := Success(AtlasLayout(canvas, mapping));
  }

  /**
    For a face whose ink boxes are not inverted, every flipped frame lies within
    the atlas bounds; when they also stay within the line metrics, no two
    flipped frames overlap.
  */
  lemma LayoutFramesPlaced(face: Face, runes: seq<Rune>, width: Int26_6)
    requires InkWellFormed(face)
    ensures var st := Pack(face, runes, I(2), width);
      var m := FlipAll(st.mapping, st.bounds);
      && (forall r :: r in m && !st.mapping[r].frame.Empty() ==> G.Contains(ToReal(st.bounds), m[r]))
      && (InkWithinLine(face) ==> FlippedDisjoint(m))
  {
    var st := Pack(face, runes, I(2), width);
    var m := FlipAll(st.mapping, st.bounds);
    PackWellFormed(face, runes, I(2), width);
    PackBoundsContainFrames(face, runes, I(2), width);
    forall r | r in m && !st.mapping[r].frame.Empty()
      ensures G.Contains(ToReal(st.bounds), m[r])
    {
      FlipStaysInside(st.bounds, st.mapping[r].frame);
    }
    if InkWithinLine(face) {
      PackNoOverlap(face, runes, I(2), width);
      forall r, s | r in m && s in m && r != s
        ensures !G.Overlaps(m[r], m[s])
      {
        FlipKeepsOverlap(st.bounds, st.mapping[r].frame, st.mapping[s].frame);
      }
    }
  }
}
