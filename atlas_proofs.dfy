/**
  What the row packer of atlas.go guarantees, proved about the fold `Pack`
  that `MakeMapping` computes: which runes end up in the mapping, the pixel
  alignment and size of every frame, how consecutive placements follow one
  another along a row and across rows, what the returned bounds are, and that
  placed frames do not overlap.
*/
module AtlasProofs {
  import opened Wrappers
  import opened Fixed
  import opened Atlas

  /** The frames of a placement history, in order. */
  function Frames(ps: seq<Placement>): (fs: seq<Rect>)
    ensures |fs| == |ps| && forall i :: 0 <= i < |ps| ==> fs[i] == ps[i].glyph.frame
  {
    seq(|ps|, i requires 0 <= i < |ps| => ps[i].glyph.frame)
  }

  /** The bounds accumulator of `makeMapping`: `Union` folded over `fs` from the zero rectangle. */
  function UnionAll(fs: seq<Rect>): Rect
    decreases |fs|
  {
    if fs == [] then ZeroRect else UnionAll(fs[..|fs| - 1]).Union(fs[|fs| - 1])
  }

  // ---------------------------------------------------------------------
  // Unfolding `Pack` one rune at a time
  // ---------------------------------------------------------------------

  /** `Pack` over `runes + [r]` is one more `Step`. */
  lemma PackSnoc(face: Face, runes: seq<Rune>, r: Rune, padding: Int26_6, width: Int26_6)
    ensures Pack(face, runes + [r], padding, width) == Step(face, padding, width, Pack(face, runes, padding, width), r)
  {
    assert (runes + [r])[..|runes|] == runes;
  }

  // ---------------------------------------------------------------------
  // Which runes are in the mapping
  // ---------------------------------------------------------------------

  /**
    A rune the face has no glyph for is skipped: packing it changes neither
    the pen, nor the bounds, nor the mapping.
  */
  lemma PackSkipsMissing(face: Face, runes: seq<Rune>, r: Rune, padding: Int26_6, width: Int26_6)
    requires face.glyphBounds(r).None?
    ensures Pack(face, runes + [r], padding, width) == Pack(face, runes, padding, width)
  {
    PackSnoc(face, runes, r, padding, width);
  }

  /** The mapping holds exactly the input runes the face has bounds for. */
  lemma {:induction false} PackKeys(face: Face, runes: seq<Rune>, padding: Int26_6, width: Int26_6)
    ensures Pack(face, runes, padding, width).mapping.Keys == set r | r in runes && face.glyphBounds(r).Some?
  {
    if runes != [] {
      var init, last := runes[..|runes| - 1], runes[|runes| - 1];
      PackKeys(face, init, padding, width);
      assert runes == init + [last];
      assert forall r :: r in runes <==> r in init || r == last;
    }
  }

  /**
    A rune given more than once keeps the placement of its last occurrence,
    made with the pen where the runes before that occurrence left it.
  */
  lemma {:induction false} PackLastPlacement(face: Face, runes: seq<Rune>, padding: Int26_6, width: Int26_6, k: nat)
    requires k < |runes| && face.glyphBounds(runes[k]).Some?
    requires forall j :: k < j < |runes| ==> runes[j] != runes[k]
    ensures runes[k] in Pack(face, runes, padding, width).mapping
    ensures Pack(face, runes, padding, width).mapping[runes[k]]
         == PlaceGlyph(Pack(face, runes[..k], padding, width).dot, face.glyphBounds(runes[k]).value)
  {
    var init := runes[..|runes| - 1];
    if k < |runes| - 1 {
      assert init[..k] == runes[..k];
      PackLastPlacement(face, init, padding, width, k);
    } else {
      assert init == runes[..k];
    }
  }

  // ---------------------------------------------------------------------
  // Pixel alignment and frame sizes
  // ---------------------------------------------------------------------

  /** A glyph whose pen and frame lie on whole pixel boundaries. */
  predicate GlyphAligned(g: FixedGlyph) {
    g.dot.IsAligned() && g.frame.IsAligned()
  }

  /**
    After every rune the pen is on a whole pixel, and so is every corner of the
    bounds and of every frame placed and every pen recorded.
  */
  lemma {:induction false} PackAligned(face: Face, runes: seq<Rune>, padding: Int26_6, width: Int26_6)
    ensures var st := Pack(face, runes, padding, width);
      && st.dot.IsAligned()
      && st.bounds.IsAligned()
      && (forall r :: r in st.mapping ==> GlyphAligned(st.mapping[r]))
      && (forall i :: 0 <= i < |st.placed| ==> GlyphAligned(st.placed[i].glyph))
  {
    if runes != [] {
      var init, last := runes[..|runes| - 1], runes[|runes| - 1];
      PackAligned(face, init, padding, width);
      var st := Pack(face, init, padding, width);
      if face.glyphBounds(last).Some? {
        var g := PlaceGlyph(st.dot, face.glyphBounds(last).value);
        var f := PixelFrame(face.glyphBounds(last).value.bounds);
        assert g.dot == Point(st.dot.x - f.min.x, st.dot.y);
        assert GlyphAligned(g);
      }
    }
  }

  /**
    Every mapped glyph has the width and height of its rune's ink box with the
    minimum corner floored and the maximum corner ceiled to whole pixels, and
    the advance the face reported.
  */
  lemma {:induction false} PackFrameSizes(face: Face, runes: seq<Rune>, padding: Int26_6, width: Int26_6)
    ensures var m := Pack(face, runes, padding, width).mapping;
      forall r :: r in m ==>
        && face.glyphBounds(r).Some?
        && var b := face.glyphBounds(r).value.bounds;
        && m[r].frame.Dx() == I(Ceil(b.max.x) - Floor(b.min.x))
        && m[r].frame.Dy() == I(Ceil(b.max.y) - Floor(b.min.y))
        && m[r].advance == face.glyphBounds(r).value.advance
  {
    if runes != [] {
      PackFrameSizes(face, runes[..|runes| - 1], padding, width);
    }
  }

  // ---------------------------------------------------------------------
  // Rows
  // ---------------------------------------------------------------------

  /** The pen at which a placement was made. */
  function PenOf(p: Placement): Point {
    Point(p.glyph.frame.min.x, p.glyph.dot.y)
  }

  /**
    Where the pen goes after placement `p`: to the start of a new row, below by
    the line height plus padding rounded up, when `p` wrapped; otherwise along
    the row to the frame's right edge plus padding, rounded up.
  */
  predicate PenAfter(face: Face, padding: Int26_6, p: Placement, pen: Point) {
    if p.wrapped then pen.x == 0 && pen.y == I(Ceil(p.glyph.dot.y + face.ascent + face.descent + padding))
    else pen.y == p.glyph.dot.y && pen.x == I(Ceil(p.glyph.frame.max.x + padding))
  }

  /**
    How the placements of one packing chain together: the first is made at the
    origin, a row ends exactly after a frame reaching `width`, and each
    placement (and the final pen) is where the one before it sent the pen.
  */
  lemma {:induction false} PackRows(face: Face, runes: seq<Rune>, padding: Int26_6, width: Int26_6)
    ensures var st := Pack(face, runes, padding, width);
      var ps := st.placed;
      && (ps == [] ==> st.dot == Point(0, 0))
      && (ps != [] ==> PenOf(ps[0]) == Point(0, 0) && PenAfter(face, padding, ps[|ps| - 1], st.dot))
      && (forall i :: 0 <= i < |ps| ==> (ps[i].wrapped <==> ps[i].glyph.frame.max.x >= width))
      && (forall i :: 0 <= i < |ps| - 1 ==> PenAfter(face, padding, ps[i], PenOf(ps[i + 1])))
  {
    if runes != [] {
      var init, last := runes[..|runes| - 1], runes[|runes| - 1];
      PackRows(face, init, padding, width);
      var st := Pack(face, init, padding, width);
      if face.glyphBounds(last).Some? {
        var g := PlaceGlyph(st.dot, face.glyphBounds(last).value);
        var ps' := Pack(face, runes, padding, width).placed;
        assert ps' == st.placed + [Placement(last, g, g.frame.max.x >= width)];
        assert PenOf(ps'[|ps'| - 1]) == st.dot;
      }
    }
  }

  /**
    The left edges that follow from the chaining: the first glyph and the first
    glyph of every new row start at 0; along a row the next glyph starts no
    further left than the previous frame's right edge plus padding, and less
    than a pixel beyond it; the pen moves down by at least the line height plus
    padding on a wrap.
  */
  lemma PackLeftEdges(face: Face, runes: seq<Rune>, padding: Int26_6, width: Int26_6)
    ensures var ps := Pack(face, runes, padding, width).placed;
      && (ps != [] ==> ps[0].glyph.frame.min.x == 0 && ps[0].glyph.dot.y == 0)
      && forall i :: 0 <= i < |ps| - 1 ==>
           if ps[i].glyph.frame.max.x >= width then
             && ps[i + 1].glyph.frame.min.x == 0
             && ps[i + 1].glyph.dot.y >= ps[i].glyph.dot.y + face.ascent + face.descent + padding
           else
             && ps[i + 1].glyph.dot.y == ps[i].glyph.dot.y
             && ps[i].glyph.frame.max.x + padding <= ps[i + 1].glyph.frame.min.x < ps[i].glyph.frame.max.x + padding + 64
  {
    PackRows(face, runes, padding, width);
  }

  /**
    The doc comment of `makeMapping` promises that no glyph lies fully to the
    right of `width`; what the code guarantees is that every glyph starts at 0
    or less than `padding` plus a pixel past `width`.
  */
  lemma PackLeftEdgeBound(face: Face, runes: seq<Rune>, padding: Int26_6, width: Int26_6)
    ensures var ps := Pack(face, runes, padding, width).placed;
      forall i :: 0 <= i < |ps| ==> ps[i].glyph.frame.min.x == 0 || ps[i].glyph.frame.min.x < width + padding + 63
  {
    PackRows(face, runes, padding, width);
    var ps := Pack(face, runes, padding, width).placed;
    forall i | 0 < i < |ps|
      ensures ps[i].glyph.frame.min.x == 0 || ps[i].glyph.frame.min.x < width + padding + 63
    {
      assert PenAfter(face, padding, ps[i - 1], PenOf(ps[i]));
    }
  }

  /** A face with one 1x1-pixel glyph for every rune and zero line metrics. */
  function PixelFace(): Face {
    Face(r => Some(InkBox(Rect(Point(0, 0), Point(64, 64)), 64)), 0, 0)
  }

  /** A rune the face has a glyph for is placed at the pen, which then moves on. */
  lemma StepPlaces(face: Face, padding: Int26_6, width: Int26_6, st: PackState, r: Rune, ink: InkBox)
    requires face.glyphBounds(r) == Some(ink)
    ensures Step(face, padding, width, st, r).dot == NextDot(face, padding, width, st.dot, PlaceGlyph(st.dot, ink).frame)
    ensures Step(face, padding, width, st, r).mapping == st.mapping[r := PlaceGlyph(st.dot, ink)]
  {
  }

  /**
    With padding, a glyph can lie fully to the right of `width`: when a frame
    ends short of `width` but within `padding` of it, the row goes on and the
    next glyph starts at or past `width`.
  */
  lemma GlyphPastWidth(face: Face, runes: seq<Rune>, padding: Int26_6, width: Int26_6, i: nat)
    requires i + 1 < |Pack(face, runes, padding, width).placed|
    requires Pack(face, runes, padding, width).placed[i].glyph.frame.max.x < width
    requires width <= Pack(face, runes, padding, width).placed[i].glyph.frame.max.x + padding
    ensures Pack(face, runes, padding, width).placed[i + 1].glyph.frame.min.x >= width
  {
    PackLeftEdges(face, runes, padding, width);
  }

  /**
    Packing a pixel-wide glyph at width 65 (just over one pixel) with a padding
    of 2 pixels: its frame ends at 64, so no row break follows, and the pen
    moves to 192, three pixels right of `width`.
  */
  lemma PixelGlyphPen(face: Face, padding: Int26_6, width: Int26_6, ink: InkBox)
    requires face.glyphBounds(1) == Some(ink) && ink.bounds == Rect(Point(0, 0), Point(64, 64))
    requires padding == 128 && width == 65
    ensures Pack(face, [1], padding, width).dot == Point(192, 0)
  {
    PackSnoc(face, [], 1, padding, width);
    assert [] + [1] == [1];
    StepPlaces(face, padding, width, Start, 1, ink);
    assert PlaceGlyph(Point(0, 0), ink).frame == Rect(Point(0, 0), Point(64, 64));
  }

  /** The instance of `PixelGlyphPen` for `PixelFace`: the next glyph would start at pixel 3. */
  lemma PaddingMovesPenPastWidth()
    ensures Pack(PixelFace(), [1], 128, 65).dot == Point(192, 0)
  {
    PixelGlyphPen(PixelFace(), 128, 65, InkBox(Rect(Point(0, 0), Point(64, 64)), 64));
  }

  /**
    With non-negative padding, along one row (no frame reaching `width` in
    between) and for ink boxes that are not inverted, every later glyph starts
    at or right of an earlier frame's right edge plus padding: frames in one row
    do not overlap horizontally.
  */
  lemma {:induction false} PackRowOrdered(face: Face, runes: seq<Rune>, padding: Int26_6, width: Int26_6, i: nat, j: nat)
    requires padding >= 0
    requires InkWellFormed(face)
    requires i < j < |Pack(face, runes, padding, width).placed|
    requires forall k :: i <= k < j ==> Pack(face, runes, padding, width).placed[k].glyph.frame.max.x < width
    ensures var ps := Pack(face, runes, padding, width).placed;
      ps[j].glyph.frame.min.x >= ps[i].glyph.frame.max.x + padding
    decreases j - i
  {
    var ps := Pack(face, runes, padding, width).placed;
    PackLeftEdges(face, runes, padding, width);
    if j > i + 1 {
      PackRowOrdered(face, runes, padding, width, i, j - 1);
      PackPlacedFromFace(face, runes, padding, width);
      var q := ps[j - 1];
      assert q.glyph.frame.WellFormed();
    }
  }

  /** Every placement is a glyph the face reported, placed at the pen it was made at. */
  ghost predicate PlacedFromFace(face: Face, ps: seq<Placement>) {
    forall i :: 0 <= i < |ps| ==>
      && face.glyphBounds(ps[i].rune).Some?
      && ps[i].glyph == PlaceGlyph(PenOf(ps[i]), face.glyphBounds(ps[i].rune).value)
  }

  /** The placements of any packing are placed glyphs of the face. */
  lemma {:induction false} PackPlacedFromFace(face: Face, runes: seq<Rune>, padding: Int26_6, width: Int26_6)
    ensures PlacedFromFace(face, Pack(face, runes, padding, width).placed)
  {
    if runes != [] {
      var init, last := runes[..|runes| - 1], runes[|runes| - 1];
      PackPlacedFromFace(face, init, padding, width);
      var st := Pack(face, init, padding, width);
      var ps' := Pack(face, runes, padding, width).placed;
      if face.glyphBounds(last).Some? {
        var g := PlaceGlyph(st.dot, face.glyphBounds(last).value);
        assert ps' == st.placed + [Placement(last, g, g.frame.max.x >= width)];
        var n := |ps'| - 1;
        assert PenOf(ps'[n]) == st.dot;
        assert ps'[n].glyph == PlaceGlyph(PenOf(ps'[n]), face.glyphBounds(ps'[n].rune).value);
        assert forall i :: 0 <= i < n ==> ps'[i] == st.placed[i];
      }
    }
  }

  /**
    When the line height plus padding is not negative, the pen never moves up:
    later placements are made at the same or a larger `dot.Y`.
  */
  lemma {:induction false} PackRowsDescend(face: Face, runes: seq<Rune>, padding: Int26_6, width: Int26_6, i: nat, j: nat)
    requires face.ascent + face.descent + padding >= 0
    requires i <= j < |Pack(face, runes, padding, width).placed|
    ensures var ps := Pack(face, runes, padding, width).placed;
      ps[i].glyph.dot.y <= ps[j].glyph.dot.y
    decreases j - i
  {
    if i < j {
      PackRowsDescend(face, runes, padding, width, i, j - 1);
      PackLeftEdges(face, runes, padding, width);
    }
  }

  // ---------------------------------------------------------------------
  // Bounds
  // ---------------------------------------------------------------------

  /** The returned bounds is the `Union` fold of the placed frames, in order. */
  lemma {:induction false} PackBounds(face: Face, runes: seq<Rune>, padding: Int26_6, width: Int26_6)
    ensures var st := Pack(face, runes, padding, width);
      st.bounds == UnionAll(Frames(st.placed))
  {
    if runes != [] {
      var init := runes[..|runes| - 1];
      PackBounds(face, init, padding, width);
      var st, st' := Pack(face, init, padding, width), Pack(face, runes, padding, width);
      if st'.placed != st.placed {
        assert Frames(st'.placed)[..|st.placed|] == Frames(st.placed);
      }
    }
  }

  /** A rectangle holding a non-empty one is not empty. */
  lemma ContainsNonEmpty(outer: Rect, inner: Rect)
    requires Contains(outer, inner) && !inner.Empty()
    ensures !outer.Empty()
  {
  }

  /** The fold holds every non-empty frame folded into it. */
  lemma {:induction false} UnionAllContains(fs: seq<Rect>)
    ensures forall k :: 0 <= k < |fs| && !fs[k].Empty() ==> Contains(UnionAll(fs), fs[k])
    decreases |fs|
  {
    if fs != [] {
      var init := fs[..|fs| - 1];
      UnionAllContains(init);
      forall k | 0 <= k < |fs| - 1 && !fs[k].Empty()
        ensures Contains(UnionAll(fs), fs[k])
      {
        assert init[k] == fs[k];
        ContainsNonEmpty(UnionAll(init), fs[k]);
      }
    }
  }

  /** When exactly one frame is non-empty, the fold is that frame. */
  lemma {:induction false} UnionAllSingle(fs: seq<Rect>, k: nat)
    requires k < |fs| && !fs[k].Empty()
    requires forall j :: 0 <= j < |fs| && j != k ==> fs[j].Empty()
    ensures UnionAll(fs) == fs[k]
    decreases |fs|
  {
    var init := fs[..|fs| - 1];
    if k < |fs| - 1 {
      UnionAllSingle(init, k);
    } else {
      UnionAllEmpty(init);
    }
  }

  /**
    When every frame is empty, the fold is the last frame (the zero rectangle
    for none), because `Union` with an empty receiver returns its argument.
  */
  lemma UnionAllEmpty(fs: seq<Rect>)
    requires forall j :: 0 <= j < |fs| ==> fs[j].Empty()
    ensures UnionAll(fs) == if fs == [] then ZeroRect else fs[|fs| - 1]
  {
  }

  /**
    The bounds hold the frame of every mapped glyph that is not empty, and the
    bounds is not empty when some mapped frame is not.
  */
  ghost predicate BoundsHoldFrames(st: PackState) {
    forall r :: r in st.mapping && !st.mapping[r].frame.Empty() ==>
      Contains(st.bounds, st.mapping[r].frame) && !st.bounds.Empty()
  }

  /** After any packing, the bounds hold every non-empty mapped frame. */
  lemma {:induction false} PackBoundsContainFrames(face: Face, runes: seq<Rune>, padding: Int26_6, width: Int26_6)
    ensures BoundsHoldFrames(Pack(face, runes, padding, width))
  {
    if runes != [] {
      var init := runes[..|runes| - 1];
      PackBoundsContainFrames(face, init, padding, width);
      var st := Pack(face, init, padding, width);
      var st' := Pack(face, runes, padding, width);
      forall r | r in st'.mapping && !st'.mapping[r].frame.Empty()
        ensures Contains(st'.bounds, st'.mapping[r].frame) && !st'.bounds.Empty()
      {
        if r in st.mapping && st'.mapping[r] == st.mapping[r] {
          ContainsNonEmpty(st.bounds, st.mapping[r].frame);
          if st'.bounds != st.bounds {
            ContainsTransitive(st'.bounds, st.bounds, st.mapping[r].frame);
          }
        }
      }
    }
  }

  /** The face's ink boxes are not inverted. */
  ghost predicate InkWellFormed(face: Face) {
    forall r :: face.glyphBounds(r).Some? ==> face.glyphBounds(r).value.bounds.WellFormed()
  }

  /** With ink boxes that are not inverted, no frame and not the bounds are inverted. */
  lemma {:induction false} PackWellFormed(face: Face, runes: seq<Rune>, padding: Int26_6, width: Int26_6)
    requires InkWellFormed(face)
    ensures var st := Pack(face, runes, padding, width);
      st.bounds.WellFormed() && forall r :: r in st.mapping ==> st.mapping[r].frame.WellFormed()
  {
    if runes != [] {
      PackWellFormed(face, runes[..|runes| - 1], padding, width);
    }
  }

  // ---------------------------------------------------------------------
  // No overlap
  // ---------------------------------------------------------------------

  /**
    The face's ink boxes are not inverted and stay between the ascent above
    the baseline and the descent below it (y grows downwards).
  */
  ghost predicate InkWithinLine(face: Face) {
    && InkWellFormed(face)
    && forall r :: face.glyphBounds(r).Some? ==>
         && -face.ascent <= face.glyphBounds(r).value.bounds.min.y
         && face.glyphBounds(r).value.bounds.max.y <= face.descent
  }

  /**
    Frame `f` is out of the way of anything placed from `pen` on: it lies
    left of the pen and no lower than the pen's row can reach, or wholly above
    the pen's row.
  */
  predicate BehindPen(face: Face, f: Rect, pen: Point) {
    || (f.max.x <= pen.x && f.max.y <= pen.y + I(Ceil(face.descent)))
    || f.max.y <= pen.y - I(Ceil(face.ascent))
  }

  /** No two distinct runes of the mapping have overlapping frames. */
  ghost predicate FramesDisjoint(m: map<Rune, FixedGlyph>) {
    forall r, s :: r in m && s in m && r != s ==> !Overlaps(m[r].frame, m[s].frame)
  }

  /** `Floor` of a negated value is the negated `Ceil`. */
  lemma FloorNeg(a: Int26_6)
    ensures Floor(-a) == -Ceil(a)
  {
  }

  /** A frame behind the pen does not overlap the glyph placed at the pen. */
  lemma BehindPenClear(face: Face, f: Rect, pen: Point, ink: InkBox)
    requires ink.bounds.WellFormed() && -face.ascent <= ink.bounds.min.y && ink.bounds.max.y <= face.descent
    requires BehindPen(face, f, pen)
    ensures !Overlaps(f, PlaceGlyph(pen, ink).frame)
  {
    var g := PlaceGlyph(pen, ink).frame;
    FloorNeg(face.ascent);
    assert Floor(-face.ascent) <= Floor(ink.bounds.min.y);
    assert g.min.y >= pen.y - I(Ceil(face.ascent));
  }

  /** After a glyph is placed, it and every frame behind the old pen are behind the new pen. */
  lemma BehindNextPen(face: Face, padding: Int26_6, width: Int26_6, pen: Point, ink: InkBox, f: Rect)
    requires padding >= 126
    requires ink.bounds.WellFormed() && -face.ascent <= ink.bounds.min.y && ink.bounds.max.y <= face.descent
    requires BehindPen(face, f, pen) || f == PlaceGlyph(pen, ink).frame
    ensures BehindPen(face, f, NextDot(face, padding, width, pen, PlaceGlyph(pen, ink).frame))
  {
    var g := PlaceGlyph(pen, ink).frame;
    var next := NextDot(face, padding, width, pen, g);
    CeilMonotone(ink.bounds.max.y, face.descent);
    assert g.max.y <= pen.y + I(Ceil(face.descent));
    assert g.min.x <= g.max.x;
    CeilBounds(face.ascent);
    CeilBounds(face.descent);
  }

  /**
    Every mapped frame is behind the final pen, and no two mapped frames
    overlap, given the conditions of `PackNoOverlap`.
  */
  lemma {:induction false} PackBehindPen(face: Face, runes: seq<Rune>, padding: Int26_6, width: Int26_6)
    requires InkWithinLine(face)
    requires padding >= 126
    ensures var st := Pack(face, runes, padding, width);
      && FramesDisjoint(st.mapping)
      && forall r :: r in st.mapping ==> BehindPen(face, st.mapping[r].frame, st.dot)
  {
    if runes != [] {
      var init, last := runes[..|runes| - 1], runes[|runes| - 1];
      PackBehindPen(face, init, padding, width);
      var st := Pack(face, init, padding, width);
      var st' := Pack(face, runes, padding, width);
      if face.glyphBounds(last).Some? {
        var ink := face.glyphBounds(last).value;
        var g := PlaceGlyph(st.dot, ink);
        forall r | r in st'.mapping
          ensures BehindPen(face, st'.mapping[r].frame, st'.dot)
        {
          BehindNextPen(face, padding, width, st.dot, ink, st'.mapping[r].frame);
        }
        forall r, s | r in st'.mapping && s in st'.mapping && r != s
          ensures !Overlaps(st'.mapping[r].frame, st'.mapping[s].frame)
        {
          if r == last {
            BehindPenClear(face, st.mapping[s].frame, st.dot, ink);
          } else if s == last {
            BehindPenClear(face, st.mapping[r].frame, st.dot, ink);
          }
        }
      }
    }
  }

  /**
    No two glyphs of the mapping overlap, when the face's ink boxes are not
    inverted and lie within its line metrics and the padding is at least 126
    (just under two pixels; `ToAtlasData` packs with two pixels).  Along a row
    the padding separates frames; between rows, the row advance of line height
    plus padding rounded up covers the ascent and descent each rounded up.
  */
  lemma PackNoOverlap(face: Face, runes: seq<Rune>, padding: Int26_6, width: Int26_6)
    requires InkWithinLine(face)
    requires padding >= 126
    ensures FramesDisjoint(Pack(face, runes, padding, width).mapping)
  {
    PackBehindPen(face, runes, padding, width);
  }
}
