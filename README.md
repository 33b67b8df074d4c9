# atlas-packer glyph layout, in Dafny

atlas-packer turns a font and a list of character ranges into a texture atlas: one image
holding every requested glyph, plus a per-rune frame that says where each glyph lies in
that image. This project models the layout half of that job and proves what it
guarantees. The font face appears only through what the layout asks of it: each rune's
ink box and advance, and the line ascent and descent.

- **Range expansion** (`runeRangesToRunes`). Every configured range `[low, high]` must
  have endpoints of exactly one rune each. The first range that does not aborts the
  call. Otherwise the result is every rune of every range, each once, in map order.
- **Row packer** (`makeMapping`). A single left-to-right pass in 26.6 fixed point.
  - Each ink box is rounded outward to whole pixels.
  - Its left edge is put at the pen, and it is added to the running bounds by union.
  - The pen then moves past the frame plus the padding, rounded up to a whole pixel.
  - A frame whose right edge reaches the row width ends the row.
- **Square planner** (`makeSquareMapping`). A `sort.Search` bisection over widths
  `[0, 2^26)` for the first width whose packing is at least as wide as high. It then
  packs once more at that width.
- **Canvas and flip** (the layout part of `ToAtlasData`).
  - The canvas is the bounds floored and ceiled to whole pixels.
  - Every frame is mirrored top to bottom inside the bounds, in pixels, and normalised.

Modules, one per file:

- `Wrappers`: `Option` and `Result`.
- `Fixed`: the semantics of `golang.org/x/image/math/fixed`, written out as definitions.
- `Geometry`: the engine's `geometry.Rect` with `R` and `Norm`, over exact reals.
- `Atlas`: atlas.go.
  - The single-rune update `Step` and its fold `Pack` specify the packer.
  - The imperative `MakeMapping` loop is proved equal to `Pack`.
  - `Search` is the bisection, and `MakeSquareMapping` instantiates it.
- `AtlasProofs`: what the packer guarantees, as lemmas about `Pack`.
- `Convert`: convert.go.
  - The imperative `RuneRangesToRunes` and `FlipFrames` loops.
  - The canvas rectangle and the flip.
  - `ToAtlasLayout`, which composes them.

### Where the comments and the code disagree

The model follows the code here.

- **Glyphs right of `width`.** The doc comment of `makeMapping` (atlas.go:27-29) says no
  glyph lies fully to the right of `width`. That fails when the padding is larger than a
  frame's distance to `width`.
  - The row goes on only while a frame ends short of `width`, but the next pen position
    is that frame's end plus the padding, rounded up.
  - So with padding, the next glyph can start at or past `width` (`GlyphPastWidth`).
  - Concretely: a pixel-wide glyph at width 65 with 2 pixels of padding sends the pen to
    192, and the next glyph starts there (`PaddingMovesPenPastWidth`).
  - What the code guarantees instead is `PackLeftEdgeBound`.
- **The last frame of a row crosses `width`.** The frame that ends a row is the one
  whose right edge reaches or passes `width` (atlas.go:65), so a row's last frame can
  extend past `width` (`PackRows`).
- **No overlap needs conditions.** No two frames overlap only under three conditions,
  which `PackNoOverlap` states:
  - the ink boxes are not inverted;
  - they lie within the face's ascent and descent;
  - the padding is at least 126/64 of a pixel. `ToAtlasData` packs with 2 pixels.

## Model

| member | source | states |
|---|---|---|
| Fixed.I | atlas.go:62 | `fixed.I(n)` is pixel-aligned, and rounding it either way gives `n` back |
| Fixed.Floor | atlas.go:44 | `x.Floor()` is the whole pixel count `n` with `64n <= x < 64n + 64` |
| Fixed.Ceil | atlas.go:45 | `x.Ceil()` is the whole pixel count `n` with `64n - 64 < x <= 64n` |
| Fixed.P | atlas.go:44-45 | `fixed.P(a, b)` is an aligned point whose coordinates floor to `a` and `b` |
| Fixed.CeilBounds | atlas.go:60-62 | rounding the pen up to a pixel never moves it back, moves it by less than a pixel, and aligns it |
| Fixed.Rect.Add | atlas.go:49 | translating a rectangle keeps its size, emptiness and orientation and moves its min corner by `p` |
| Fixed.Rect.Union | atlas.go:56 | union ignores an empty operand, holds every non-empty operand, and is non-empty when either operand is |
| Fixed.UnionLeast | atlas.go:56 | the union of two non-empty rectangles lies within every rectangle holding both |
| Atlas.I2F | atlas.go:78-80 | `i2f` scales by 1/64 exactly; an aligned value becomes a whole pixel count |
| Atlas.PixelFrame | atlas.go:43-46 | the frame is the ink box rounded outward: aligned, holding the box, less than a pixel larger on each side, and not inverted when the box is not |
| Atlas.PlaceGlyph | atlas.go:48-55 | the frame's left edge is at the pen, its size is the rounded ink box's, the pen Y is kept, and the advance is the face's |
| Atlas.NextDot | atlas.go:58-72 | after a frame reaching `width`, the pen goes to x 0 on the next row: Y plus line height plus padding, rounded up. Otherwise it stays in the row, at the frame's end plus padding rounded up to a pixel |
| Atlas.Step | atlas.go:36-72 | a rune without a glyph changes nothing. A rune with one is placed at the pen, recorded in the mapping, and joins the bounds and the history; then the pen moves on |
| Atlas.MakeMapping | atlas.go:30-76 | the loop returns exactly the mapping and bounds of the fold `Pack` over the runes |
| Atlas.Search | atlas.go:19-23 | `sort.Search` returns `i` in `[0, n]` with `f(i)` when `i < n` and `!f(i-1)` when `i > 0`; for a monotone `f`, it is the first index where `f` holds |
| Atlas.BisectionPartition | atlas.go:19-23 | an index meeting the bisection invariant splits `[0, n)` into where a monotone predicate fails and where it holds |
| Atlas.MakeSquareMapping | atlas.go:18-25 | the width is in `[0, 2^26]`. Below `2^26` it packs at least as wide as high, and one less does not. For monotone packing it is the least such width. The result is the packing at that width |
| AtlasProofs.PackSkipsMissing | atlas.go:37-40 | a rune the face has no bounds for leaves pen, bounds and mapping unchanged |
| AtlasProofs.PackKeys | atlas.go:36-40 | the mapping's keys are exactly the input runes the face has bounds for |
| AtlasProofs.PackLastPlacement | atlas.go:51-55 | a repeated rune keeps the placement of its last occurrence, made at the pen the runes before it left |
| AtlasProofs.PackAligned | atlas.go:58-71 | after every rune the pen, the bounds, every mapped glyph and every recorded placement lie on whole pixels |
| AtlasProofs.PackFrameSizes | atlas.go:43-49 | every mapped frame has the size of its ink box with min floored and max ceiled, and the face's advance |
| AtlasProofs.PackRows | atlas.go:34-72 | the first placement is at the origin. A placement ends its row exactly when its frame reaches `width`. Each placement, and the final pen, is where the one before sent the pen |
| AtlasProofs.PackLeftEdges | atlas.go:48-71 | the first glyph and each glyph after a wrap start at 0. The pen moves down by at least line height plus padding on a wrap. In a row, the next glyph starts between the previous frame's end plus padding and a pixel beyond |
| AtlasProofs.PackLeftEdgeBound | atlas.go:58-65 | every glyph starts at 0 or less than `padding` plus a pixel right of `width` |
| AtlasProofs.GlyphPastWidth | atlas.go:58-65 | a frame ending short of `width` but within `padding` of it makes the next glyph start at or past `width` |
| AtlasProofs.PixelGlyphPen | atlas.go:58-65 | after one pixel-wide glyph at width 65 and padding 128, the pen is at 192 on the first row |
| AtlasProofs.PaddingMovesPenPastWidth | atlas.go:58-65 | the same for the face of pixel-sized glyphs |
| AtlasProofs.PackRowOrdered | atlas.go:58-62 | within a row, with padding at least 0 and ink boxes that are not inverted, every later glyph starts at or right of an earlier frame's end plus padding |
| AtlasProofs.PackPlacedFromFace | atlas.go:37-55 | every placement is the face's glyph for its rune, placed at the pen it was made at |
| AtlasProofs.PackRowsDescend | atlas.go:65-72 | when line height plus padding is not negative, later placements never sit on a higher row |
| AtlasProofs.PackBounds | atlas.go:56 | the returned bounds is the `Union` fold of the placed frames from the zero rectangle |
| AtlasProofs.UnionAllContains | atlas.go:56 | the fold holds every non-empty frame folded into it |
| AtlasProofs.UnionAllSingle | atlas.go:56 | when exactly one frame is non-empty, the fold is that frame |
| AtlasProofs.PackBoundsContainFrames | atlas.go:56 | the bounds hold every non-empty mapped frame and are then not empty |
| AtlasProofs.PackWellFormed | atlas.go:43-56 | ink boxes that are not inverted give frames and bounds that are not inverted |
| AtlasProofs.BehindNextPen | atlas.go:58-72 | with padding at least 126, a placed glyph and everything behind the old pen are behind the new pen |
| AtlasProofs.PackBehindPen | atlas.go:36-72 | with ink inside the line metrics and padding at least 126, every mapped frame is behind the final pen, and no two overlap |
| AtlasProofs.PackNoOverlap | atlas.go:36-72 | with ink inside the line metrics and padding at least 126, no two mapped frames overlap |
| Convert.RuneRangesToRunes | convert.go:15-42 | fails exactly when some range has an endpoint that is not one rune, with the first such range as the error. Otherwise it returns every covered rune, each once, and nothing else |
| Convert.CoveredMembers | convert.go:27-32 | a rune is covered exactly when it lies between the ends of some range |
| Convert.SpanMembers | convert.go:30-32 | the inner loop adds exactly the runes from `a` to `b` inclusive |
| Convert.SpanSize | convert.go:30-32 | a range adds `b - a + 1` runes, and none when `a > b` |
| Convert.InvertedRangeAddsNothing | convert.go:30 | a range with `low > high` is not an error and adds nothing |
| Convert.ImageRectangle | convert.go:87-92 | `image.Rect` keeps the given coordinates, ordered so that min <= max on each axis |
| Convert.CanvasRect | convert.go:87-92 | the canvas is ordered. For bounds that are not inverted it is the smallest pixel rectangle holding them |
| Convert.PackCanvas | convert.go:85-92 | with ink boxes that are not inverted, the canvas of the packer's bounds is, in pixels, exactly the bounds and holds every non-empty frame |
| Geometry.Rect.Norm | convert.go:115 | `Norm` orders each axis, keeps each axis' pair of coordinates, keeps absolute width and height, and leaves a normal rectangle alone |
| Convert.Mirror | convert.go:110-115 | the flip gives a normal rectangle of the same absolute size. For a normal one it keeps x and maps `[y0, y1]` to `[Bmin + Bmax - y1, Bmin + Bmax - y0]` |
| Convert.MirrorTwice | convert.go:110-115 | flipping twice gives back the rectangle, normalised |
| Convert.FlipFrameShape | convert.go:109-116 | a flipped frame keeps its x edges, mirrors its y edges inside the bounds, and keeps its width and height in pixels |
| Convert.FlipStaysInside | convert.go:100-116 | a frame that is not inverted and lies inside the bounds stays inside them once flipped |
| Convert.FlipKeepsOverlap | convert.go:109-116 | two flipped frames overlap exactly when the original frames do |
| Convert.FlipFrames | convert.go:100-116 | the loop returns a map with the packer's keys, holding each frame flipped inside the bounds and normalised |
| Convert.ToAtlasLayout | convert.go:79-116 | fails exactly on an invalid range, reporting the first. On success it packs the covered runes, each once, at the bisection width: below `2^26` that width packs at least as wide as high, one less does not, and for monotone packing it is the least such width. It returns the canvas and flipped frames of that packing, keyed by the covered runes the face has glyphs for. With well-formed ink, the canvas is the bounds and frames lie inside it; with ink inside the line metrics, no two frames overlap |
| Convert.LayoutFramesPlaced | convert.go:85-116 | with ink boxes that are not inverted, every non-empty flipped frame lies within the bounds; with ink inside the line metrics, no two flipped frames overlap |

## Left out

- **Resource file.** The bbolt read of the font (convert.go:44-66) is storage I/O.
- **Font loading.** TrueType parsing and face construction (convert.go:68-77) are a
  foreign library; the face is the oracle `Face`.
- **Painting and encoding.** Rasterising and painting glyphs (convert.go:94-98) and
  encoding the picture (convert.go:118-127) are foreign image and codec code.
- main.go, yaml.go and meta.go are not part of this model: process plumbing, YAML
  decoding and plain data. The character ranges are a sequence of string pairs.
- **No floats.** `i2f` and the flip are over exact reals, not IEEE `float64`, so rounding
  is not modelled.
- **No `int32` overflow.** `Int26_6` is an unbounded integer; the widths searched stay
  far below `2^31`.
- **No UTF-8.** Range endpoints are sequences of code points, so `[]rune(s)` is `s`
  itself. Decoding invalid UTF-8 to U+FFFD is not modelled.
- **Map order.** Go map iteration order is an arbitrary choice (`:|`) in
  `RuneRangesToRunes` and `FlipFrames`. The packer takes its rune sequence as given.
- **Error text.** The error is the offending range; the formatted message text is not
  modelled.
- **Outside packages.** The `geometry` package is not part of this model: `R` keeps the
  corners as given, and `Norm` takes per-axis min and max. `image.Rect` is modelled
  after the Go standard library: it swaps coordinates that are out of order.
- **Never computed.** The code adds no space character, computes no maximum glyph
  height, and does not flip `dot` or `advance`, so neither does the model.
- Atlas.MakeSquareMapping: the search predicate calls the specification function
  `Pack`, not the method `MakeMapping`, because a Dafny lambda cannot call a method.
  The two are proved equal. The chosen width is a ghost result.
- Atlas.MakeSquareMapping: it does not promise the least good width outright, because
  the code does not guarantee that packing width grows monotonically with the row
  width. Leastness is stated under that monotonicity as a hypothesis.
- Atlas.Search: Go computes the midpoint as `int(uint(i+j) >> 1)`; the model uses
  `(i + j) / 2`, the same for the non-negative indices involved.
- AtlasProofs.PackNoOverlap: proved only for ink boxes within the line metrics and a
  padding of at least 126. Without these, frames can overlap.
