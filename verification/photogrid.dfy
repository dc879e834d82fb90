/** The photo-grid paper: a fixed grid of cells laid out on a paper at half
    scale for preview, a sparse map from cell index to photo that clicks
    overwrite, and the full-resolution placements of the final grid. */
module PhotoGrid {
  import opened Wrappers
  import opened Geometry

  /** An opaque reference to a loaded pixmap. */
  datatype Photo = Photo(id: nat)

  /** Paper and cell sizes in pixels at print resolution, and the grid shape. */
  datatype GridConfig = GridConfig(paperW: int, paperH: int, w: int, h: int, cols: int, rows: int)

  datatype Cursor = Arrow | PointingHand

  /** Where the final grid draws one photo: its top-left corner and the
      cell size the photo is scaled to fit into. */
  datatype Placement = Placement(x: int, y: int, w: int, h: int, photo: Photo)

  /** The paper widget: its grid, the preview boxes, the cell-to-photo map
      and the photo a click would drop. */
  datatype GridPaper = GridPaper(config: GridConfig, boxes: seq<Rect>, assignments: map<int, Photo>, current: Photo)

  predicate WellFormed(c: GridConfig) {
    1 <= c.cols && 1 <= c.rows && 1 <= c.w && 1 <= c.h
  }

  /** The cells fit on the paper, so no spacing is negative. */
  predicate Fits(c: GridConfig) {
    WellFormed(c) && c.cols * c.w <= c.paperW && c.rows * c.h <= c.paperH
  }

  /** The leftover length of a side split into `n + 1` equal gaps, the
      outer margins included. */
  function Spacing(paper: int, n: int, cell: int): (s: real)
    requires 0 <= n
    ensures (n + 1) as real * s + (n * cell) as real == paper as real
    ensures n * cell <= paper ==> 0.0 <= s
  {
    (paper - n * cell) as real / (n + 1) as real
  }

  /** The horizontal gap of a grid. */
  function SpacingX(c: GridConfig): (s: real)
    requires 0 <= c.cols
  {
    Spacing(c.paperW, c.cols, c.w)
  }

  /** The vertical gap of a grid. */
  function SpacingY(c: GridConfig): (s: real)
    requires 0 <= c.rows
  {
    Spacing(c.paperH, c.rows, c.h)
  }

  /** The grid `setupGrid` hard-codes: 1800x1200 paper, 413x531 cells,
      four columns and two rows. Both spacings come out positive. */
  function SetupGrid(): (c: GridConfig)
    ensures Fits(c)
    ensures 0.0 < SpacingX(c) && 0.0 < SpacingY(c)
  {
    GridConfig(1800, 1200, 413, 531, 4, 2)
  }

  /** Start of the `k`-th cell along a side with gaps `s` and cells `size`. */
  function CellStart(s: real, size: real, k: int): (x: real) {
    s + k as real * (s + size)
  }

  /** Preview box `i`: row `i / cols`, column `i % cols`, everything at half
      scale, each coordinate coerced to int as Qt does, and the size one
      pixel short of half a cell. */
  function PreviewBox(c: GridConfig, i: int): (r: Rect)
    requires WellFormed(c) && 0 <= i
    ensures AbsR(r.x1 as real - CellStart(SpacingX(c) / 2.0, c.w as real / 2.0, i % c.cols)) < 1.0
    ensures AbsR(r.y1 as real - CellStart(SpacingY(c) / 2.0, c.h as real / 2.0, i / c.cols)) < 1.0
    ensures r.x2 - r.x1 + 1 == Trunc(c.w as real / 2.0 - 1.0)
    ensures r.y2 - r.y1 + 1 == Trunc(c.h as real / 2.0 - 1.0)
  {
    var row, col := i / c.cols, i % c.cols;
    var w, h := c.w as real / 2.0, c.h as real / 2.0;
    var sx, sy := SpacingX(c) / 2.0, SpacingY(c) / 2.0;
    RectAt(Trunc(CellStart(sx, w, col)), Trunc(CellStart(sy, h, row)), Trunc(w - 1.0), Trunc(h - 1.0))
  }

  /** All preview boxes, in row-major order. */
  function Boxes(c: GridConfig): (bs: seq<Rect>)
    requires WellFormed(c)
    ensures |bs| == c.cols * c.rows
  {
    seq(c.cols * c.rows, i requires 0 <= i => PreviewBox(c, i))
  }

  /** The loop of `setupGrid` that builds the preview boxes one by one. */
  method SetupBoxes(c: GridConfig) returns (boxes: seq<Rect>)
    requires WellFormed(c)
    ensures |boxes| == c.cols * c.rows
    ensures forall i :: 0 <= i < |boxes| ==> boxes[i] == PreviewBox(c, i)
    ensures boxes == Boxes(c)
  {
    boxes := [];
    var i := 0;
    while i < c.cols * c.rows
      invariant 0 <= i <= c.cols * c.rows
      invariant |boxes| == i
      invariant forall j :: 0 <= j < i ==> boxes[j] == PreviewBox(c, j)
    {
      boxes := boxes + [PreviewBox(c, i)];
      i := i + 1;
    }
  }

  /** The size of the preview pixmap, `QPixmap(paperW / 2, paperH / 2)`. */
  function PreviewPaper(c: GridConfig): (s: Size)
    ensures 0 <= c.paperW ==> 2 * s.w <= c.paperW <= 2 * s.w + 1
    ensures 0 <= c.paperH ==> 2 * s.h <= c.paperH <= 2 * s.h + 1
  {
    Size(Trunc(c.paperW as real / 2.0), Trunc(c.paperH as real / 2.0))
  }

  /** A valid paper widget: boxes as laid out, assignments only at box
      indices. */
  predicate Valid(g: GridPaper) {
    && Fits(g.config)
    && g.boxes == Boxes(g.config)
    && forall k :: k in g.assignments ==> 0 <= k < |g.boxes|
  }

  /** The paper widget as the dialog creates it, dropping `photo`. */
  function NewGridPaper(photo: Photo): (g: GridPaper)
    ensures Valid(g) && g.assignments == map[] && g.current == photo
  {
    GridPaper(SetupGrid(), Boxes(SetupGrid()), map[], photo)
  }

  /** `setPhoto`: the photo the next click drops. */
  function SetPhoto(g: GridPaper, photo: Photo): (r: GridPaper)
    ensures r.current == photo && r.(current := g.current) == g
  {
    g.(current := photo)
  }

  // ---------------------------------------------------------------------
  // Hit-testing

  /** The first box, in index order, that contains `p`. */
  function FirstHit(boxes: seq<Rect>, p: Point): (r: Option<nat>)
    ensures r.Some? ==>
      && r.value < |boxes| && Contains(boxes[r.value], p)
      && forall j :: 0 <= j < r.value ==> !Contains(boxes[j], p)
    ensures r.None? ==> forall j :: 0 <= j < |boxes| ==> !Contains(boxes[j], p)
  {
    if |boxes| == 0 then None
    else if Contains(boxes[0], p) then Some(0)
    else
      match FirstHit(boxes[1..], p)
      case Some(k) => Some(k + 1)
      case None => None
  }

  /** `list.index` on the boxes: the first position holding a rectangle
      equal to `r`. */
  function IndexOfRect(boxes: seq<Rect>, r: Rect): (k: nat)
    requires r in boxes
    ensures k < |boxes| && boxes[k] == r
    ensures forall j :: 0 <= j < k ==> boxes[j] != r
  {
    if boxes[0] == r then 0 else 1 + IndexOfRect(boxes[1..], r)
  }

  /** The box the click loop stops at is the first one, so looking it up by
      equality gives back its own index. */
  lemma IndexOfFirstHit(boxes: seq<Rect>, p: Point)
    requires FirstHit(boxes, p).Some?
    ensures IndexOfRect(boxes, boxes[FirstHit(boxes, p).value]) == FirstHit(boxes, p).value
  {
    var k := FirstHit(boxes, p).value;
    var j := IndexOfRect(boxes, boxes[k]);
    assert Contains(boxes[j], p);
  }

  /** The cursor `mouseMoveEvent` sets: the pointing hand over any box. */
  function HoverCursor(boxes: seq<Rect>, p: Point): (c: Cursor)
    ensures c == PointingHand ==> exists j :: 0 <= j < |boxes| && Contains(boxes[j], p)
  {
    if |boxes| == 0 then Arrow
    else if Contains(boxes[0], p) then PointingHand
    else
      var c := HoverCursor(boxes[1..], p);
      assert c == PointingHand ==> exists j :: 1 <= j < |boxes| && Contains(boxes[j], p) by {
        if c == PointingHand {
          var j :| 0 <= j < |boxes[1..]| && Contains(boxes[1..][j], p);
          assert Contains(boxes[j + 1], p);
        }
      }
      c
  }

  /** The hover cursor is the pointing hand exactly when a click at the same
      point would hit a box. */
  lemma {:induction false} HoverMatchesClick(boxes: seq<Rect>, p: Point)
    ensures HoverCursor(boxes, p) == PointingHand <==> FirstHit(boxes, p).Some?
  {
    if |boxes| > 0 && !Contains(boxes[0], p) {
      HoverMatchesClick(boxes[1..], p);
    }
  }

  /** `mousePressEvent` on the paper: the current photo is dropped into the
      first box under the pointer, replacing whatever was there; every other
      cell keeps its photo, and a click outside every box changes nothing. */
  function ClickPaper(g: GridPaper, p: Point): (r: GridPaper)
    ensures r.config == g.config && r.boxes == g.boxes && r.current == g.current
    ensures FirstHit(g.boxes, p).None? ==> r == g
    ensures FirstHit(g.boxes, p).Some? ==>
      var k := FirstHit(g.boxes, p).value;
      && k in r.assignments && r.assignments[k] == g.current
      && r.assignments.Keys == g.assignments.Keys + {k}
      && forall j :: j in g.assignments && j != k ==> r.assignments[j] == g.assignments[j]
  {
    match FirstHit(g.boxes, p)
    case None => g
    case Some(k) =>
      IndexOfFirstHit(g.boxes, p);
      g.(assignments := g.assignments[IndexOfRect(g.boxes, g.boxes[k]) := g.current])
  }

  lemma ClickKeepsValid(g: GridPaper, p: Point)
    requires Valid(g)
    ensures Valid(ClickPaper(g, p))
  {
  }

  // ---------------------------------------------------------------------
  // Layout along one side

  lemma CellStartNonNeg(s: real, size: real, k: int)
    requires 0.0 <= s && 0.0 <= size && 0 <= k
    ensures 0.0 <= CellStart(s, size, k)
  {
    assert 0.0 <= k as real * (s + size);
  }

  /** A later cell starts at least one cell and one gap after an earlier one. */
  lemma CellStartGap(s: real, size: real, k: int, k': int)
    requires 0.0 <= s && 0.0 <= size && k < k'
    ensures CellStart(s, size, k) + s + size <= CellStart(s, size, k')
  {
    var d := (k' - k) as real;
    assert CellStart(s, size, k') - CellStart(s, size, k) == d * (s + size);
    MulNonNeg(d - 1.0, s + size);
    assert d * (s + size) == (s + size) + (d - 1.0) * (s + size);
  }

  lemma MulNonNeg(a: real, b: real)
    requires 0.0 <= a && 0.0 <= b
    ensures 0.0 <= a * b
  {
  }

  lemma DivModNonNeg(i: int, n: int)
    requires 0 <= i && 1 <= n
    ensures 0 <= i / n && 0 <= i % n < n
  {
  }

  /** Two indices in the same column are in different rows. */
  lemma SameColumnDifferentRow(i: int, j: int, n: int)
    requires 1 <= n && 0 <= i && 0 <= j && i != j && i % n == j % n
    ensures i / n != j / n
  {
    assert i == (i / n) * n + i % n;
    assert j == (j / n) * n + j % n;
  }

  /** An index below `n * rows` is in one of the `rows` rows. */
  lemma RowInRange(i: int, n: int, rows: int)
    requires 1 <= n && 0 <= i < n * rows
    ensures 0 <= i / n < rows
  {
    var q := i / n;
    assert q * n <= i;
    MulCancel(q, rows, n);
  }

  lemma MulCancel(q: int, rows: int, n: int)
    requires 1 <= n && q * n < rows * n
    ensures q < rows
  {
  }

  /** Every cell of `n` ends at least one gap before the paper edge when the
      gaps and cells exactly fill the side. */
  lemma CellStartEnd(s: real, size: real, k: int, n: int, paper: real)
    requires 0.0 <= s && 0.0 <= size && 0 <= k < n
    requires (n + 1) as real * s + n as real * size == paper
    ensures CellStart(s, size, k) + size + s <= paper
  {
    if k < n - 1 {
      CellStartGap(s, size, k, n - 1);
    }
    assert CellStart(s, size, n - 1) + size + s == (n + 1) as real * s + n as real * size;
  }

  /** Pixel `v` lies in the span of `t` pixels starting at `x0`. */
  predicate InRange(x0: int, t: int, v: int) {
    x0 <= v < x0 + t
  }

  /** Spans of at most `size` pixels at the truncated starts of two
      different cells share no pixel. */
  lemma SpansDisjoint(s: real, size: real, t: int, k: int, k': int, v: int)
    requires 0.0 <= s && 0.0 <= size && t as real <= size && 0 <= k && 0 <= k' && k != k'
    ensures !(InRange(Trunc(CellStart(s, size, k)), t, v) && InRange(Trunc(CellStart(s, size, k')), t, v))
  {
    var lo, hi := if k < k' then k else k', if k < k' then k' else k;
    CellStartNonNeg(s, size, lo);
    CellStartGap(s, size, lo, hi);
    TruncGap(CellStart(s, size, lo), CellStart(s, size, hi), size, t);
  }

  /** A span of at most `size` pixels at the truncated start of a cell lies
      within `[0, Trunc(paper))`. */
  lemma SpanInside(s: real, size: real, t: int, k: int, n: int, paper: real, v: int)
    requires 0.0 <= s && 0.0 <= size && t as real <= size && 0 <= k < n
    requires (n + 1) as real * s + n as real * size == paper
    requires InRange(Trunc(CellStart(s, size, k)), t, v)
    ensures 0 <= v < Trunc(paper)
  {
    CellStartNonNeg(s, size, k);
    CellStartEnd(s, size, k, n, paper);
    TruncGap(CellStart(s, size, k), paper, size, t);
  }

  /** Along one side at half scale: a span of at most half a cell at the
      truncated start of cell `k` lies inside the half-size paper. */
  lemma HalfSideInside(paper: int, n: int, cell: int, k: int, t: int, v: int)
    requires 1 <= n && 0 <= cell && n * cell <= paper && 0 <= k < n
    requires t as real <= cell as real / 2.0
    requires InRange(Trunc(CellStart(Spacing(paper, n, cell) / 2.0, cell as real / 2.0, k)), t, v)
    ensures 0 <= v < Trunc(paper as real / 2.0)
  {
    var s := Spacing(paper, n, cell);
    assert (n * cell) as real == n as real * cell as real;
    assert (n + 1) as real * (s / 2.0) + n as real * (cell as real / 2.0) == paper as real / 2.0;
    SpanInside(s / 2.0, cell as real / 2.0, t, k, n, paper as real / 2.0, v);
  }

  /** Along one side at full scale: a span of at most a cell at the
      truncated start of cell `k` lies inside the paper. */
  lemma FullSideInside(paper: int, n: int, cell: int, k: int, t: int, v: int)
    requires 1 <= n && 0 <= cell && n * cell <= paper && 0 <= k < n
    requires t <= cell
    requires InRange(Trunc(CellStart(Spacing(paper, n, cell), cell as real, k)), t, v)
    ensures 0 <= v < paper
  {
    var s := Spacing(paper, n, cell);
    assert (n * cell) as real == n as real * cell as real;
    SpanInside(s, cell as real, t, k, n, paper as real, v);
  }

  /** The pixels a preview box covers: from its truncated start, as many as
      its truncated width (which is never negative and never more than half
      a cell). */
  lemma PreviewBoxSpan(c: GridConfig, i: int, p: Point)
    requires WellFormed(c) && 0 <= i
    ensures var w, h := c.w as real / 2.0, c.h as real / 2.0;
      && 0 <= Trunc(w - 1.0) && Trunc(w - 1.0) as real <= w
      && 0 <= Trunc(h - 1.0) && Trunc(h - 1.0) as real <= h
      && (Contains(PreviewBox(c, i), p) <==>
            && InRange(Trunc(CellStart(SpacingX(c) / 2.0, w, i % c.cols)), Trunc(w - 1.0), p.x)
            && InRange(Trunc(CellStart(SpacingY(c) / 2.0, h, i / c.cols)), Trunc(h - 1.0), p.y))
  {
    var w, h := c.w as real / 2.0, c.h as real / 2.0;
    var b := PreviewBox(c, i);
    ContainsSized(b.x1, b.y1, Trunc(w - 1.0), Trunc(h - 1.0), p);
  }

  /** Cells at two different (column, row) positions cover no common
      point when each covers at most a cell's size from its truncated start. */
  lemma CellsDisjoint(sx: real, sy: real, w: real, h: real, tw: int, th: int,
                      ci: int, ri: int, cj: int, rj: int, p: Point)
    requires 0.0 <= sx && 0.0 <= sy && 0.0 <= w && 0.0 <= h
    requires tw as real <= w && th as real <= h
    requires 0 <= ci && 0 <= ri && 0 <= cj && 0 <= rj && (ci != cj || ri != rj)
    ensures !(&& InRange(Trunc(CellStart(sx, w, ci)), tw, p.x) && InRange(Trunc(CellStart(sy, h, ri)), th, p.y)
              && InRange(Trunc(CellStart(sx, w, cj)), tw, p.x) && InRange(Trunc(CellStart(sy, h, rj)), th, p.y))
  {
    if ci != cj {
      SpansDisjoint(sx, w, tw, ci, cj, p.x);
    } else {
      SpansDisjoint(sy, h, th, ri, rj, p.y);
    }
  }

  /** With non-negative spacing no point lies in two preview boxes. */
  lemma PreviewBoxesDisjoint(c: GridConfig, i: int, j: int, p: Point)
    requires Fits(c) && 0 <= i < c.cols * c.rows && 0 <= j < c.cols * c.rows && i != j
    ensures !(Contains(Boxes(c)[i], p) && Contains(Boxes(c)[j], p))
  {
    var w, h := c.w as real / 2.0, c.h as real / 2.0;
    PreviewBoxSpan(c, i, p);
    PreviewBoxSpan(c, j, p);
    DivModNonNeg(i, c.cols);
    DivModNonNeg(j, c.cols);
    if i % c.cols == j % c.cols {
      SameColumnDifferentRow(i, j, c.cols);
    }
    CellsDisjoint(SpacingX(c) / 2.0, SpacingY(c) / 2.0, w, h, Trunc(w - 1.0), Trunc(h - 1.0),
                  i % c.cols, i / c.cols, j % c.cols, j / c.cols, p);
  }

  /** With non-negative spacing every preview box lies inside the preview
      pixmap of half the paper size. */
  lemma PreviewBoxInsidePaper(c: GridConfig, i: int, p: Point)
    requires Fits(c) && 0 <= i < c.cols * c.rows
    requires Contains(Boxes(c)[i], p)
    ensures 0 <= p.x < PreviewPaper(c).w && 0 <= p.y < PreviewPaper(c).h
  {
    PreviewBoxSpan(c, i, p);
    DivModNonNeg(i, c.cols);
    RowInRange(i, c.cols, c.rows);
    HalfSideInside(c.paperW, c.cols, c.w, i % c.cols, Trunc(c.w as real / 2.0 - 1.0), p.x);
    HalfSideInside(c.paperH, c.rows, c.h, i / c.cols, Trunc(c.h as real / 2.0 - 1.0), p.y);
  }

  /** On a valid paper, a click inside box `k` drops the current photo at
      index `k`, whichever other boxes there are. */
  lemma ClickOnBoxAssignsIt(g: GridPaper, k: int, p: Point)
    requires Valid(g) && 0 <= k < |g.boxes| && Contains(g.boxes[k], p)
    ensures FirstHit(g.boxes, p) == Some(k)
    ensures ClickPaper(g, p).assignments == g.assignments[k := g.current]
  {
    var f := FirstHit(g.boxes, p);
    if f.value != k {
      PreviewBoxesDisjoint(g.config, f.value, k, p);
    }
  }

  // ---------------------------------------------------------------------
  // Final grid

  /** Where `createFinalGrid` draws the photo of cell `index`: the preview
      formula at full scale. */
  function FinalPlacement(c: GridConfig, index: int, photo: Photo): (pl: Placement)
    requires WellFormed(c) && 0 <= index
    ensures pl.photo == photo && pl.w == c.w && pl.h == c.h
    ensures AbsR(pl.x as real - CellStart(SpacingX(c), c.w as real, index % c.cols)) < 1.0
    ensures AbsR(pl.y as real - CellStart(SpacingY(c), c.h as real, index / c.cols)) < 1.0
  {
    var row, col := index / c.cols, index % c.cols;
    Placement(Trunc(CellStart(SpacingX(c), c.w as real, col)),
              Trunc(CellStart(SpacingY(c), c.h as real, row)), c.w, c.h, photo)
  }

  /** `createFinalGrid`: one placement per assigned cell, carrying that
      cell's photo; unassigned cells stay blank. */
  function CreateFinalGrid(g: GridPaper): (r: map<int, Placement>)
    requires Valid(g)
    ensures r.Keys == g.assignments.Keys
    ensures forall k :: k in r ==> r[k].photo == g.assignments[k] && r[k].w == g.config.w && r[k].h == g.config.h
    ensures forall k :: k in r ==> r[k] == FinalPlacement(g.config, k, g.assignments[k])
  {
    map k | k in g.assignments :: FinalPlacement(g.config, k, g.assignments[k])
  }

  /** A point covered by a placement's cell. */
  predicate InPlacement(pl: Placement, p: Point) {
    InRange(pl.x, pl.w, p.x) && InRange(pl.y, pl.h, p.y)
  }

  /** Truncation of a doubled non-negative value is twice the truncation,
      or one more. */
  lemma TruncDouble(a: real)
    requires 0.0 <= a
    ensures 2 * Trunc(a) <= Trunc(2.0 * a) <= 2 * Trunc(a) + 1
  {
    var n := Trunc(a);
    assert 2.0 * n as real <= 2.0 * a < 2.0 * n as real + 2.0;
  }

  /** In exact arithmetic a final cell starts at twice its preview start. */
  lemma FinalIsTwicePreviewExact(s: real, size: real, k: int)
    ensures CellStart(s, size, k) == 2.0 * CellStart(s / 2.0, size / 2.0, k)
  {
  }

  /** Each final placement's corner is twice its preview box's corner, up to
      the one pixel that truncating twice can lose. */
  lemma FinalDoublesPreview(g: GridPaper, k: int)
    requires Valid(g) && k in g.assignments
    ensures var pl := CreateFinalGrid(g)[k];
      && 0 <= pl.x - 2 * g.boxes[k].x1 <= 1
      && 0 <= pl.y - 2 * g.boxes[k].y1 <= 1
  {
    var c := g.config;
    var w, h := c.w as real, c.h as real;
    var col, row := k % c.cols, k / c.cols;
    CellStartNonNeg(SpacingX(c) / 2.0, w / 2.0, col);
    CellStartNonNeg(SpacingY(c) / 2.0, h / 2.0, row);
    FinalIsTwicePreviewExact(SpacingX(c), w, col);
    FinalIsTwicePreviewExact(SpacingY(c), h, row);
    TruncDouble(CellStart(SpacingX(c) / 2.0, w / 2.0, col));
    TruncDouble(CellStart(SpacingY(c) / 2.0, h / 2.0, row));
  }

  /** Every final placement lies inside the full-size paper. */
  lemma FinalPlacementInside(g: GridPaper, i: int, p: Point)
    requires Valid(g) && i in g.assignments && InPlacement(CreateFinalGrid(g)[i], p)
    ensures 0 <= p.x < g.config.paperW && 0 <= p.y < g.config.paperH
  {
    var c := g.config;
    DivModNonNeg(i, c.cols);
    RowInRange(i, c.cols, c.rows);
    FullSideInside(c.paperW, c.cols, c.w, i % c.cols, c.w, p.x);
    FullSideInside(c.paperH, c.rows, c.h, i / c.cols, c.h, p.y);
  }

  /** Final placements of two different cells do not overlap. */
  lemma FinalPlacementsDisjoint(g: GridPaper, i: int, j: int, p: Point)
    requires Valid(g) && i in g.assignments && j in g.assignments && i != j
    ensures !(InPlacement(CreateFinalGrid(g)[i], p) && InPlacement(CreateFinalGrid(g)[j], p))
  {
    var c := g.config;
    DivModNonNeg(i, c.cols);
    DivModNonNeg(j, c.cols);
    if i % c.cols == j % c.cols {
      SameColumnDifferentRow(i, j, c.cols);
    }
    CellsDisjoint(SpacingX(c), SpacingY(c), c.w as real, c.h as real, c.w, c.h,
                  i % c.cols, i / c.cols, j % c.cols, j / c.cols, p);
  }

  /** The hard-coded grid: spacings of 29.6 and 46 pixels, and a first
      preview box of 205x264 pixels at (14, 23) on a 900x600 preview. */
  lemma SetupGridValues()
    ensures SpacingX(SetupGrid()) == 29.6 && SpacingY(SetupGrid()) == 46.0
    ensures Boxes(SetupGrid())[0] == RectAt(14, 23, 205, 264)
    ensures PreviewPaper(SetupGrid()) == Size(900, 600)
  {
  }
}
