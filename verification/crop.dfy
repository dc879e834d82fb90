/** The crop box of the image widget: press, move and release events turn
    pointer positions into a rectangle in displayed-pixmap coordinates.

    Corner order is not maintained: a top-left drag may pass the
    bottom-right corner, and a ratio-locked top-left drag may leave the
    image on the left or top. */
module Crop {
  import opened Geometry

  /** Side of the square grab zone at each corner. */
  const GrabSize: int := 60

  /** The value range of the W:H spin boxes. */
  type SpinValue = r: real | 0.1 <= r <= 9.9 witness 3.5

  /** Where a press landed (`clk_area` codes 0, 1, 2, 3 of `mousePressEvent`). */
  datatype Area = Outside | TopLeftCorner | BottomRightCorner | Body

  /** The crop state of the image widget.
      `topleft`/`btmright` are the committed corners, `p1`/`p2` the corners
      shown while dragging, `lastPt` the far bound of the displayed pixmap. */
  datatype CropBox = CropBox(
    cropMode: bool,
    pressed: bool,
    topleft: Point,
    btmright: Point,
    lastPt: Point,
    p1: Point,
    p2: Point,
    clkPos: Point,
    clkArea: Area,
    lock: bool,
    cropWidth: SpinValue,
    cropHeight: SpinValue,
    imgAspect: real)

  /** The widget's state before crop mode is first entered. */
  function Idle(): (b: CropBox)
    ensures !b.cropMode && !b.pressed
  {
    var o := Point(0, 0);
    CropBox(false, false, o, o, o, o, o, o, Outside, false, 3.5, 4.5, 1.0)
  }

  /** The W:H ratio the lock enforces. */
  function BoxAspect(b: CropBox): (a: real)
    ensures a > 0.0
  {
    PositiveQuotient(b.cropWidth, b.cropHeight);
    b.cropWidth / b.cropHeight
  }

  /** Both committed corners inside `[(0,0), lastPt]`; nothing about their order. */
  predicate CommittedInBounds(b: CropBox) {
    0 <= b.topleft.x && 0 <= b.topleft.y && b.btmright.x <= b.lastPt.x && b.btmright.y <= b.lastPt.y
  }

  /** Both in-drag corners inside `[(0,0), lastPt]`. */
  predicate DragInBounds(b: CropBox) {
    0 <= b.p1.x && 0 <= b.p1.y && b.p2.x <= b.lastPt.x && b.p2.y <= b.lastPt.y
  }

  /** Entering crop mode on a displayed pixmap of `disp` pixels whose
      original is `pic` pixels: the box covers the whole pixmap, the ratio
      lock is off at 3.5:4.5 and the image aspect is fixed. The pressed flag
      is left as it was. */
  function EnterCropMode(b: CropBox, disp: Size, pic: Size): (r: CropBox)
    requires pic.h != 0
    ensures r.cropMode && r.pressed == b.pressed && !r.lock
    ensures r.cropWidth == 3.5 && r.cropHeight == 4.5
    ensures r.clkPos == b.clkPos && r.clkArea == b.clkArea
    ensures r.topleft == r.p1 == Point(0, 0)
    ensures r.btmright == r.p2 == r.lastPt
    ensures r.btmright.x - r.topleft.x + 1 == disp.w && r.btmright.y - r.topleft.y + 1 == disp.h
    ensures r.imgAspect * pic.h as real == pic.w as real
    ensures CommittedInBounds(r) && DragInBounds(r)
  {
    var br := Point(disp.w - 1, disp.h - 1);
    CropBox(true, b.pressed, Point(0, 0), br, br, Point(0, 0), br, b.clkPos, b.clkArea,
            false, 3.5, 4.5, pic.w as real / pic.h as real)
  }

  /** Leaving crop mode keeps every coordinate; only the mode flag drops. */
  function ExitCropMode(b: CropBox): (r: CropBox)
    ensures !r.cropMode && r.(cropMode := true) == b.(cropMode := true)
  {
    b.(cropMode := false)
  }

  /** Where a press lands. The grab zone at `tl` is the 60x60 square growing
      right and down; the one at `br` is `QRect(br, QSize(-60, -60))`, which
      Qt reads as the 62x62 square `[br - 61, br]`; then the box itself. */
  function Classify(tl: Point, br: Point, c: Point): (a: Area)
    ensures a == TopLeftCorner <==>
      tl.x <= c.x <= tl.x + GrabSize - 1 && tl.y <= c.y <= tl.y + GrabSize - 1
    ensures a == BottomRightCorner <==>
      (a != TopLeftCorner && br.x - GrabSize - 1 <= c.x <= br.x && br.y - GrabSize - 1 <= c.y <= br.y)
    ensures tl.x <= br.x && tl.y <= br.y ==>
      (a == Body <==>
        (a != TopLeftCorner && a != BottomRightCorner && tl.x <= c.x <= br.x && tl.y <= c.y <= br.y))
    ensures tl.x <= br.x && tl.y <= br.y ==>
      (a == Outside <==>
        (a != TopLeftCorner && a != BottomRightCorner && !(tl.x <= c.x <= br.x && tl.y <= c.y <= br.y)))
  {
    if Contains(RectAt(tl.x, tl.y, GrabSize, GrabSize), c) then TopLeftCorner
    else if Contains(RectAt(br.x, br.y, -GrabSize, -GrabSize), c) then BottomRightCorner
    else if Contains(RectFromCorners(tl, br), c) then Body
    else Outside
  }

  /** A press in crop mode records the pointer, snapshots the committed
      corners as the in-drag corners and classifies the press. */
  function Press(b: CropBox, c: Point): (r: CropBox)
    ensures !b.cropMode ==> r == b
    ensures b.cropMode ==>
      && r.pressed && r.clkPos == c
      && r.p1 == b.topleft && r.p2 == b.btmright
      && r.clkArea == Classify(b.topleft, b.btmright, c)
      && r.(pressed := b.pressed, clkPos := b.clkPos, p1 := b.p1, p2 := b.p2, clkArea := b.clkArea) == b
  {
    if !b.cropMode then b
    else b.(pressed := true, clkPos := c, p1 := b.topleft, p2 := b.btmright,
            clkArea := Classify(b.topleft, b.btmright, c))
  }

  /** A release in crop mode commits the in-drag corners. */
  function Release(b: CropBox): (r: CropBox)
    ensures !b.cropMode ==> r == b
    ensures b.cropMode ==>
      && !r.pressed && r.topleft == b.p1 && r.btmright == b.p2
      && r.(pressed := b.pressed, topleft := b.topleft, btmright := b.btmright) == b
  {
    if !b.cropMode then b
    else b.(pressed := false, topleft := b.p1, btmright := b.p2)
  }

  /** The unlocked top-left corner: it follows the pointer, but sticks at 0
      on an axis where it would leave the image on the left or top. */
  function FollowTopLeft(tl: Point, d: Point): (q: Point)
    ensures 0 <= q.x && 0 <= q.y
    ensures 0 <= tl.x + d.x ==> q.x == tl.x + d.x
    ensures tl.x + d.x < 0 ==> q.x == 0
    ensures 0 <= tl.y + d.y ==> q.y == tl.y + d.y
    ensures tl.y + d.y < 0 ==> q.y == 0
  {
    Point(Max(0, tl.x + d.x), Max(0, tl.y + d.y))
  }

  /** The unlocked bottom-right corner: it follows the pointer, but sticks at
      `last` on an axis where it would pass the far bound. */
  function FollowBottomRight(br: Point, last: Point, d: Point): (q: Point)
    ensures q.x <= last.x && q.y <= last.y
    ensures br.x + d.x <= last.x ==> q.x == br.x + d.x
    ensures last.x < br.x + d.x ==> q.x == last.x
    ensures br.y + d.y <= last.y ==> q.y == br.y + d.y
    ensures last.y < br.y + d.y ==> q.y == last.y
  {
    Point(Min(last.x, br.x + d.x), Min(last.y, br.y + d.y))
  }

  /** Ratio-locked left edge against the fixed right edge `p2.x`, for a box
      whose top is at `y1`. Before truncation the inclusive width comes out
      two pixels wider than height times ratio. */
  function LockedLeft(p2: Point, y1: int, a: real): (v: real)
    ensures p2.x as real - v + 1.0 == (p2.y - y1 + 1) as real * a + 2.0
  {
    p2.x as real - (p2.y - y1 + 1) as real * a - 1.0
  }

  /** Ratio-locked top edge against the fixed bottom edge `p2.y`, for a box
      whose left is at `x1`: inclusive height is width over ratio plus two. */
  function LockedTop(p2: Point, x1: int, a: real): (v: real)
    requires a != 0.0
    ensures p2.y as real - v + 1.0 == (p2.x - x1 + 1) as real / a + 2.0
  {
    p2.y as real - (p2.x - x1 + 1) as real / a - 1.0
  }

  /** Ratio-locked right edge against the fixed left edge `p1.x`, for a box
      whose bottom is at `y2`: inclusive width is height times ratio. */
  function LockedRight(p1: Point, y2: int, a: real): (v: real)
    ensures v - p1.x as real + 1.0 == (y2 - p1.y + 1) as real * a
  {
    p1.x as real + (y2 - p1.y + 1) as real * a - 1.0
  }

  /** Ratio-locked bottom edge against the fixed top edge `p1.y`, for a box
      whose right is at `x2`: inclusive height is width over ratio. */
  function LockedBottom(p1: Point, x2: int, a: real): (v: real)
    requires a != 0.0
    ensures v - p1.y as real + 1.0 == (x2 - p1.x + 1) as real / a
  {
    p1.y as real + (x2 - p1.x + 1) as real / a - 1.0
  }

  /** An inclusive width `w` within one pixel of height `h` times ratio `a`
      plus `extra`. */
  predicate NearWidth(w: int, h: int, a: real, extra: real) {
    AbsR(w as real - (h as real * a + extra)) < 1.0
  }

  /** An inclusive height `h` within one pixel of width `w` over ratio `a`
      plus `extra`. */
  predicate NearHeight(h: int, w: int, a: real, extra: real)
    requires a != 0.0
  {
    AbsR(h as real - (w as real / a + extra)) < 1.0
  }

  /** The corner `q` with its x replaced by the coerced locked left edge:
      the inclusive width is within one pixel of height times ratio plus 2. */
  function LockLeft(p2: Point, q: Point, a: real): (r: Point)
    ensures r.y == q.y && r.x == Trunc(LockedLeft(p2, q.y, a))
    ensures NearWidth(p2.x - r.x + 1, p2.y - r.y + 1, a, 2.0)
  {
    var v := LockedLeft(p2, q.y, a);
    TruncOffsetBack(v, p2.x + 1, (p2.y - q.y + 1) as real * a + 2.0);
    Point(Trunc(v), q.y)
  }

  /** The corner `q` with its y replaced by the coerced locked top edge:
      the inclusive height is within one pixel of width over ratio plus 2. */
  function LockTop(p2: Point, q: Point, a: real): (r: Point)
    requires a != 0.0
    ensures r.x == q.x && r.y == Trunc(LockedTop(p2, q.x, a))
    ensures NearHeight(p2.y - r.y + 1, p2.x - r.x + 1, a, 2.0)
  {
    var v := LockedTop(p2, q.x, a);
    TruncOffsetBack(v, p2.y + 1, (p2.x - q.x + 1) as real / a + 2.0);
    Point(q.x, Trunc(v))
  }

  /** The corner `q` with its x replaced by the coerced locked right edge:
      the inclusive width is within one pixel of height times ratio. */
  function LockRight(p1: Point, q: Point, a: real): (r: Point)
    ensures r.y == q.y && r.x == Trunc(LockedRight(p1, q.y, a))
    ensures NearWidth(r.x - p1.x + 1, r.y - p1.y + 1, a, 0.0)
  {
    var v := LockedRight(p1, q.y, a);
    TruncOffset(v, 1 - p1.x, (q.y - p1.y + 1) as real * a);
    Point(Trunc(v), q.y)
  }

  /** The corner `q` with its y replaced by the coerced locked bottom edge:
      the inclusive height is within one pixel of width over ratio. */
  function LockBottom(p1: Point, q: Point, a: real): (r: Point)
    requires a != 0.0
    ensures r.x == q.x && r.y == Trunc(LockedBottom(p1, q.x, a))
    ensures NearHeight(r.y - p1.y + 1, r.x - p1.x + 1, a, 0.0)
  {
    var v := LockedBottom(p1, q.x, a);
    TruncOffset(v, 1 - p1.y, (q.x - p1.x + 1) as real / a);
    Point(q.x, Trunc(v))
  }

  /** The new in-drag top-left corner for pointer delta `d`. With the lock
      on, the axis along which the image is relatively too long is
      recomputed from the other axis and truncated toward zero; the fixed
      corner is the in-drag bottom-right `b.p2`. */
  function DragTopLeft(b: CropBox, d: Point): (r: Point)
    ensures var q := FollowTopLeft(b.topleft, d);
      && (!b.lock || b.imgAspect == BoxAspect(b) ==> r == q)
      && (b.lock && b.imgAspect > BoxAspect(b) ==>
            r.y == q.y && r.x == Trunc(LockedLeft(b.p2, q.y, BoxAspect(b))))
      && (b.lock && b.imgAspect < BoxAspect(b) ==>
            r.x == q.x && r.y == Trunc(LockedTop(b.p2, q.x, BoxAspect(b))))
    ensures b.lock && b.imgAspect > BoxAspect(b) ==>
      NearWidth(b.p2.x - r.x + 1, b.p2.y - r.y + 1, BoxAspect(b), 2.0)
    ensures b.lock && b.imgAspect < BoxAspect(b) ==>
      NearHeight(b.p2.y - r.y + 1, b.p2.x - r.x + 1, BoxAspect(b), 2.0)
  {
    var q := FollowTopLeft(b.topleft, d);
    var a := BoxAspect(b);
    if !b.lock then q
    else if b.imgAspect > a then
      LockLeft(b.p2, q, a)
    else if b.imgAspect < a then
      LockTop(b.p2, q, a)
    else q
  }

  /** The new in-drag bottom-right corner for pointer delta `d`, the mirror
      of `DragTopLeft` against the fixed in-drag top-left `b.p1`. */
  function DragBottomRight(b: CropBox, d: Point): (r: Point)
    ensures var q := FollowBottomRight(b.btmright, b.lastPt, d);
      && (!b.lock || b.imgAspect == BoxAspect(b) ==> r == q)
      && (b.lock && b.imgAspect > BoxAspect(b) ==>
            r.y == q.y && r.x == Trunc(LockedRight(b.p1, q.y, BoxAspect(b))))
      && (b.lock && b.imgAspect < BoxAspect(b) ==>
            r.x == q.x && r.y == Trunc(LockedBottom(b.p1, q.x, BoxAspect(b))))
    ensures b.lock && b.imgAspect > BoxAspect(b) ==>
      NearWidth(r.x - b.p1.x + 1, r.y - b.p1.y + 1, BoxAspect(b), 0.0)
    ensures b.lock && b.imgAspect < BoxAspect(b) ==>
      NearHeight(r.y - b.p1.y + 1, r.x - b.p1.x + 1, BoxAspect(b), 0.0)
  {
    var q := FollowBottomRight(b.btmright, b.lastPt, d);
    var a := BoxAspect(b);
    if !b.lock then q
    else if b.imgAspect > a then
      LockRight(b.p1, q, a)
    else if b.imgAspect < a then
      LockBottom(b.p1, q, a)
    else q
  }

  /** One axis of a body drag: the pointer delta `dv` limited to the legal
      translation range `[lo, hi]`; a negative delta is only bounded below
      and a non-negative one only above, as in `mouseMoveEvent`'s clipping.
      When the range does not contain 0 (a committed box already outside
      the image), the bound can reverse the direction of the drag. */
  function ClipShift(dv: int, lo: int, hi: int): (r: int)
    ensures dv < 0 ==> lo <= r && (r == dv || r == lo) && (r == dv <==> lo <= dv)
    ensures 0 <= dv ==> r <= hi && (r == dv || r == hi) && (r == dv <==> dv <= hi)
    ensures lo <= 0 <= hi ==> lo <= r <= hi
    ensures lo <= 0 <= hi ==> (lo <= dv <= hi <==> r == dv)
    ensures lo <= 0 <= hi && dv < lo ==> r == lo
    ensures lo <= 0 <= hi && hi < dv ==> r == hi
  {
    if dv < 0 then Max(dv, lo) else Min(dv, hi)
  }

  /** The translation of a body drag: each axis clipped so that neither
      committed corner leaves `[(0,0), lastPt]`. */
  function BodyShift(b: CropBox, d: Point): (s: Point)
    ensures CommittedInBounds(b) ==>
      && 0 <= b.topleft.x + s.x && 0 <= b.topleft.y + s.y
      && b.btmright.x + s.x <= b.lastPt.x && b.btmright.y + s.y <= b.lastPt.y
  {
    Point(ClipShift(d.x, -b.topleft.x, b.lastPt.x - b.btmright.x),
          ClipShift(d.y, -b.topleft.y, b.lastPt.y - b.btmright.y))
  }

  /** A pointer move. Nothing happens unless a press is in progress in crop
      mode. Otherwise the in-drag corners are recomputed from the committed
      corners and the total delta since the press, so moves do not
      accumulate; nothing else in the state changes. */
  function Move(b: CropBox, pos: Point): (r: CropBox)
    ensures r.(p1 := b.p1, p2 := b.p2) == b
    ensures !(b.pressed && b.cropMode) || b.clkArea == Outside ==> r == b
    ensures b.pressed && b.cropMode && b.clkArea == TopLeftCorner ==>
      r.p2 == b.p2 && r.p1 == DragTopLeft(b, Sub(pos, b.clkPos))
    ensures b.pressed && b.cropMode && b.clkArea == BottomRightCorner ==>
      r.p1 == b.p1 && r.p2 == DragBottomRight(b, Sub(pos, b.clkPos))
    ensures b.pressed && b.cropMode && b.clkArea == Body ==>
      && Sub(r.p2, r.p1) == Sub(b.btmright, b.topleft)
      && Sub(r.p1, b.topleft) == BodyShift(b, Sub(pos, b.clkPos))
      && (CommittedInBounds(b) ==> DragInBounds(r))
  {
    if !(b.pressed && b.cropMode) then b
    else
      var d := Sub(pos, b.clkPos);
      match b.clkArea
      case TopLeftCorner => b.(p1 := DragTopLeft(b, d))
      case BottomRightCorner => b.(p2 := DragBottomRight(b, d))
      case Body =>
        var s := BodyShift(b, d);
        b.(p1 := Add(b.topleft, s), p2 := Add(b.btmright, s))
      case Outside => b
  }

  // ---------------------------------------------------------------------
  // Properties of press / move / release sequences

  /** Moves are not cumulative: a move after another move gives the same
      box as that move alone. */
  lemma MovesNotCumulative(b: CropBox, q: Point, p: Point)
    ensures Move(Move(b, q), p) == Move(b, p)
  {
    var m := Move(b, q);
    if b.pressed && b.cropMode {
      match b.clkArea
      case TopLeftCorner =>
        assert m.p2 == b.p2;
        assert DragTopLeft(m, Sub(p, m.clkPos)) == DragTopLeft(b, Sub(p, b.clkPos));
      case BottomRightCorner =>
        assert m.p1 == b.p1;
        assert DragBottomRight(m, Sub(p, m.clkPos)) == DragBottomRight(b, Sub(p, b.clkPos));
      case Body =>
        assert BodyShift(m, Sub(p, m.clkPos)) == BodyShift(b, Sub(p, b.clkPos));
      case Outside =>
    }
  }

  /** A press outside the box followed by any move leaves the in-drag
      corners on the committed ones. */
  lemma OutsidePressMovesNothing(b: CropBox, c: Point, pos: Point)
    requires b.cropMode && Classify(b.topleft, b.btmright, c) == Outside
    ensures Move(Press(b, c), pos).p1 == b.topleft
    ensures Move(Press(b, c), pos).p2 == b.btmright
  {
  }

  /** Only a release commits: press, move and release leave the committed
      box where the move put the in-drag box, and before the release the
      committed box is untouched. */
  lemma DragCommitsOnRelease(b: CropBox, c: Point, pos: Point)
    requires b.cropMode
    ensures Move(Press(b, c), pos).topleft == b.topleft
    ensures Move(Press(b, c), pos).btmright == b.btmright
    ensures Release(Move(Press(b, c), pos)).topleft == Move(Press(b, c), pos).p1
    ensures Release(Move(Press(b, c), pos)).btmright == Move(Press(b, c), pos).p2
  {
  }

  /** A body drag keeps the box size, and a box that starts inside the image
      stays inside it through press, move and release. */
  lemma BodyDragKeepsBoxInside(b: CropBox, c: Point, pos: Point)
    requires b.cropMode && CommittedInBounds(b)
    requires Classify(b.topleft, b.btmright, c) == Body
    ensures var r := Release(Move(Press(b, c), pos));
      && CommittedInBounds(r)
      && Sub(r.btmright, r.topleft) == Sub(b.btmright, b.topleft)
  {
    var pb := Press(b, c);
    assert pb.clkArea == Body;
    assert CommittedInBounds(pb);
  }

  /** The box of a freshly entered crop mode satisfies the bounds a body
      drag preserves. */
  lemma EnteredBoxIsInside(b: CropBox, disp: Size, pic: Size)
    requires pic.h != 0
    ensures CommittedInBounds(EnterCropMode(b, disp, pic))
  {
  }

  /** With the lock on but the image aspect equal to the box aspect, a move
      is the same as an unlocked move. */
  lemma EqualAspectNoCorrection(b: CropBox, pos: Point)
    requires b.imgAspect == BoxAspect(b)
    ensures Move(b.(lock := true), pos) == Move(b.(lock := false), pos).(lock := true)
  {
    var d := Sub(pos, b.clkPos);
    assert DragTopLeft(b.(lock := true), d) == DragTopLeft(b.(lock := false), d);
    assert DragBottomRight(b.(lock := true), d) == DragBottomRight(b.(lock := false), d);
    assert BodyShift(b.(lock := true), d) == BodyShift(b.(lock := false), d);
  }

  /** A top-left drag may carry the top-left corner past the bottom-right
      one: corner order is not kept. */
  lemma TopLeftDragCanCrossCorners()
    ensures var b := Press(EnterCropMode(Idle(), Size(400, 300), Size(400, 300)), Point(10, 10));
      var r := Move(b, Point(500, 20));
      b.clkArea == TopLeftCorner && r.p1.x > r.p2.x
  {
  }

  /** A ratio-locked top-left drag may put the left edge at a negative
      coordinate: the lock formula is not clamped. Here a 500x100 image's
      box is first narrowed to 51 pixels by an unlocked bottom-right drag,
      then the lock is set to 4:1 and the top-left corner is pressed. */
  lemma LockedTopLeftCanLeaveImage()
    ensures var b0 := EnterCropMode(Idle(), Size(500, 100), Size(500, 100));
      var b1 := Release(Move(Press(b0, Point(499, 99)), Point(50, 99)));
      var b := Press(b1.(lock := true, cropWidth := 4.0, cropHeight := 1.0), Point(0, 0));
      var r := Move(b, Point(0, 0));
      b.clkArea == TopLeftCorner && r.p1.x < 0
  {
    var b0 := EnterCropMode(Idle(), Size(500, 100), Size(500, 100));
    var b1 := Release(Move(Press(b0, Point(499, 99)), Point(50, 99)));
    assert b1.btmright == Point(50, 99);
    var b := Press(b1.(lock := true, cropWidth := 4.0, cropHeight := 1.0), Point(0, 0));
    assert BoxAspect(b) == 4.0 && b.imgAspect == 5.0;
  }

  /** A body drag of a box already outside the image can jump the other
      way. After the locked drag of `LockedTopLeftCanLeaveImage` is
      released, `topleft.x` is -351; a press inside the box followed by a
      move 10 pixels to the left moves the box 351 pixels to the right. */
  lemma BodyDragCanReverse()
    ensures var b0 := EnterCropMode(Idle(), Size(500, 100), Size(500, 100));
      var b1 := Release(Move(Press(b0, Point(499, 99)), Point(50, 99)));
      var b2 := Press(b1.(lock := true, cropWidth := 4.0, cropHeight := 1.0), Point(0, 0));
      var b3 := Release(Move(b2, Point(0, 0)));
      var b := Press(b3, Point(20, 10));
      var r := Move(b, Point(10, 10));
      && b3.topleft == Point(-351, 0)
      && b.clkArea == Body
      && r.p1.x == 0 && r.p1.x - b3.topleft.x == 351
  {
    var b0 := EnterCropMode(Idle(), Size(500, 100), Size(500, 100));
    var b1 := Release(Move(Press(b0, Point(499, 99)), Point(50, 99)));
    assert b1.btmright == Point(50, 99);
    var b2 := Press(b1.(lock := true, cropWidth := 4.0, cropHeight := 1.0), Point(0, 0));
    assert BoxAspect(b2) == 4.0 && b2.imgAspect == 5.0;
    var b3 := Release(Move(b2, Point(0, 0)));
    assert b3.topleft == Point(-351, 0);
  }
}
