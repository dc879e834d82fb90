/** The main window's arithmetic: fitting a picture to the screen, stepping
    through the pictures of a directory, the zoom buttons and the status-bar
    resolution. */
module Window {
  import opened Wrappers
  import opened Geometry
  import Crop
  import opened ImageView

  /** The largest pixmap that fits the screen: across, beside the two
      button columns and the frame offsets; down, below the frame offsets
      and 4 + 32 pixels for the border and the status bar. */
  function Viewport(screen: Size, frameW: int, offX: int, offY: int): (m: Size)
    ensures m.w + 2 * frameW + 2 * offX == screen.w
    ensures m.h + offY + offX + 36 == screen.h
  {
    Size(screen.w - (2 * frameW + 2 * offX), screen.h - (offY + offX + 4 + 32))
  }

  /** `getOptimumScale` against the viewport of the screen: for a non-empty
      picture on a screen with room for a viewport, the scaled picture fits
      the screen with the button columns and frame offsets across, and with
      those offsets plus the border and status bar down; the picture is
      never enlarged. The 4-pixel border that `adjustWindowSize` adds across
      is not reserved here. */
  lemma WindowFitsScreen(img: Size, screen: Size, frameW: int, offX: int, offY: int)
    requires 0 < img.w && 0 < img.h
    requires 0 < Viewport(screen, frameW, offX, offY).w && 0 < Viewport(screen, frameW, offX, offY).h
    ensures GetOptimumScale(img, Viewport(screen, frameW, offX, offY)).Success?
    ensures var s := GetOptimumScale(img, Viewport(screen, frameW, offX, offY)).value;
      && 0.0 < s <= 1.0
      && img.w as real * s + (2 * frameW + 2 * offX) as real <= screen.w as real
      && img.h as real * s + (offY + offX + 36) as real <= screen.h as real
  {
    var m := Viewport(screen, frameW, offX, offY);
    OptimumScaleFits(img, m);
  }

  predicate FitsIn(img: Size, m: Size) { img.w <= m.w && img.h <= m.h }

  /** `getOptimumScale`: 1.0 for a picture that fits, otherwise the ratio
      along whichever side is the tighter constraint. */
  function GetOptimumScale(img: Size, m: Size): (r: Result<real>)
    ensures FitsIn(img, m) ==> r == Success(1.0)
    ensures r.Failure? ==> r.error == ZeroDivisionError && (m.h == 0 || img.h == 0 || img.w == 0)
  {
    if img.w > m.w || img.h > m.h then
      if m.h == 0 || img.h == 0 then Failure(ZeroDivisionError)
      else if m.w as real / m.h as real > img.w as real / img.h as real then
        Success(m.h as real / img.h as real)
      else if img.w == 0 then Failure(ZeroDivisionError)
      else Success(m.w as real / img.w as real)
    else Success(1.0)
  }

  /** For a non-empty picture and viewport the optimum scale exists, never
      enlarges, fits both sides inside the viewport, and for a picture that
      does not fit makes one side touch the viewport exactly. */
  lemma OptimumScaleFits(img: Size, m: Size)
    requires 0 < img.w && 0 < img.h && 0 < m.w && 0 < m.h
    ensures GetOptimumScale(img, m).Success?
    ensures var s := GetOptimumScale(img, m).value;
      && 0.0 < s <= 1.0
      && img.w as real * s <= m.w as real
      && img.h as real * s <= m.h as real
      && (FitsIn(img, m) <==> s == 1.0)
      && (!FitsIn(img, m) ==> img.w as real * s == m.w as real || img.h as real * s == m.h as real)
  {
    var W, H, mw, mh := img.w as real, img.h as real, m.w as real, m.h as real;
    if !FitsIn(img, m) {
      assert W > mw || H > mh;
      if mw / mh > W / H {
        ScaleByHeight(W, H, mw, mh);
      } else {
        ScaleByWidth(W, H, mw, mh);
      }
    }
  }

  /** Scaling an oversized picture to the viewport's height, when the
      viewport is relatively wider: the height touches, the width stays
      inside, and the scale shrinks. */
  lemma ScaleByHeight(W: real, H: real, mw: real, mh: real)
    requires 0.0 < W && 0.0 < H && 0.0 < mw && 0.0 < mh
    requires W > mw || H > mh
    requires mw / mh > W / H
    ensures var s := mh / H; 0.0 < s < 1.0 && W * s < mw && H * s == mh
  {
    var s := mh / H;
    DivMul(mh, H);
    PositiveQuotient(mh, H);
    assert W * s < mw by {
      assert W * s == (W / H) * mh;
      assert (W / H) * mh < (mw / mh) * mh;
      DivMul(mw, mh);
    }
    if W > mw {
      BelowOne(W, s, mw);
    } else {
      BelowOne(H, s, mh);
    }
  }

  /** Scaling an oversized picture to the viewport's width, when the
      viewport is not relatively wider: the width touches, the height stays
      inside, and the scale shrinks. */
  lemma ScaleByWidth(W: real, H: real, mw: real, mh: real)
    requires 0.0 < W && 0.0 < H && 0.0 < mw && 0.0 < mh
    requires W > mw || H > mh
    requires mw / mh <= W / H
    ensures var s := mw / W; 0.0 < s < 1.0 && H * s <= mh && W * s == mw
  {
    var s := mw / W;
    DivMul(mw, W);
    PositiveQuotient(mw, W);
    assert H * s <= mh by {
      assert mw / mh * mh == mw;
      assert W / H * H == W;
      assert mw <= (W / H) * mh;
      assert H * s == mw * (H / W);
      assert mw * (H / W) <= (W / H) * mh * (H / W);
      assert (W / H) * (H / W) == 1.0;
    }
    if W > mw {
      BelowOne(W, s, mw);
    } else {
      BelowOne(H, s, mh);
    }
  }

  lemma DivMul(a: real, b: real)
    requires b != 0.0
    ensures b * (a / b) == a
  {
  }

  /** A positive side scaled into a bound shorter than itself was scaled by
      less than one. */
  lemma BelowOne(x: real, s: real, bound: real)
    requires 0.0 < x && x * s <= bound < x
    ensures s < 1.0
  {
  }

  /** Python's `list[k]` index for `-n <= k < n`: a negative index counts
      from the end. */
  function PyIndex(n: nat, k: int): (r: nat)
    requires -(n as int) <= k < n
    ensures r < n
    ensures k < 0 ==> r == n + k
    ensures 0 <= k ==> r == k
  {
    if k < 0 then n + k else k
  }

  /** The previous picture's position: `image_list[index - 1]`, which from
      the first position is the last. */
  function PrevIndex(i: nat, n: nat): (r: nat)
    requires i < n
    ensures r < n && r == (i + n - 1) % n
  {
    PyIndex(n, i - 1)
  }

  /** The next picture's position: the last position steps to -1 first, so
      that `index + 1` wraps to the first. */
  function NextIndex(i: nat, n: nat): (r: nat)
    requires i < n
    ensures r < n && r == (i + 1) % n
  {
    var j := if i == n - 1 then -1 else i;
    PyIndex(n, j + 1)
  }

  /** Stepping back and then forward, or forward and then back, returns to
      the starting position. */
  lemma NavigationInverse(i: nat, n: nat)
    requires i < n
    ensures NextIndex(PrevIndex(i, n), n) == i
    ensures PrevIndex(NextIndex(i, n), n) == i
  {
  }

  /** `list.index`: the first position holding `name`, or `ValueError`. */
  function IndexOf(list: seq<string>, name: string): (r: Result<nat>)
    ensures r.Failure? <==> name !in list
    ensures r.Failure? ==> r.error == ValueError
    ensures r.Success? ==>
      r.value < |list| && list[r.value] == name && forall j :: 0 <= j < r.value ==> list[j] != name
  {
    if |list| == 0 then Failure(ValueError)
    else if list[0] == name then Success(0)
    else
      match IndexOf(list[1..], name)
      case Success(k) => Success(k + 1)
      case Failure(e) => Failure(e)
  }

  predicate Distinct(list: seq<string>) {
    forall i, j :: 0 <= i < j < |list| ==> list[i] != list[j]
  }

  /** The file `openPrevImage` opens, from the directory listing `list` and
      the current file's name. */
  function PrevFile(list: seq<string>, name: string): (r: Result<string>)
    ensures r.Failure? <==> name !in list
    ensures r.Failure? ==> r.error == ValueError
    ensures r.Success? ==> r.value in list
    ensures r.Success? ==> r.value == list[PrevIndex(IndexOf(list, name).value, |list|)]
  {
    var k :- IndexOf(list, name);
    Success(list[PrevIndex(k, |list|)])
  }

  /** The file `openNextImage` opens. */
  function NextFile(list: seq<string>, name: string): (r: Result<string>)
    ensures r.Failure? <==> name !in list
    ensures r.Failure? ==> r.error == ValueError
    ensures r.Success? ==> r.value in list
    ensures r.Success? ==> r.value == list[NextIndex(IndexOf(list, name).value, |list|)]
  {
    var k :- IndexOf(list, name);
    Success(list[NextIndex(k, |list|)])
  }

  /** In a listing without repeated names, "previous" then "next" (or the
      other way round) comes back to the same file. */
  lemma PrevNextRoundTrip(list: seq<string>, name: string)
    requires Distinct(list) && name in list
    ensures NextFile(list, PrevFile(list, name).value) == Success(name)
    ensures PrevFile(list, NextFile(list, name).value) == Success(name)
  {
    var k := IndexOf(list, name).value;
    var p := PrevIndex(k, |list|);
    var q := NextIndex(k, |list|);
    IndexOfDistinct(list, p);
    IndexOfDistinct(list, q);
    NavigationInverse(k, |list|);
  }

  /** Without repeated names, the position of the name at `k` is `k`. */
  lemma IndexOfDistinct(list: seq<string>, k: nat)
    requires Distinct(list) && k < |list|
    ensures IndexOf(list, list[k]) == Success(k)
  {
    var r := IndexOf(list, list[k]);
    assert r.Success?;
    assert !(r.value < k);
    assert !(k < r.value);
  }

  /** The zoom-in button as written: 6/5 of the current zoom; the crop
      ratios are left as the last `SetImage` recorded them. */
  function ZoomIn(v: View, scaled: Size): (r: View)
    ensures r.scale == v.scale * 1.2 && r.pic == v.pic
    ensures r.scaleW == v.scaleW && r.scaleH == v.scaleH
    ensures r.scale == 1.0 ==> r.disp == v.pic
    ensures r.scale != 1.0 ==> r.disp == scaled
  {
    ZoomBy(v, 6.0 / 5.0, scaled)
  }

  /** The zoom-out button as written: 5/6 of the current zoom, ratios left
      as they were. */
  function ZoomOut(v: View, scaled: Size): (r: View)
    ensures r.scale * 1.2 == v.scale && r.pic == v.pic
    ensures r.scaleW == v.scaleW && r.scaleH == v.scaleH
    ensures r.scale == 1.0 ==> r.disp == v.pic
    ensures r.scale != 1.0 ==> r.disp == scaled
  {
    ZoomBy(v, 5.0 / 6.0, scaled)
  }

  /** The original-size button as written: zoom 1.0 and the original shown
      unscaled, but the crop ratios left as they were. */
  function OrigSize(v: View): (r: View)
    ensures r.scale == 1.0 && r.disp == r.pic == v.pic
    ensures r.scaleW == v.scaleW && r.scaleH == v.scaleH
  {
    ShowScaled(v.(scale := 1.0), v.pic)
  }

  /** The zoom-in button with the crop ratios kept current. */
  function ZoomInRescaled(v: View, scaled: Size): (r: View)
    requires v.pic.w > 0 && v.pic.h > 0
    ensures r.scale == v.scale * 1.2 && ScalesMatchDisplay(r)
    ensures r.disp == ZoomIn(v, scaled).disp
    ensures r.scale != 1.0 ==> r.disp == scaled
  {
    ZoomByRescaled(v, 6.0 / 5.0, scaled)
  }

  /** The zoom-out button with the crop ratios kept current. */
  function ZoomOutRescaled(v: View, scaled: Size): (r: View)
    requires v.pic.w > 0 && v.pic.h > 0
    ensures r.scale * 1.2 == v.scale && ScalesMatchDisplay(r)
    ensures r.disp == ZoomOut(v, scaled).disp
    ensures r.scale != 1.0 ==> r.disp == scaled
  {
    ZoomByRescaled(v, 5.0 / 6.0, scaled)
  }

  /** The original-size button with the crop ratios recomputed: at zoom 1.0
      they are exactly 1. */
  function OrigSizeRescaled(v: View): (r: View)
    requires v.pic.w > 0 && v.pic.h > 0
    ensures r.scale == 1.0 && r.disp == r.pic == v.pic
    ensures r.scaleW == 1.0 && r.scaleH == 1.0
  {
    Rescaled(OrigSize(v))
  }

  /** Zooming in and then out restores the zoom factor exactly, with either
      version of the buttons. */
  lemma ZoomOutUndoesZoomIn(v: View, s1: Size, s2: Size)
    ensures ZoomOut(ZoomIn(v, s1), s2).scale == v.scale
    ensures v.pic.w > 0 && v.pic.h > 0 ==> ZoomOutRescaled(ZoomInRescaled(v, s1), s2).scale == v.scale
  {
  }

  /** The original-size button leaves the crop ratios stale. A 1000x1000
      picture set at zoom 0.5 (displayed at 500x500) records ratios of 0.5;
      after the button shows it at 1000x1000, cropping the whole displayed
      pixmap asks for a 2000x2000 region of the original. */
  lemma OrigSizeLeavesCropRatioStale()
    ensures var v0 := SetImage(InitialView().(scale := 0.5), Size(1000, 1000), Size(500, 500)).value;
      var v1 := OrigSize(v0);
      var b := Crop.EnterCropMode(Crop.Idle(), v1.disp, v1.pic);
      && v1.scaleW == 0.5 && v1.disp == Size(1000, 1000)
      && !ScalesMatchDisplay(v1)
      && CropImage(v1, b) == Success(Region(0.0, 0.0, 2000.0, 2000.0))
  {
    var v0 := SetImage(InitialView().(scale := 0.5), Size(1000, 1000), Size(500, 500)).value;
    assert v0.scaleW == 0.5 && v0.scaleH == 0.5;
  }

  /** With the ratios recomputed, the same picture cropped whole after the
      original-size button yields the whole 1000x1000 original. */
  lemma OrigSizeRescaledCropsCorrectly()
    ensures var v0 := SetImage(InitialView().(scale := 0.5), Size(1000, 1000), Size(500, 500)).value;
      var v1 := OrigSizeRescaled(v0);
      var b := Crop.EnterCropMode(Crop.Idle(), v1.disp, v1.pic);
      CropImage(v1, b) == Success(Region(0.0, 0.0, 1000.0, 1000.0))
  {
    var v0 := SetImage(InitialView().(scale := 0.5), Size(1000, 1000), Size(500, 500)).value;
    var v1 := OrigSizeRescaled(v0);
    FullBoxCropsWholeImage(v1, Crop.Idle());
  }

  /** The resolution `updateStatus` shows: in crop mode the in-drag box in
      original pixels, coerced to int by `%i`; otherwise the picture size. */
  function UpdateStatus(v: View, b: Crop.CropBox): (r: Result<Size>)
    ensures !b.cropMode ==> r == Success(v.pic)
    ensures b.cropMode ==> (r.Failure? <==> v.scaleW == 0.0 || v.scaleH == 0.0)
  {
    if !b.cropMode then Success(v.pic)
    else if v.scaleW == 0.0 || v.scaleH == 0.0 then Failure(ZeroDivisionError)
    else
      var w := (b.p2.x - b.p1.x + 1) as real / v.scaleW;
      var h := (b.p2.y - b.p1.y + 1) as real / v.scaleH;
      Success(Size(Trunc(w), Trunc(h)))
  }

  /** In crop mode the status resolution is within one pixel of the
      in-drag box's inclusive size in original pixels. */
  lemma StatusTracksDragBox(v: View, b: Crop.CropBox)
    requires b.cropMode && v.scaleW != 0.0 && v.scaleH != 0.0
    ensures var r := UpdateStatus(v, b).value;
      && AbsR(r.w as real - (b.p2.x - b.p1.x + 1) as real / v.scaleW) < 1.0
      && AbsR(r.h as real - (b.p2.y - b.p1.y + 1) as real / v.scaleH) < 1.0
  {
    var w := (b.p2.x - b.p1.x + 1) as real / v.scaleW;
    var h := (b.p2.y - b.p1.y + 1) as real / v.scaleH;
    assert UpdateStatus(v, b).value == Size(Trunc(w), Trunc(h));
    assert AbsR(w - Trunc(w) as real) < 1.0;
    assert AbsR(h - Trunc(h) as real) < 1.0;
  }

  /** After a release, the crop-mode status shows exactly the size of the
      rectangle a crop would copy. */
  lemma StatusMatchesCrop(v: View, b: Crop.CropBox)
    requires b.cropMode && v.scaleW != 0.0 && v.scaleH != 0.0
    ensures var c := Crop.Release(b);
      var q := CopyRect(CropImage(v, c).value);
      UpdateStatus(v, c) == Success(Size(q.x2 - q.x1 + 1, q.y2 - q.y1 + 1))
  {
  }
}
