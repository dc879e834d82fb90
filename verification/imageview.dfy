/** The image widget's view of its picture: the original pixmap size, the
    displayed pixmap size, the zoom factor, and the displayed/original
    ratios used to map a crop box back to the original. */
module ImageView {
  import opened Wrappers
  import opened Geometry
  import Crop

  /** `pic` is the original pixmap's size, `disp` the displayed one's;
      `scaleW`/`scaleH` are the ratios recorded by the last `SetImage`. */
  datatype View = View(pic: Size, disp: Size, scale: real, scaleW: real, scaleH: real)

  /** A crop request in original-image pixels, before Qt truncates it. */
  datatype Region = Region(x: real, y: real, w: real, h: real)

  /** The widget before any picture is set: zoom 1.0, empty pixmaps. */
  function InitialView(): (v: View)
    ensures v.scale == 1.0
  {
    View(Size(0, 0), Size(0, 0), 1.0, 0.0, 0.0)
  }

  /** The ratios a view records agree with its current pixmaps. */
  predicate ScalesMatchDisplay(v: View) {
    && v.pic.w > 0 && v.pic.h > 0
    && v.scaleW * v.pic.w as real == v.disp.w as real
    && v.scaleH * v.pic.h as real == v.disp.h as real
  }

  /** The size of the pixmap shown at zoom `scale`: at exactly 1.0 an
      unscaled copy, otherwise whatever Qt's smooth `scaledToHeight`
      produced (`scaled`, supplied by the toolkit). */
  function Displayed(scale: real, pic: Size, scaled: Size): (d: Size)
    ensures scale == 1.0 ==> d == pic
    ensures scale != 1.0 ==> d == scaled
  {
    if scale == 1.0 then pic else scaled
  }

  /** `showScaled`: the displayed pixmap is regenerated at the current zoom;
      nothing else changes. */
  function ShowScaled(v: View, scaled: Size): (r: View)
    ensures r.(disp := v.disp) == v
    ensures v.scale == 1.0 ==> r.disp == v.pic
    ensures v.scale != 1.0 ==> r.disp == scaled
  {
    v.(disp := Displayed(v.scale, v.pic, scaled))
  }

  /** `setImage`: a new original is shown at the current zoom and the
      displayed/original ratios are recomputed. An empty original makes the
      ratio a division by zero. */
  function SetImage(v: View, pic: Size, scaled: Size): (r: Result<View>)
    ensures r.Failure? <==> pic.w == 0 || pic.h == 0
    ensures r.Failure? ==> r.error == ZeroDivisionError
    ensures r.Success? ==> r.value.pic == pic && r.value.scale == v.scale
    ensures r.Success? && 0 < pic.w && 0 < pic.h ==> ScalesMatchDisplay(r.value)
    ensures r.Success? && v.scale == 1.0 ==> r.value.scaleW == 1.0 && r.value.scaleH == 1.0
    ensures r.Success? && v.scale == 1.0 ==> r.value.disp == pic
    ensures r.Success? && v.scale != 1.0 ==> r.value.disp == scaled
  {
    if pic.w == 0 || pic.h == 0 then Failure(ZeroDivisionError)
    else
      var d := Displayed(v.scale, pic, scaled);
      var r := View(pic, d, v.scale, d.w as real / pic.w as real, d.h as real / pic.h as real);
      RatioMatches(d.w, pic.w);
      RatioMatches(d.h, pic.h);
      assert v.scale == 1.0 ==> r.scaleW == 1.0 && r.scaleH == 1.0 by {
        if v.scale == 1.0 {
          UnitRatio(pic.w);
          UnitRatio(pic.h);
        }
      }
      Success(r)
  }

  /** A side divided by itself. */
  lemma UnitRatio(n: int)
    requires n != 0
    ensures n as real / n as real == 1.0
  {
  }

  /** The recorded ratio times the original side gives the displayed side. */
  lemma RatioMatches(d: int, p: int)
    requires p != 0
    ensures (d as real / p as real) * p as real == d as real
  {
  }

  /** `zoomBy` as written: the zoom factor is multiplied and
      the pixmap redisplayed, but the crop ratios `scaleW`/`scaleH` keep the
      values of the last `SetImage`. */
  function ZoomBy(v: View, factor: real, scaled: Size): (r: View)
    ensures r.scale == v.scale * factor
    ensures r.pic == v.pic && r.scaleW == v.scaleW && r.scaleH == v.scaleH
    ensures r.scale == 1.0 ==> r.disp == v.pic
    ensures r.scale != 1.0 ==> r.disp == scaled
  {
    ShowScaled(v.(scale := v.scale * factor), scaled)
  }

  /** Recomputes the crop ratios from the current pixmaps. */
  function Rescaled(v: View): (r: View)
    requires v.pic.w > 0 && v.pic.h > 0
    ensures ScalesMatchDisplay(r)
    ensures r.(scaleW := v.scaleW, scaleH := v.scaleH) == v
  {
    v.(scaleW := v.disp.w as real / v.pic.w as real, scaleH := v.disp.h as real / v.pic.h as real)
  }

  /** `zoomBy` with the crop ratios kept in step with the displayed pixmap. */
  function ZoomByRescaled(v: View, factor: real, scaled: Size): (r: View)
    requires v.pic.w > 0 && v.pic.h > 0
    ensures r.scale == v.scale * factor && r.pic == v.pic
    ensures r.disp == ZoomBy(v, factor, scaled).disp
    ensures r.scale == 1.0 ==> r.disp == v.pic
    ensures r.scale != 1.0 ==> r.disp == scaled
    ensures ScalesMatchDisplay(r)
  {
    Rescaled(ZoomBy(v, factor, scaled))
  }

  /** `cropImage`: the committed box, mapped from displayed to original
      pixels by the recorded ratios. Mapping the result back by the same
      ratios gives the box's origin and inclusive size. */
  function CropImage(v: View, b: Crop.CropBox): (r: Result<Region>)
    ensures r.Failure? <==> v.scaleW == 0.0 || v.scaleH == 0.0
    ensures r.Failure? ==> r.error == ZeroDivisionError
    ensures r.Success? ==>
      && r.value.x * v.scaleW == b.topleft.x as real
      && r.value.y * v.scaleH == b.topleft.y as real
      && r.value.w * v.scaleW == (b.btmright.x - b.topleft.x + 1) as real
      && r.value.h * v.scaleH == (b.btmright.y - b.topleft.y + 1) as real
  {
    if v.scaleW == 0.0 || v.scaleH == 0.0 then Failure(ZeroDivisionError)
    else
      var w := (b.btmright.x - b.topleft.x + 1) as real / v.scaleW;
      var h := (b.btmright.y - b.topleft.y + 1) as real / v.scaleH;
      Success(Region(b.topleft.x as real / v.scaleW, b.topleft.y as real / v.scaleH, w, h))
  }

  /** The rectangle Qt's `copy` receives: every coordinate of the request
      coerced to an int, so each is within one pixel of the exact value. */
  function CopyRect(g: Region): (r: Rect)
    ensures AbsR(r.x1 as real - g.x) < 1.0 && AbsR(r.y1 as real - g.y) < 1.0
    ensures AbsR((r.x2 - r.x1 + 1) as real - g.w) < 1.0
    ensures AbsR((r.y2 - r.y1 + 1) as real - g.h) < 1.0
  {
    RectAt(Trunc(g.x), Trunc(g.y), Trunc(g.w), Trunc(g.h))
  }

  /** At zoom 1.0 the displayed pixmap is the original, so a crop is the
      committed box itself: its top-left and its inclusive size. */
  lemma CropAtUnitZoom(v: View, pic: Size, scaled: Size, b: Crop.CropBox)
    requires v.scale == 1.0 && 0 < pic.w && 0 < pic.h
    ensures SetImage(v, pic, scaled).Success?
    ensures CropImage(SetImage(v, pic, scaled).value, b) ==
      Success(Region(b.topleft.x as real, b.topleft.y as real,
                     (b.btmright.x - b.topleft.x + 1) as real, (b.btmright.y - b.topleft.y + 1) as real))
  {
  }

  /** When the ratios match the displayed pixmap, cropping the box crop mode
      starts with yields the whole original image. */
  lemma FullBoxCropsWholeImage(v: View, b: Crop.CropBox)
    requires ScalesMatchDisplay(v) && 0 < v.disp.w && 0 < v.disp.h
    ensures CropImage(v, Crop.EnterCropMode(b, v.disp, v.pic)) ==
      Success(Region(0.0, 0.0, v.pic.w as real, v.pic.h as real))
  {
    var e := Crop.EnterCropMode(b, v.disp, v.pic);
    var r := CropImage(v, e);
    assert v.scaleW != 0.0 && v.scaleH != 0.0;
    assert r.value.w * v.scaleW == v.pic.w as real * v.scaleW;
    assert r.value.h * v.scaleH == v.pic.h as real * v.scaleH;
  }

  /** `ImageView.zoomBy` leaves the crop ratios stale. A 1000x1000 picture
      shown at zoom 1.0 and zoomed in to 1200x1200: cropping the whole
      displayed pixmap asks for a 1200x1200 region of the 1000x1000 original,
      and a box starting at displayed pixel 600 (original pixel 500) starts
      at original pixel 600. */
  lemma ZoomLeavesCropRatioStale()
    ensures var v0 := SetImage(InitialView(), Size(1000, 1000), Size(0, 0)).value;
      var v1 := ZoomBy(v0, 6.0 / 5.0, Size(1200, 1200));
      var b := Crop.EnterCropMode(Crop.Idle(), v1.disp, v1.pic);
      && !ScalesMatchDisplay(v1)
      && CropImage(v1, b) == Success(Region(0.0, 0.0, 1200.0, 1200.0))
      && CropImage(v1, b.(topleft := Point(600, 600))).value.x == 600.0
  {
    var v0 := SetImage(InitialView(), Size(1000, 1000), Size(0, 0)).value;
    assert v0.scaleW == 1.0 && v0.scaleH == 1.0;
  }

  /** The corrected zoom: the same picture and zoom, cropped whole, yields
      the whole 1000x1000 original, and displayed pixel 600 maps to original
      pixel 500. */
  lemma RescaledZoomCropsCorrectly()
    ensures var v0 := SetImage(InitialView(), Size(1000, 1000), Size(0, 0)).value;
      var v1 := ZoomByRescaled(v0, 6.0 / 5.0, Size(1200, 1200));
      var b := Crop.EnterCropMode(Crop.Idle(), v1.disp, v1.pic);
      && CropImage(v1, b) == Success(Region(0.0, 0.0, 1000.0, 1000.0))
      && CropImage(v1, b.(topleft := Point(600, 600))).value.x == 500.0
  {
    var v0 := SetImage(InitialView(), Size(1000, 1000), Size(0, 0)).value;
    var v1 := ZoomByRescaled(v0, 6.0 / 5.0, Size(1200, 1200));
    assert v1.disp == Size(1200, 1200);
    FullBoxCropsWholeImage(v1, Crop.Idle());
  }
}
