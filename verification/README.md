# pypicview crop box and photo grid, modelled in Dafny

pypicview is a small Qt image viewer. This project models the two parts
of it that hold real logic, as pure functions over immutable records.

- **The crop box of the image widget** (`Image` in `pypicview/main.py`).
  - Entering crop mode puts a box over the whole displayed pixmap.
  - A mouse press is classified into a corner grab zone, the box body or
    outside.
  - A move recomputes the in-drag corners `p1`/`p2` from the committed
    corners `topleft`/`btmright` and the pointer delta. It clamps to the
    image and can apply the W:H ratio lock.
  - A release commits the in-drag corners.
  - `cropImage` maps the committed box to original-image pixels through
    the ratios `scaleW`/`scaleH` that `setImage` records.
- **Window arithmetic around the image** (`Window` in the same file):
  - `getOptimumScale`;
  - the wrap-around index of the previous/next picture in the directory
    listing, including Python's negative indexing and the `ValueError` of
    `list.index`;
  - the zoom buttons;
  - the crop-size resolution shown in the status bar.
- **The photo grid** (`pypicview/photogrid.py`).
  - `GridPaper.setupGrid` hard-codes the layout: an 1800x1200 paper,
    413x531 cells, 4 columns and 2 rows. The leftover space is split
    evenly into gaps, outer margins included.
  - The preview boxes are drawn at half scale. Hit-testing finds the
    first box containing a point, and the hover cursor is chosen the
    same way.
  - A click stores the current photo into a sparse `index -> photo` map.
  - `createFinalGrid` places the photos at full resolution.
  - The dialog keeps a column of thumbnails, exactly one of them
    selected. The selected one's photo is the one a click drops.

Modules:
- `Wrappers`: `Option`, `Result` and the two Python errors that can arise.
- `Geometry`: points, sizes, Qt rectangles and the float-to-int truncation.
- `Crop`: the crop-box state machine.
- `ImageView`: `setImage`, `showScaled`, `zoomBy`, `cropImage`.
- `Window`: optimum scale, navigation, zoom buttons, status bar.
- `PhotoGrid`: the paper widget.
- `GridDialog`: the thumbnails and the selection rule.

Arithmetic conventions:
- Python `/` is exact `real` division.
- Where Qt (`QPoint`, `QRect`, `setX`, `copy`) or Python's `%i` format
  turns a float into an int, the model applies `Geometry.Trunc`, which
  rounds toward zero. Floating-point rounding is not modelled.
- `QRect::contains` follows the Qt 5 rule as the model states it. A
  rectangle built from a point and a size covers `x .. x + w - 1` when
  `w` is non-negative. When the stored right edge falls more than one
  pixel left of the left edge, the span is read as `x2 .. x1`. So the
  bottom-right grab zone `QRect(btmright, QSize(-60, -60))` covers the
  62x62 square `[btmright - 61, btmright]`, while the top-left zone
  covers 60x60.

## Model

| member | source | states |
|---|---|---|
| Geometry.Trunc | pypicview/main.py:156 | Coercing a float to int rounds toward zero: the result lies between 0 and the value, and is less than one away from it. |
| Geometry.ContainsSized | pypicview/main.py:85-89 | A rectangle from a point and a non-negative size contains exactly the `w` x `h` pixels from that point. With a size of -60 it contains the 62 pixels ending at the point, on each axis. |
| Crop.BoxAspect | pypicview/main.py:103 | The lock ratio `crop_width / crop_height` is positive for every spin-box value. |
| Crop.Idle | pypicview/main.py:24-27 | Before crop mode is first entered, crop mode is off and no press is in progress. |
| Crop.EnterCropMode | pypicview/main.py:62-73 | The box covers the whole displayed pixmap, and its inclusive size equals the pixmap size. `last_pt` is the bottom-right corner and the in-drag corners equal the committed ones. The lock is off and the ratio is reset to 3.5:4.5. The press point, click area and pressed flag are kept. The image aspect times the original height equals the original width. |
| Crop.ExitCropMode | pypicview/main.py:74-77 | Leaving crop mode clears only the mode flag. |
| Crop.Classify | pypicview/main.py:84-92 | A press in the 60x60 zone at `topleft` is area 1. Otherwise a press in the 62x62 zone ending at `btmright` is area 2. Otherwise a press in the inclusive box is area 3, else area 0. |
| Crop.Press | pypicview/main.py:79-92 | Outside crop mode nothing changes. In crop mode the press is recorded and classified, and the in-drag corners reset to the committed ones. Nothing else changes. |
| Crop.Release | pypicview/main.py:94-97 | In crop mode the in-drag corners become the committed ones and the press ends. Outside crop mode nothing changes. |
| Crop.FollowTopLeft | pypicview/main.py:105-107 | The unlocked top-left corner follows the delta on each axis, except that it sticks at 0 where it would go negative. |
| Crop.FollowBottomRight | pypicview/main.py:112-114 | The unlocked bottom-right corner follows the delta on each axis, except that it sticks at `last_pt` where it would pass it. |
| Crop.LockedLeft | pypicview/main.py:109 | The locked left edge makes the inclusive width equal height times ratio plus 2, not plus 0. |
| Crop.LockedTop | pypicview/main.py:110 | The locked top edge makes the inclusive height equal width over ratio plus 2. |
| Crop.LockedRight | pypicview/main.py:116 | The locked right edge makes the inclusive width equal height times ratio. |
| Crop.LockedBottom | pypicview/main.py:117 | The locked bottom edge makes the inclusive height equal width over ratio. |
| Crop.LockLeft | pypicview/main.py:109 | After coercion to int, the locked left edge gives an inclusive width within one pixel of height times ratio plus 2. |
| Crop.LockTop | pypicview/main.py:110 | After coercion, the locked top edge gives an inclusive height within one pixel of width over ratio plus 2. |
| Crop.LockRight | pypicview/main.py:116 | After coercion, the locked right edge gives an inclusive width within one pixel of height times ratio. |
| Crop.LockBottom | pypicview/main.py:117 | After coercion, the locked bottom edge gives an inclusive height within one pixel of width over ratio. |
| Crop.DragTopLeft | pypicview/main.py:105-110 | With the lock off or the aspects equal, this is the clamped corner. Otherwise the longer axis is recomputed against `p2` and truncated. The resulting inclusive size is within one pixel of the asymmetric "+2" target. |
| Crop.DragBottomRight | pypicview/main.py:112-117 | This mirrors the top-left drag against `p1`. After truncation the inclusive width is within one pixel of height times ratio, or the height within one pixel of width over ratio. |
| Crop.ClipShift | pypicview/main.py:122-123 | A negative delta is kept when it is at least `min`, and otherwise becomes `min`. A non-negative delta is kept when it is at most `max`, and otherwise becomes `max`. This holds even when `min > 0` or `max < 0`, where the result points the other way. When `min <= 0 <= max` the result lies in `[min, max]`. |
| Crop.BodyShift | pypicview/main.py:119-125 | A clipped shift keeps both committed corners inside `[(0,0), last_pt]` when they start there. |
| Crop.Move | pypicview/main.py:100-127 | Only `p1`/`p2` can change. Nothing happens without a press in crop mode, or after a press outside the box. A corner drag moves only its own corner. A body drag translates both corners by the clipped shift and keeps the size. It stays in bounds when the committed box starts inside the image. |
| Crop.MovesNotCumulative | pypicview/main.py:100-125 | A move after another move gives the same state as that move alone. Each move starts from the committed corners and the press position. |
| Crop.OutsidePressMovesNothing | pypicview/main.py:83-92 | After a press outside the box, any move leaves the in-drag corners on the committed corners. |
| Crop.DragCommitsOnRelease | pypicview/main.py:94-97 | Press and move leave the committed box untouched. The release commits exactly what the move produced. |
| Crop.BodyDragKeepsBoxInside | pypicview/main.py:119-125 | Press, body drag and release keep the box size. A box that starts inside the image stays inside it. |
| Crop.EnteredBoxIsInside | pypicview/main.py:66-69 | The box that crop mode starts with lies within `[(0,0), last_pt]`. |
| Crop.EqualAspectNoCorrection | pypicview/main.py:108-117 | When the image aspect equals the box aspect, a locked move equals an unlocked one. |
| Crop.TopLeftDragCanCrossCorners | pypicview/main.py:105-107 | On a 400x300 image, a top-left drag from (10,10) to (500,20) puts `p1.x` right of `p2.x`. Corner order is not kept. |
| Crop.LockedTopLeftCanLeaveImage | pypicview/main.py:108-110 | On a 500x100 image whose box was narrowed to 51 pixels, a top-left press with a 4:1 lock gives a negative `p1.x`. |
| Crop.BodyDragCanReverse | pypicview/main.py:119-124 | A box pushed to `topleft.x = -351` by a locked drag, then dragged 10 pixels left through its body, moves 351 pixels right. |
| ImageView.Displayed | pypicview/main.py:45-48 | At zoom exactly 1.0 the displayed pixmap has the original's size. |
| ImageView.ShowScaled | pypicview/main.py:44-50 | Only the displayed pixmap changes. At zoom 1.0 it equals the original; at any other zoom it is the pixmap Qt scaled to that zoom. |
| ImageView.SetImage | pypicview/main.py:36-41 | This fails with a division by zero exactly when the new original is empty. Otherwise the new original is shown unscaled at zoom 1.0 and as Qt's scaled pixmap at any other zoom. The ratios match the displayed pixmap, and are both 1.0 at zoom 1.0. |
| ImageView.ZoomBy | pypicview/main.py:58-60 | The zoom is multiplied by the factor and the pixmap is redisplayed: the original at zoom 1.0, Qt's scaled pixmap otherwise. The crop ratios keep their old values. |
| ImageView.Rescaled | pypicview/main.py:40-41 | The recomputed ratios match the current pixmaps, and nothing else changes. |
| ImageView.ZoomByRescaled | pypicview/main.py:58-60 | The same zoom and displayed pixmap as `ZoomBy` (the original at zoom 1.0, Qt's scaled pixmap otherwise), with ratios that match them. |
| ImageView.CropImage | pypicview/main.py:154-156 | The crop fails exactly when a ratio is 0. Otherwise, scaled back by the ratios, the crop's origin is `topleft` and its size is the inclusive box size. |
| ImageView.CopyRect | pypicview/main.py:156 | Each coordinate handed to `copy` is within one pixel of the exact request. |
| ImageView.CropAtUnitZoom | pypicview/main.py:40-46 | After `setImage` at zoom 1.0, the crop is the committed box itself. |
| ImageView.FullBoxCropsWholeImage | pypicview/main.py:154-156 | With matching ratios, cropping the initial full box yields the whole original. |
| ImageView.ZoomLeavesCropRatioStale | pypicview/main.py:58-60 | Zooming a 1000x1000 picture by 6/5 and cropping the full box asks for 1200x1200 of the original. Displayed pixel 600 maps to original pixel 600. |
| ImageView.RescaledZoomCropsCorrectly | pypicview/main.py:40-41 | With ratios recomputed after the zoom, the same crop yields 1000x1000, and displayed pixel 600 maps to original pixel 500. |
| Window.Viewport | pypicview/main.py:394-396 | The maximum pixmap width is the screen minus two button columns and the frame offsets. The maximum height is the screen minus the frame offsets and 4 + 32 pixels for the border and status bar. |
| Window.WindowFitsScreen | pypicview/main.py:394-404 | For a non-empty picture and a screen with room for a viewport, the picture at the optimum scale is never enlarged. It fits the screen across with the button columns and frame offsets, and down with the frame offsets, border and status bar. The 4-pixel border the window adds across is not reserved. |
| Window.GetOptimumScale | pypicview/main.py:391-404 | A picture that fits gets 1.0. The only failure is a division by zero, on a zero viewport height or an empty picture. |
| Window.OptimumScaleFits | pypicview/main.py:397-404 | For positive sizes the scale exists and satisfies `0 < s <= 1`, and the scaled picture fits both sides. `s` is 1 exactly when the picture fits. Otherwise one side touches the viewport. |
| Window.PyIndex | pypicview/main.py:348 | A negative list index counts from the end, and the result is a valid position. |
| Window.PrevIndex | pypicview/main.py:347-348 | The previous position is `(i - 1) mod n`: from the first position, the last. |
| Window.NextIndex | pypicview/main.py:359-361 | The next position is `(i + 1) mod n`: from the last position, the first. |
| Window.NavigationInverse | pypicview/main.py:347-361 | Next after previous, and previous after next, return to the start. |
| Window.IndexOf | pypicview/main.py:347 | `list.index` returns the first position of the name. It fails with `ValueError` exactly when the name is absent. |
| Window.PrevFile | pypicview/main.py:339-349 | The file opened is the listing entry at the previous position, `(index - 1) mod n`, of the name's first occurrence. The step fails with `ValueError` exactly when the name is not listed. |
| Window.NextFile | pypicview/main.py:351-362 | The file opened is the listing entry at the next position, `(index + 1) mod n`, of the name's first occurrence. The step fails with `ValueError` exactly when the name is not listed. |
| Window.IndexOfDistinct | pypicview/main.py:359 | In a listing without repeats, the position of the name at `k` is `k`. |
| Window.PrevNextRoundTrip | pypicview/main.py:339-362 | In a listing without repeats, next-of-previous and previous-of-next give back the same file. |
| Window.ZoomIn | pypicview/main.py:364-365 | The zoom grows by 6/5 and the pixmap is redisplayed at the new zoom. The crop ratios keep their old values. |
| Window.ZoomOut | pypicview/main.py:367-368 | The zoom shrinks by 5/6 and the pixmap is redisplayed at the new zoom. The crop ratios keep their old values. |
| Window.OrigSize | pypicview/main.py:370-372 | Zoom 1.0 shows the original unscaled. The crop ratios keep their old values. |
| Window.ZoomInRescaled | pypicview/main.py:364-365 | The corrected zoom-in: the same zoom and display as the button (Qt's scaled pixmap at the new zoom), with crop ratios that match the display. |
| Window.ZoomOutRescaled | pypicview/main.py:367-368 | The corrected zoom-out: the same zoom and display as the button (Qt's scaled pixmap at the new zoom), with matching crop ratios. |
| Window.OrigSizeRescaled | pypicview/main.py:370-372 | The corrected original-size button: zoom 1.0, the original shown unscaled, and ratios of exactly 1. |
| Window.ZoomOutUndoesZoomIn | pypicview/main.py:364-368 | Zooming in and then out restores the zoom factor exactly, in both versions. |
| Window.OrigSizeLeavesCropRatioStale | pypicview/main.py:370-372 | A 1000x1000 picture set at zoom 0.5 keeps ratio 0.5 after the button shows it at 1000x1000. Cropping the whole display then asks for 2000x2000 of the original. |
| Window.OrigSizeRescaledCropsCorrectly | pypicview/main.py:40-41 | With ratios recomputed, the same crop yields the whole 1000x1000 original. |
| Window.UpdateStatus | pypicview/main.py:418-425 | Outside crop mode the status shows the original size. In crop mode it fails exactly when a ratio is 0. |
| Window.StatusTracksDragBox | pypicview/main.py:419-421 | In crop mode the status is within one pixel of the in-drag box's inclusive size in original pixels. |
| Window.StatusMatchesCrop | pypicview/main.py:418-421 | After a release, the status shows exactly the size of the rectangle a crop would copy. |
| PhotoGrid.Spacing | pypicview/photogrid.py:105 | `(n + 1)` gaps and `n` cells exactly fill the side. The gap is non-negative when the cells fit. |
| PhotoGrid.SetupGrid | pypicview/photogrid.py:101-105 | The hard-coded grid fits its paper, with positive spacing on both axes. |
| PhotoGrid.SetupGridValues | pypicview/photogrid.py:102-114 | The spacings are 29.6 and 46. The first preview box is 205x264 at (14, 23). The preview is 900x600. |
| PhotoGrid.PreviewBox | pypicview/photogrid.py:110-111 | Box `i` sits in row `i div cols` and column `i mod cols`. Its corner is within one pixel of the exact half-scale cell start, and its size is the coerced `w/2 - 1` by `h/2 - 1`. |
| PhotoGrid.PreviewPaper | pypicview/photogrid.py:114 | The preview pixmap is half the paper on each side, rounded down. |
| PhotoGrid.Boxes | pypicview/photogrid.py:107-113 | There are exactly `cols * rows` preview boxes. |
| PhotoGrid.SetupBoxes | pypicview/photogrid.py:107-113 | The loop builds `cols * rows` boxes. Box `i` is at row `i div cols`, column `i mod cols`, in the half-scale formula. |
| PhotoGrid.NewGridPaper | pypicview/photogrid.py:92-99 | A new paper is laid out, has no assignments, and drops the given photo. |
| PhotoGrid.SetPhoto | pypicview/photogrid.py:122-123 | Only the photo to drop changes. |
| PhotoGrid.FirstHit | pypicview/photogrid.py:136-137 | The hit is the first box that contains the point. There is no hit exactly when no box contains it. |
| PhotoGrid.IndexOfRect | pypicview/photogrid.py:147 | `boxes.index(box)` returns the first position holding an equal rectangle. |
| PhotoGrid.IndexOfFirstHit | pypicview/photogrid.py:136-147 | Looking up the hit box by equality gives back the hit position. |
| PhotoGrid.HoverCursor | pypicview/photogrid.py:125-131 | The pointing hand is shown only over some box. |
| PhotoGrid.HoverMatchesClick | pypicview/photogrid.py:125-137 | The pointing hand is shown exactly when a click at the same point would hit a box. |
| PhotoGrid.ClickPaper | pypicview/photogrid.py:133-148 | A click in a box assigns the current photo to the first hit box, replacing the old photo. Every other entry is kept. A click outside every box changes nothing. |
| PhotoGrid.ClickKeepsValid | pypicview/photogrid.py:147 | Clicks only ever store box indices. |
| PhotoGrid.PreviewBoxSpan | pypicview/photogrid.py:111 | A preview box covers a span of `Trunc(w/2 - 1)` pixels from its truncated start on each axis. That size is at most half a cell. |
| PhotoGrid.PreviewBoxesDisjoint | pypicview/photogrid.py:105-113 | With non-negative spacing, no point lies in two preview boxes. |
| PhotoGrid.PreviewBoxInsidePaper | pypicview/photogrid.py:105-114 | Every preview box lies inside the `paperW/2 x paperH/2` preview. |
| PhotoGrid.ClickOnBoxAssignsIt | pypicview/photogrid.py:133-148 | A click inside box `k` hits `k` itself and assigns the photo to `k`. |
| PhotoGrid.FinalPlacement | pypicview/photogrid.py:155-157 | The placement's corner is within one pixel of the exact full-scale cell start. The photo is scaled to fit within a `W` x `H` cell. |
| PhotoGrid.CreateFinalGrid | pypicview/photogrid.py:150-158 | Exactly the assigned cells get placements. Each is its cell's `FinalPlacement`, at the full-scale cell start, and carries its own photo, scaled to fit within the cell. Unassigned cells stay blank. |
| PhotoGrid.FinalIsTwicePreviewExact | pypicview/photogrid.py:155-156 | In exact arithmetic a full-resolution cell starts at twice its preview start. |
| PhotoGrid.FinalDoublesPreview | pypicview/photogrid.py:150-158 | Each final corner is twice its preview box's corner, or one more, after the two truncations. |
| PhotoGrid.FinalPlacementInside | pypicview/photogrid.py:151-158 | Each placed photo lies inside the full-size paper. |
| PhotoGrid.FinalPlacementsDisjoint | pypicview/photogrid.py:154-158 | Placements of different cells do not overlap. |
| GridDialog.OpenDialog | pypicview/photogrid.py:12-29 | The dialog opens with one selected thumbnail of the photo, which is also the photo a click drops, on an empty laid-out paper. |
| GridDialog.SelectOnly | pypicview/photogrid.py:85-89 | After `selectThumbnail` exactly the clicked thumbnail is selected. No photo changes. |
| GridDialog.ClickThumbnail | pypicview/photogrid.py:60-89 | Clicking thumbnail `k` selects only `k` and makes its photo current. The paper is otherwise unchanged. |
| GridDialog.AddPhoto | pypicview/photogrid.py:31-41 | A loaded image appends one unselected thumbnail and keeps the others. Cancel or a null image changes nothing, and the paper never changes. |
| GridDialog.ClickPaperIn | pypicview/photogrid.py:133-148 | A paper click leaves the thumbnails and the current photo alone, and updates the paper as the paper's own click does. |
| GridDialog.Accept | pypicview/photogrid.py:43-46 | Accepting yields one placement per assigned cell, carrying its photo. |
| GridDialog.SelectionUnique | pypicview/photogrid.py:85-89 | At most one thumbnail is the selected one. |
| GridDialog.SelectedIsCurrent | pypicview/photogrid.py:22-29 | In a consistent dialog the selected thumbnail's photo is the current photo. |
| GridDialog.ClickThumbnailKeepsConsistent | pypicview/photogrid.py:81-89 | A thumbnail click keeps exactly one selection, matched with the current photo. |
| GridDialog.AddPhotoKeepsSelection | pypicview/photogrid.py:31-41 | Adding a photo keeps the selected thumbnail and the current photo. |
| GridDialog.AddPhotoKeepsConsistent | pypicview/photogrid.py:37-41 | Adding a photo keeps the selection rule. |
| GridDialog.ClickPaperKeepsConsistent | pypicview/photogrid.py:133-148 | A paper click keeps the selection rule and the paper layout. |
| GridDialog.ClickDropsSelectedPhoto | pypicview/photogrid.py:122-148 | A click inside box `b` stores the selected thumbnail's photo at `b` and nothing else. |
| GridDialog.RunKeepsConsistent | pypicview/photogrid.py:22-41 | Any sequence of thumbnail clicks, photo additions and paper clicks keeps the selection rule. |
| GridDialog.Run | pypicview/photogrid.py:12-41 | No sequence of dialog events changes the grid layout, removes a thumbnail or changes a thumbnail's photo. Assigned cells stay assigned. |
| GridDialog.ReachableConsistent | pypicview/photogrid.py:12-29 | Every dialog state reachable after opening satisfies the selection rule. |

## Left out

- Painting and widgets are not modelled. This covers `drawCropBox`, `Thumbnail.select` (only its selected flag is kept), pixmap fills, `setPixmap`, `setCursor`, layouts and the help box. They are toolkit rendering.
- Pixmap operations are not modelled: `copy`, `scaled`, `scaledToHeight`, `scaledToWidth`, `transformed` and `save` are toolkit calls. Where the size of a scaled pixmap matters, it is a parameter. The model produces rectangles and placements, never pixels.
- The clipping that `QPixmap::copy` applies to a request reaching past the picture is not modelled. `CropImage` states the request.
- File dialogs, `QImageReader`, directory listing, `QSettings`, window moves and resizes, the `wait` loop and the slideshow timer are not modelled. The outcome of the open-file dialog is a parameter (`OpenOutcome`). The directory listing is a parameter of `PrevFile`/`NextFile`.
- The `fi.exists()` guard of the navigation buttons is not modelled. It is file-system I/O.
- `rotate`, `ResizeDialog` and `addBorder` are not modelled. They are thin glue over toolkit scaling and painting.
- `lockCropRatio`, `setCropWidth` and `setCropHeight` are plain field assignments (`b.(lock := ...)`). The spin-box range 0.1 to 9.9 is the `SpinValue` type.
- `setAnimation` is not modelled. It resets the zoom for movies, which have no crop or grid logic.
- Floating point is not modelled: all ratios are exact reals. `ZoomOutUndoesZoomIn` therefore holds exactly, where the program's doubles may drift by a rounding error.
- `setupGrid` hard-codes one layout, and nothing reconfigures the grid or clears the map. The model has one fixed configuration per paper, and its lemmas hold for any configuration whose cells fit.
- Crop.Classify: areas 3 and 0 are characterised only for boxes whose corners are in order. For crossed corners, the body test uses Qt's normalised span, as `Geometry.Contains` defines it.
- ImageView.CopyRect: it states each coordinate to within one pixel rather than exactly. The exact value is `Geometry.Trunc` of the request.
- PhotoGrid.PreviewBoxesDisjoint, PhotoGrid.PreviewBoxInsidePaper: they are stated for any grid whose cells fit its paper. The source only ever builds the hard-coded one.

## Findings

| source | as written | input that shows it | evidently intended | confidence | as-written member | corrected member |
|---|---|---|---|---|---|---|
| pypicview/main.py:58-60 | `zoomBy` changes the zoom and redisplays, but does not recompute `scaleW`/`scaleH`, which only `setImage` sets. A crop after a zoom maps displayed pixels with the old ratio. | A 1000x1000 picture at zoom 1.0, zoomed in once to 1200x1200. Cropping the full box requests a 1200x1200 region of the 1000x1000 original, and displayed pixel 600 maps to original pixel 600 instead of 500. | The ratios are recomputed whenever the displayed pixmap changes, so a crop selects what is shown. | medium (not executed) | ImageView.ZoomLeavesCropRatioStale | ImageView.RescaledZoomCropsCorrectly |
| pypicview/main.py:370-372 | `origSizeImage` sets the zoom to 1.0 and redisplays, but does not recompute `scaleW`/`scaleH`. | A 1000x1000 picture set at zoom 0.5 records ratios of 0.5. After the button, cropping the whole 1000x1000 display requests a 2000x2000 region of the original. | The ratios become 1 with the pixmap shown unscaled, so a crop selects what is shown. | medium (not executed) | Window.OrigSizeLeavesCropRatioStale | Window.OrigSizeRescaledCropsCorrectly |
