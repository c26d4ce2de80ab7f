/** `ImageViewer` (image_viewer.cpp): an image held in memory or named by
    a path, a zoom mode and ratio, a scaled cache built off the GUI thread,
    and a drawing offset kept inside the area the cache can cover.

    The cache builder running in the thread pool is abstracted: scheduling
    a build is counted in `scheduled`, `PrepareBuildingCache` records the
    size a build is for, and `CacheBuilt` receives its result. Device pixel
    ratios are taken as 1, and `qFuzzyCompare` of two ratios as equality.
 */
module ImageViewer {
  import opened Common

  datatype Mode = OriginalSize | FitWindow | FitHeight | FitWidth | CustomRatio

  datatype Transformation = FastTransformation | SmoothTransformation

  /** `ImageViewerPrivate` plus the widget facts it reads: whether the
      widget is visible and its size. */
  datatype Viewer = Viewer(
    image: Image, imagePath: string,
    cached: Image, cachedExtent: Size, cachedSize: Size,
    mode: Mode, pos: Point, startDragPos: Point, originalPos: Point,
    transformation: Transformation, ratio: real,
    building: bool, buildingFor: Size, scheduled: nat,
    visible: bool, size: Size)
  {
    /** `ImageViewer::hasImage`. */
    predicate HasImage() { !image.IsNull() || imagePath != "" }
  }

  /** `ImageViewerPrivate(q)`: original size, offset (0, 0), fast
      transformation, ratio 1, no build running. */
  function NewViewer(visible: bool, size: Size): (v: Viewer)
    ensures !v.HasImage() && v.mode == OriginalSize && v.ratio == 1.0
    ensures v.pos == Point(0, 0) && v.transformation == FastTransformation && !v.building
  {
    Viewer(NullImage, "", NullImage, Size(0, 0), Size(0, 0), OriginalSize, Point(0, 0), Point(0, 0), Point(0, 0),
           FastTransformation, 1.0, false, Size(0, 0), 0, visible, size)
  }

  /** `dropCache` (image_viewer.cpp:13-16): the cache becomes a null
      pixmap, whose rectangle is empty; the size it was built for is kept. */
  function DropCache(v: Viewer): (r: Viewer)
    ensures r.cached.IsNull() && r.cachedExtent == Size(0, 0)
    ensures r.cachedSize == v.cachedSize
    ensures r == v.(cached := NullImage, cachedExtent := Size(0, 0))
  {
    v.(cached := NullImage, cachedExtent := Size(0, 0))
  }

  /** `rebuildCached`: schedules a build when visible and none is running. */
  function RebuildCached(v: Viewer): (r: Viewer)
    ensures v.visible && !v.building ==> r == v.(scheduled := v.scheduled + 1)
    ensures !(v.visible && !v.building) ==> r == v
  {
    if v.visible && !v.building then v.(scheduled := v.scheduled + 1) else v
  }

  /** `prepareBuildingCache` (image_viewer.cpp:117-128), run for one
      scheduled call: without an image, or with a build already running, it
      does nothing; otherwise a build for the current size starts. */
  function PrepareBuildingCache(v: Viewer): (r: Viewer)
    requires v.scheduled > 0
    ensures r.scheduled == v.scheduled - 1
    ensures !v.HasImage() || v.building ==> r == v.(scheduled := v.scheduled - 1)
    ensures v.HasImage() && !v.building ==> r.building && r.buildingFor == v.size
    ensures r.image == v.image && r.imagePath == v.imagePath && r.cached == v.cached
  {
    var v1 := v.(scheduled := v.scheduled - 1);
    if !v.HasImage() || v.building then v1
    else v1.(building := true, buildingFor := v.size)
  }

  /** `cacheBuilt` (image_viewer.cpp:130-142): the build is over; if the
      widget was resized meanwhile another is scheduled and the result is
      thrown away, otherwise the result (a picture `extent` pixels large)
      becomes the cache, tagged with the widget size it was built for. */
  function CacheBuilt(v: Viewer, result: Image, extent: Size, targetSize: Size, targetRatio: real): (r: Viewer)
    ensures !r.building
    ensures targetSize != v.size ==> r == RebuildCached(v.(building := false))
    ensures targetSize == v.size ==>
      && r == v.(building := false, cached := result, cachedExtent := extent,
                 cachedSize := targetSize, ratio := targetRatio)
      && r.cachedSize == r.size
  {
    var v1 := v.(building := false);
    if targetSize != v.size then RebuildCached(v1)
    else v1.(cached := result, cachedExtent := extent, cachedSize := targetSize, ratio := targetRatio)
  }

  /** A stale result is never shown: after a build for the wrong size the
      cache is what it was, and a new build is scheduled when visible. */
  lemma StaleBuildReschedules(v: Viewer, result: Image, extent: Size, targetSize: Size, targetRatio: real)
    requires targetSize != v.size
    ensures CacheBuilt(v, result, extent, targetSize, targetRatio).cached == v.cached
    ensures v.visible ==> CacheBuilt(v, result, extent, targetSize, targetRatio).scheduled == v.scheduled + 1
  {
  }

  /** `ImageViewer::clear`: no image, no path, no cache. */
  function Clear(v: Viewer): (r: Viewer)
    ensures !r.HasImage() && r.cached.IsNull()
    ensures r == v.(image := NullImage, imagePath := "", cached := NullImage, cachedExtent := Size(0, 0))
  {
    DropCache(v.(image := NullImage, imagePath := ""))
  }

  /** After the cache is rebuilt for a shown image, or dropped for a hidden
      widget. */
  function Refresh(v: Viewer): (r: Viewer)
    ensures v.visible ==> r == RebuildCached(v)
    ensures !v.visible ==> r == DropCache(v)
  {
    if v.visible then RebuildCached(v) else DropCache(v)
  }

  /** `ImageViewer::setImage` (image_viewer.cpp:170-183): a null image is
      refused and changes nothing; any other image replaces the in-memory
      one, keeping the path. */
  function SetImage(v: Viewer, image: Image): (r: (bool, Viewer))
    ensures r.0 <==> !image.IsNull()
    ensures !r.0 ==> r.1 == v
    ensures r.0 ==> r.1.image == image && r.1.imagePath == v.imagePath && r.1.HasImage()
    ensures r.0 ==> r.1 == Refresh(v.(image := image))
  {
    if image.IsNull() then (false, v) else (true, Refresh(v.(image := image)))
  }

  /** `ImageViewer::setFile` (image_viewer.cpp:185-201): an empty path is
      refused; otherwise the in-memory image is dropped and the path kept,
      so the file is what `image()` will read. */
  function SetFile(v: Viewer, path: string): (r: (bool, Viewer))
    ensures r.0 <==> path != ""
    ensures !r.0 ==> r.1 == v
    ensures r.0 ==> r.1.image.IsNull() && r.1.imagePath == path && r.1.HasImage()
    ensures r.0 ==> r.1 == Refresh(v.(image := NullImage, imagePath := path))
  {
    if path == "" then (false, v) else (true, Refresh(v.(image := NullImage, imagePath := path)))
  }

  /** Where `ImageViewer::image()` takes the picture from. */
  datatype ImageSource = NoImage | InMemory(image: Image) | FromFile(path: string)

  /** `ImageViewer::image` (image_viewer.cpp:350-361): the in-memory image
      wins over the path; with neither, a null image. */
  function ImageOf(v: Viewer): (s: ImageSource)
    ensures s.NoImage? <==> !v.HasImage()
    ensures !v.image.IsNull() ==> s == InMemory(v.image)
    ensures v.image.IsNull() && v.imagePath != "" ==> s == FromFile(v.imagePath)
  {
    if v.image.IsNull() then
      if v.imagePath == "" then NoImage else FromFile(v.imagePath)
    else InMemory(v.image)
  }

  /** The image set last is the one shown: `setFile` after `setImage` reads
      the file, `setImage` after `setFile` shows the image. */
  lemma LastSetWins(v: Viewer, image: Image, path: string)
    requires !image.IsNull() && path != ""
    ensures ImageOf(SetFile(SetImage(v, image).1, path).1) == FromFile(path)
    ensures ImageOf(SetImage(SetFile(v, path).1, image).1) == InMemory(image)
  {
  }

  const MinRatio: real := 0.25
  const MaxRatio: real := 4.0

  /** `ImageViewer::setMode` (image_viewer.cpp:374-403). A negative ratio
      is refused. Nothing happens unless the mode changes or, in custom
      mode, the ratio does. Original size forces ratio 1, custom mode
      clamps the ratio to [0.25, 4], and the other modes keep the ratio
      until the next build reports one. */
  function SetMode(v: Viewer, mode: Mode, ratio: real): (r: Viewer)
    ensures ratio < 0.0 ==> r == v
    ensures ratio >= 0.0 && v.mode == mode && (mode != CustomRatio || v.ratio == ratio) ==> r == v
    ensures ratio >= 0.0 && (v.mode != mode || (mode == CustomRatio && v.ratio != ratio)) ==>
      && r.mode == mode
      && (mode == OriginalSize ==> r.ratio == 1.0)
      && (mode == CustomRatio ==> MinRatio <= r.ratio <= MaxRatio)
      && (mode == CustomRatio && MinRatio <= ratio <= MaxRatio ==> r.ratio == ratio)
      && (mode != OriginalSize && mode != CustomRatio ==> r.ratio == v.ratio)
      && r == RebuildCached(v.(mode := mode, ratio := r.ratio))
  {
    if ratio < 0.0 then v
    else
      var changed := v.mode != mode || (mode == CustomRatio && v.ratio != ratio);
      if !changed then v
      else
        var newRatio :=
          if mode == OriginalSize then 1.0
          else if mode == CustomRatio then
            (if ratio < MinRatio then MinRatio else if ratio > MaxRatio then MaxRatio else ratio)
          else v.ratio;
        RebuildCached(v.(mode := mode, ratio := newRatio))
  }

  /** Setting the same mode and ratio twice is the same as once. */
  lemma {:induction false} SetModeIdempotent(v: Viewer, mode: Mode, ratio: real)
    requires MinRatio <= ratio <= MaxRatio
    ensures SetMode(SetMode(v, mode, ratio), mode, ratio) == SetMode(v, mode, ratio)
  {
    var r := SetMode(v, mode, ratio);
    assert r.mode == mode;
    assert mode == CustomRatio ==> r.ratio == ratio;
  }

  /** `ImageViewer::setTransformationMode`: a rebuild only on change. */
  function SetTransformationMode(v: Viewer, t: Transformation): (r: Viewer)
    ensures r.transformation == t
    ensures v.transformation == t ==> r == v
    ensures v.transformation != t ==> r == RebuildCached(v.(transformation := t))
  {
    if v.transformation != t then RebuildCached(v.(transformation := t)) else v
  }

  /** One axis of the offset clamp in `paintEvent` (image_viewer.cpp:227-240):
      when the cache is `extent` long and the widget only `room`, the offset
      is kept within the overhang `delta` either way. */
  function PaintClamp(offset: int, extent: int, room: int): (r: int)
    ensures extent > room ==> -(extent - room) <= r <= extent - room
    ensures extent > room && -(extent - room) <= offset <= extent - room ==> r == offset
    ensures extent <= room ==> r == offset
  {
    if extent > room then
      var delta := extent - room;
      Min(delta, Max(-delta, offset))
    else offset
  }

  /** Clamping twice changes nothing more. */
  lemma PaintClampIdempotent(offset: int, extent: int, room: int)
    ensures PaintClamp(PaintClamp(offset, extent, room), extent, room) == PaintClamp(offset, extent, room)
  {
  }

  /** One axis of the drag clamp in `mouseMoveEvent`
      (image_viewer.cpp:296-312): with the cache's bottom-right corner
      placed on the widget's, its left (or top) edge is `widgetExtent -
      cacheExtent`, and the offset is held between that edge and 0. */
  function DragClamp(offset: int, cacheExtent: int, widgetExtent: int): (r: int)
    ensures var edge := widgetExtent - cacheExtent;
      Min(edge, 0) <= r <= Max(edge, 0)
    ensures var edge := widgetExtent - cacheExtent;
      Min(edge, 0) <= offset <= Max(edge, 0) ==> r == offset
  {
    var edge := widgetExtent - cacheExtent;
    var lo := Min(edge, 0);
    var hi := Max(edge, 0);
    var x := if offset < lo then lo else offset;
    if x > hi then hi else x
  }

  /** `QPoint::manhattanLength` of the move from `a` to `b`. */
  function Manhattan(a: Point, b: Point): nat {
    Abs(b.x - a.x) + Abs(b.y - a.y)
  }

  /** `ImageViewer::mousePressEvent` (image_viewer.cpp:257-266): a left
      press records where the drag starts and the offset it starts from. */
  function MousePress(v: Viewer, at: Point, leftButton: bool): (r: Viewer)
    ensures leftButton ==> r.startDragPos == at && r.originalPos == v.pos
    ensures !leftButton ==> r == v
    ensures r.pos == v.pos && r.image == v.image && r.cached == v.cached
  {
    if leftButton then v.(startDragPos := at, originalPos := v.pos) else v
  }

  /** Whether `mouseReleaseEvent` (image_viewer.cpp:268-281) reports a
      click: a left release that moved less than the drag distance. */
  function ReleaseIsClick(v: Viewer, at: Point, leftButton: bool, dragDistance: int): (clicked: bool)
    ensures clicked <==> leftButton && Manhattan(v.startDragPos, at) < dragDistance
  {
    leftButton && Manhattan(v.startDragPos, at) < dragDistance
  }

  /** `ImageViewer::mouseMoveEvent` (image_viewer.cpp:283-317): without an
      image nothing moves; once the pointer is more than the drag distance
      from where the press was, the offset follows it from where the press
      left it, clamped on both axes. */
  function MouseMove(v: Viewer, at: Point, dragDistance: int): (r: Viewer)
    ensures !v.HasImage() || Manhattan(v.startDragPos, at) <= dragDistance ==> r == v
    ensures v.HasImage() && Manhattan(v.startDragPos, at) > dragDistance ==>
      && r == v.(pos := r.pos)
      && r.pos.x == DragClamp(v.originalPos.x + at.x - v.startDragPos.x, v.cachedExtent.w, v.size.w)
      && r.pos.y == DragClamp(v.originalPos.y + at.y - v.startDragPos.y, v.cachedExtent.h, v.size.h)
  {
    if !v.HasImage() || Manhattan(v.startDragPos, at) <= dragDistance then v
    else
      var x := DragClamp(v.originalPos.x + at.x - v.startDragPos.x, v.cachedExtent.w, v.size.w);
      var y := DragClamp(v.originalPos.y + at.y - v.startDragPos.y, v.cachedExtent.h, v.size.h);
      v.(pos := Point(x, y))
  }

  /** After a drag the cache, placed at the offset, still covers the
      widget on each axis where it is the larger of the two. */
  lemma DragKeepsCacheOverWidget(v: Viewer, at: Point, dragDistance: int)
    requires v.HasImage() && Manhattan(v.startDragPos, at) > dragDistance
    requires v.cachedExtent.w >= v.size.w
    ensures v.size.w - v.cachedExtent.w <= MouseMove(v, at, dragDistance).pos.x <= 0
  {
  }

  /** With the cache dropped (a hidden widget, a cleared image) the empty
      rectangle sits at the widget's bottom-right corner, so a drag keeps
      the offset inside the widget. */
  lemma {:induction false} DragWithoutCacheStaysInWidget(v: Viewer, at: Point, dragDistance: int)
    requires v.size.w >= 0 && v.size.h >= 0
    ensures var r := MouseMove(DropCache(v), at, dragDistance);
      && (r.pos == v.pos || (0 <= r.pos.x <= v.size.w && 0 <= r.pos.y <= v.size.h))
  {
  }

  /** `ImageViewer::resizeEvent`: the new size, and a rebuild. */
  function ResizeEvent(v: Viewer, size: Size): (r: Viewer)
    ensures r.size == size
    ensures r == RebuildCached(v.(size := size))
  {
    RebuildCached(v.(size := size))
  }

  /** What one `paintEvent` does. */
  datatype Paint = NothingToPaint | Rebuilding | Drawn

  /** `ImageViewer::paintEvent` (image_viewer.cpp:210-242): without an image
      nothing is drawn; a missing or stale cache is rebuilt instead of
      drawn; otherwise the offset is clamped on each axis where the cache
      overhangs the widget and the cache is drawn. */
  function PaintEvent(v: Viewer): (r: (Paint, Viewer))
    ensures r.0 == NothingToPaint <==> !v.HasImage()
    ensures r.0 == NothingToPaint ==> r.1 == v
    ensures r.0 == Rebuilding <==> v.HasImage() && (v.cached.IsNull() || v.cachedSize != v.size)
    ensures r.0 == Rebuilding ==> r.1 == RebuildCached(v)
    ensures r.0 == Drawn ==>
      && r.1 == v.(pos := r.1.pos)
      && r.1.pos.x == PaintClamp(v.pos.x, v.cachedExtent.w, v.size.w)
      && r.1.pos.y == PaintClamp(v.pos.y, v.cachedExtent.h, v.size.h)
  {
    if !v.HasImage() then (NothingToPaint, v)
    else if v.cached.IsNull() || v.cachedSize != v.size then (Rebuilding, RebuildCached(v))
    else
      (Drawn, v.(pos := Point(PaintClamp(v.pos.x, v.cachedExtent.w, v.size.w),
                              PaintClamp(v.pos.y, v.cachedExtent.h, v.size.h))))
  }

  /** Painting twice in a row moves the offset no further than once. */
  lemma {:induction false} PaintIdempotent(v: Viewer)
    requires PaintEvent(v).0 == Drawn
    ensures PaintEvent(PaintEvent(v).1) == PaintEvent(v)
  {
    PaintClampIdempotent(v.pos.x, v.cachedExtent.w, v.size.w);
    PaintClampIdempotent(v.pos.y, v.cachedExtent.h, v.size.h);
  }

  /** `ImageViewer::hideEvent` drops the cache. */
  function Hide(v: Viewer): (r: Viewer)
    ensures r.cached.IsNull() && !r.visible
    ensures r.image == v.image && r.imagePath == v.imagePath
  {
    DropCache(v.(visible := false))
  }
}
