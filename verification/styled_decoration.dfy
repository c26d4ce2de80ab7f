/** The frameless window decoration of styled_decoration.cpp: which border
    zone a point falls in, the resize cursor shown there, resizing by an
    edge against a minimum size, maximize and restore, the child's margins
    and the mouse handlers that tie these together. The style's metrics
    and the title bar's sub-control hit test are parameters.
 */
module StyledDecoration {
  import opened Common

  /** `ResizeAtCorner`. */
  datatype Zone = Nowhere | TopLeft | BottomLeft | TopRight | BottomRight | Left | Top | Right | Bottom

  /** The resize cursors; `Unset` is `unsetCursor()`. */
  datatype Cursor = FDiag | BDiag | Hor | Ver | Unset

  /** The border width: half the style's frame-width metric, at least 2. */
  function FrameWidth(metric: int): (fw: int)
    ensures fw >= 2
    ensures TruncDiv(metric, 2) >= 2 ==> fw == TruncDiv(metric, 2)
  {
    var fw := TruncDiv(metric, 2);
    if fw < 2 then 2 else fw
  }

  /** The four border bands of a `w` x `h` widget, `fw` wide, edges
      included. */
  predicate NearLeft(p: Point, fw: int) { 0 <= p.x <= fw }
  predicate NearTop(p: Point, fw: int) { 0 <= p.y <= fw }
  predicate NearRight(p: Point, w: int, fw: int) { w - fw <= p.x <= w }
  predicate NearBottom(p: Point, h: int, fw: int) { h - fw <= p.y <= h }

  /** The bands a zone asks for. */
  predicate InZone(z: Zone, p: Point, w: int, h: int, fw: int) {
    match z
    case Nowhere => true
    case TopLeft => NearLeft(p, fw) && NearTop(p, fw)
    case BottomLeft => NearLeft(p, fw) && NearBottom(p, h, fw)
    case TopRight => NearRight(p, w, fw) && NearTop(p, fw)
    case BottomRight => NearRight(p, w, fw) && NearBottom(p, h, fw)
    case Left => NearLeft(p, fw)
    case Top => NearTop(p, fw)
    case Right => NearRight(p, w, fw)
    case Bottom => NearBottom(p, h, fw)
  }

  predicate IsCorner(z: Zone) {
    z.TopLeft? || z.BottomLeft? || z.TopRight? || z.BottomRight?
  }

  /** `tryToResize`'s classification: corners first (top-left, bottom-left,
      top-right, bottom-right), then the left, top, right and bottom
      edges; a point in no band is `Nowhere`. */
  function ZoneAt(p: Point, w: int, h: int, metric: int): (z: Zone)
    ensures var fw := FrameWidth(metric);
      InZone(z, p, w, h, fw)
      && (z == Nowhere <==>
            !NearLeft(p, fw) && !NearTop(p, fw) && !NearRight(p, w, fw) && !NearBottom(p, h, fw))
      && ((NearLeft(p, fw) || NearRight(p, w, fw)) && (NearTop(p, fw) || NearBottom(p, h, fw)) ==> IsCorner(z))
      && (NearLeft(p, fw) && NearTop(p, fw) ==> z == TopLeft)
  {
    var fw := FrameWidth(metric);
    if NearLeft(p, fw) && NearTop(p, fw) then TopLeft
    else if NearLeft(p, fw) && NearBottom(p, h, fw) then BottomLeft
    else if NearRight(p, w, fw) && NearTop(p, fw) then TopRight
    else if NearRight(p, w, fw) && NearBottom(p, h, fw) then BottomRight
    else if NearLeft(p, fw) then Left
    else if NearTop(p, fw) then Top
    else if NearRight(p, w, fw) then Right
    else if NearBottom(p, h, fw) then Bottom
    else Nowhere
  }

  /** `tryToResize`: the zone it stores and whether a resize starts. */
  function TryToResize(p: Point, w: int, h: int, metric: int): (r: (Zone, bool))
    ensures r.1 <==> r.0 != Nowhere
    ensures r.0 == ZoneAt(p, w, h, metric)
  {
    var z := ZoneAt(p, w, h, metric);
    (z, z != Nowhere)
  }

  /** The cursor that belongs to each zone. */
  function CursorFor(z: Zone): Cursor {
    match z
    case Nowhere => Unset
    case TopLeft => FDiag
    case BottomRight => FDiag
    case BottomLeft => BDiag
    case TopRight => BDiag
    case Left => Hor
    case Right => Hor
    case Top => Ver
    case Bottom => Ver
  }

  /** `showResizeCursor`, with its own copy of the tests: the cursor set
      and whether one was. */
  function ShowResizeCursor(p: Point, w: int, h: int, metric: int): (r: (Cursor, bool))
  {
    var fw := FrameWidth(metric);
    if 0 <= p.x <= fw && 0 <= p.y <= fw then (FDiag, true)
    else if 0 <= p.x <= fw && h - fw <= p.y <= h then (BDiag, true)
    else if w - fw <= p.x <= w && 0 <= p.y <= fw then (BDiag, true)
    else if w - fw <= p.x <= w && h - fw <= p.y <= h then (FDiag, true)
    else if 0 <= p.x <= fw then (Hor, true)
    else if 0 <= p.y <= fw then (Ver, true)
    else if w - fw <= p.x <= w then (Hor, true)
    else if h - fw <= p.y <= h then (Ver, true)
    else (Unset, false)
  }

  /** The hover cursor agrees with the press: it is shown exactly where a
      press would start a resize, and it is the zone's cursor. */
  lemma CursorMatchesZone(p: Point, w: int, h: int, metric: int)
    ensures ShowResizeCursor(p, w, h, metric).1 == TryToResize(p, w, h, metric).1
    ensures ShowResizeCursor(p, w, h, metric).0 == CursorFor(ZoneAt(p, w, h, metric))
  {
  }

  /** The minimum size while resizing: the child's minimum size hint
      raised to at least 200 x 150, or 200 x 150 without a child. */
  function MinimumSize(child: Option<Size>): (s: Size)
    ensures s.w >= 200 && s.h >= 150
    ensures child.Some? ==> s.w == Max(child.value.w, 200) && s.h == Max(child.value.h, 150)
  {
    match child
    case None => Size(200, 150)
    case Some(hint) => Size(if hint.w < 200 then 200 else hint.w, if hint.h < 150 then 150 else hint.h)
  }

  predicate MovesTop(z: Zone) { z.TopLeft? || z.TopRight? || z.Top? }
  predicate MovesLeft(z: Zone) { z.TopLeft? || z.BottomLeft? || z.Left? }
  predicate MovesBottom(z: Zone) { z.BottomLeft? || z.BottomRight? || z.Bottom? }
  predicate MovesRight(z: Zone) { z.TopRight? || z.BottomRight? || z.Right? }

  /** `resizeMe`: each edge the zone names follows the pointer unless that
      would undercut the minimum size, in which case it stays; the other
      edges never move. */
  function ResizeMe(g: Rect, z: Zone, pos: Point, child: Option<Size>): (r: Rect)
    ensures var m := MinimumSize(child);
      (MovesTop(z) ==> r.top == (if g.bottom - pos.y + 1 >= m.h then pos.y else g.top))
      && (MovesBottom(z) ==> r.bottom == (if pos.y - g.top + 1 >= m.h then pos.y else g.bottom))
      && (MovesLeft(z) ==> r.left == (if g.right - pos.x + 1 >= m.w then pos.x else g.left))
      && (MovesRight(z) ==> r.right == (if pos.x - g.left + 1 >= m.w then pos.x else g.right))
    ensures !MovesTop(z) ==> r.top == g.top
    ensures !MovesBottom(z) ==> r.bottom == g.bottom
    ensures !MovesLeft(z) ==> r.left == g.left
    ensures !MovesRight(z) ==> r.right == g.right
    ensures var m := MinimumSize(child);
      (r.Width() >= m.w || r.Width() == g.Width()) && (r.Height() >= m.h || r.Height() == g.Height())
  {
    var m := MinimumSize(child);
    MoveColumns(MoveRows(g, z, pos.y, m.h), z, pos.x, m.w)
  }

  /** The top and bottom steps of `resizeMe`: the edge the zone names
      goes to the pointer's row unless the height would drop below
      `minH`. */
  function MoveRows(g: Rect, z: Zone, y: int, minH: int): (r: Rect)
    ensures r == g.(top := r.top, bottom := r.bottom)
    ensures MovesTop(z) ==> r.top == (if g.bottom - y + 1 >= minH then y else g.top)
    ensures !MovesTop(z) ==> r.top == g.top
    ensures MovesBottom(z) ==> r.bottom == (if y - g.top + 1 >= minH then y else g.bottom)
    ensures !MovesBottom(z) ==> r.bottom == g.bottom
    ensures r.Height() >= minH || r.Height() == g.Height()
  {
    var r1 := if MovesTop(z) then
                var t := g.(top := y);
                if t.Height() < minH then t.(top := g.top) else t
              else g;
    if MovesBottom(z) then
      var t := r1.(bottom := y);
      if t.Height() < minH then t.(bottom := g.bottom) else t
    else r1
  }

  /** The left and right steps of `resizeMe`, likewise for the width. */
  function MoveColumns(g: Rect, z: Zone, x: int, minW: int): (r: Rect)
    ensures r == g.(left := r.left, right := r.right)
    ensures MovesLeft(z) ==> r.left == (if g.right - x + 1 >= minW then x else g.left)
    ensures !MovesLeft(z) ==> r.left == g.left
    ensures MovesRight(z) ==> r.right == (if x - g.left + 1 >= minW then x else g.right)
    ensures !MovesRight(z) ==> r.right == g.right
    ensures r.Width() >= minW || r.Width() == g.Width()
  {
    var r1 := if MovesLeft(z) then
                var t := g.(left := x);
                if t.Width() < minW then t.(left := g.left) else t
              else g;
    if MovesRight(z) then
      var t := r1.(right := x);
      if t.Width() < minW then t.(right := g.right) else t
    else r1
  }

  /** The decoration's state: its geometry, whether `myWindowState` is
      maximized, the geometry saved by maximizing, the zone being resized
      and where a title-bar move last was. */
  datatype Decoration = Decoration(
    geometry: Rect,
    maximized: bool,
    original: Rect,
    resizeAt: Zone,
    moveFrom: Option<Point>)

  /** `setMaximizedMode`: the geometry is saved and replaced by the
      screen's available area. */
  function SetMaximizedMode(d: Decoration, available: Rect): (r: Decoration)
    ensures r.maximized && r.geometry == available && r.original == d.geometry
    ensures r.resizeAt == d.resizeAt && r.moveFrom == d.moveFrom
  {
    d.(original := d.geometry, maximized := true, geometry := available)
  }

  /** `setNormalMode`: a saved valid geometry is restored and forgotten. */
  function SetNormalMode(d: Decoration): (r: Decoration)
    ensures !r.maximized
    ensures d.original.IsValid() ==> r.geometry == d.original && r.original == NullRect
    ensures !d.original.IsValid() ==> r == d.(maximized := false)
  {
    if d.original.IsValid() then d.(maximized := false, geometry := d.original, original := NullRect)
    else d.(maximized := false)
  }

  /** Maximize then restore gives back the window as it was, for a valid
      geometry and no saved one. */
  lemma MaximizeRestoreRoundTrip(d: Decoration, available: Rect)
    requires d.geometry.IsValid() && !d.maximized && d.original == NullRect
    ensures SetNormalMode(SetMaximizedMode(d, available)) == d
  {
  }

  /** Maximizing twice saves the maximized area over the first geometry,
      so restoring afterwards returns to the available area. */
  lemma MaximizeTwiceForgetsGeometry(d: Decoration, available: Rect)
    requires available.IsValid()
    ensures SetNormalMode(SetMaximizedMode(SetMaximizedMode(d, available), available)).geometry == available
  {
  }

  /** `QMargins`. */
  datatype Margins = Margins(left: int, top: int, right: int, bottom: int)

  /** `positChild`: the title bar's height on top; the frame width on the
      other three sides unless maximized, where they are 0. */
  function PositChild(titleBarHeight: int, metric: int, maximized: bool): (m: Margins)
    ensures m.top == titleBarHeight
    ensures maximized ==> m.left == 0 && m.right == 0 && m.bottom == 0
    ensures !maximized ==> m.left == m.right == m.bottom == FrameWidth(metric) >= 2
  {
    if maximized then Margins(0, titleBarHeight, 0, 0)
    else
      var fw := FrameWidth(metric);
      Margins(fw, titleBarHeight, fw, fw)
  }

  /** The title bar's sub-controls, as the style's hit test reports them. */
  datatype Control = NoControl | TitleLabel | MaxButton | NormalButton | MinButton | CloseButton | SysMenu

  /** A left-button press at `pos` (widget coordinates, `global` on
      screen) over `control`: outside the maximized state a press on the
      border starts a resize; otherwise a press on the title label starts
      a move. */
  function MousePress(d: Decoration, pos: Point, global: Point, metric: int, control: Control): (r: Decoration)
    ensures d.maximized ==> r.resizeAt == d.resizeAt
    ensures !d.maximized ==> r.resizeAt == ZoneAt(pos, d.geometry.Width(), d.geometry.Height(), metric)
    ensures r.resizeAt != Nowhere && r.resizeAt != d.resizeAt ==> !d.maximized
    ensures r.geometry == d.geometry && r.maximized == d.maximized && r.original == d.original
  {
    var (z, resizing) := if d.maximized then (d.resizeAt, false)
                         else TryToResize(pos, d.geometry.Width(), d.geometry.Height(), metric);
    if resizing then d.(resizeAt := z)
    else if control == TitleLabel && !d.maximized then d.(resizeAt := z, moveFrom := Some(global))
    else d.(resizeAt := z)
  }

  /** A left-button release: the resize zone and the move are always
      cleared; the maximize and restore buttons switch mode. */
  function MouseRelease(d: Decoration, control: Control, available: Rect): (r: Decoration)
    ensures r.resizeAt == Nowhere && r.moveFrom.None?
    ensures control == MaxButton ==> r.maximized
    ensures control == NormalButton ==> !r.maximized
    ensures control != MaxButton && control != NormalButton ==>
      r == d.(resizeAt := Nowhere, moveFrom := None)
  {
    var c := d.(resizeAt := Nowhere, moveFrom := None);
    if control == MaxButton then SetMaximizedMode(c, available)
    else if control == NormalButton then SetNormalMode(c)
    else c
  }

  /** A left double-click: on the title label it switches between the
      maximized and the normal mode; anywhere else it changes nothing. */
  function MouseDoubleClick(d: Decoration, control: Control, available: Rect): (r: Decoration)
    ensures control != TitleLabel ==> r == d
    ensures control == TitleLabel ==> r.maximized == !d.maximized
    ensures control == TitleLabel && !d.maximized ==> r.geometry == available && r.original == d.geometry
    ensures control == TitleLabel && d.maximized && d.original.IsValid() ==> r.geometry == d.original
  {
    if control != TitleLabel then d
    else if d.maximized then SetNormalMode(d)
    else SetMaximizedMode(d, available)
  }

  /** Two double-clicks on the title label of a normal window give it back
      as it was. */
  lemma DoubleClickTwiceRestores(d: Decoration, available: Rect)
    requires d.geometry.IsValid() && !d.maximized && d.original == NullRect
    ensures MouseDoubleClick(MouseDoubleClick(d, TitleLabel, available), TitleLabel, available) == d
  {
    MaximizeRestoreRoundTrip(d, available);
  }

  /** A mouse move to `pos` (`global` on screen): outside the maximized
      state an active resize follows the pointer, and over the border the
      cursor changes and nothing else happens; otherwise an active move
      shifts the window by the pointer's travel. */
  function MouseMove(d: Decoration, pos: Point, global: Point, metric: int, child: Option<Size>): (r: Decoration)
    ensures d.moveFrom.None? && (d.maximized || d.resizeAt == Nowhere) ==> r == d
    ensures !d.maximized && d.resizeAt != Nowhere ==>
      r == d.(geometry := ResizeMe(d.geometry, d.resizeAt, global, child))
    ensures (!d.maximized && d.resizeAt == Nowhere
             && ZoneAt(pos, d.geometry.Width(), d.geometry.Height(), metric) != Nowhere) ==> r == d
    ensures r.maximized == d.maximized && r.original == d.original && r.resizeAt == d.resizeAt
    ensures r.geometry.Extent() != d.geometry.Extent() ==> !d.maximized && d.resizeAt != Nowhere
  {
    if !d.maximized && d.resizeAt != Nowhere then
      d.(geometry := ResizeMe(d.geometry, d.resizeAt, global, child))
    else if !d.maximized && ShowResizeCursor(pos, d.geometry.Width(), d.geometry.Height(), metric).1 then
      CursorMatchesZone(pos, d.geometry.Width(), d.geometry.Height(), metric);
      d
    else if d.moveFrom.Some? then
      var from := d.moveFrom.value;
      d.(geometry := d.geometry.Translated(global.x - from.x, global.y - from.y), moveFrom := Some(global))
    else d
  }
}
