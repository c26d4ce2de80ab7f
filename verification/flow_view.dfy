/** The masonry layout of flow_view.cpp: `FlowView::posist` puts every box
    in the shortest column, leftmost first, and appends a one-pixel
    loading trigger; `OneFlowView::posist` stacks the boxes in a single
    column. `toggleWidgets` shows exactly the boxes whose destination
    rectangle meets the viewport, and the trigger asks for more items
    only when it lies strictly inside the viewport's rows. Animations,
    timers and the widgets themselves are not modelled: a box is only
    its height-for-width rule, and the viewport is a parameter.
 */
module FlowView {
  import opened Common

  /** `viewMargins(8, 8, 14, 8)`: left, top, right, bottom. */
  const MarginLeft: int := 8
  const MarginTop: int := 8
  const MarginRight: int := 14
  const MarginBottom: int := 8
  /** Vertical gap between two boxes of one column. */
  const CellPadding: int := 8
  /** Horizontal gap between two columns. */
  const ColumnPadding: int := 8
  /** The constructor's `minimumColumnWidth`. */
  const DefaultMinimumColumnWidth: int := 382
  /** The height of a box without a height-for-width rule. */
  const DefaultCellHeight: int := 100

  /** A box: its `heightForWidth`, when it has one. */
  datatype Box = Box(heightForWidth: Option<int -> int>)

  /** The height a box gets in a cell of the given width. */
  function CellHeight(b: Box, width: int): int {
    match b.heightForWidth
    case Some(f) => f(width)
    case None => DefaultCellHeight
  }

  /** The loading trigger: one pixel high at every width. */
  const Trigger: Box := Box(Some(w => 1))

  // ---------------------------------------------------------------------
  // Columns
  // ---------------------------------------------------------------------

  /** The width left for columns once the side margins are taken. */
  function AvailableWidth(viewportWidth: int): int {
    viewportWidth - MarginLeft - MarginRight
  }

  /** The number of columns: as many of the minimum width as fit, and at
      least one. */
  function ColumnCount(avail: int, minimumWidth: int): (n: int)
    requires minimumWidth > 0
    ensures n >= 1
    ensures avail >= minimumWidth ==> n * minimumWidth <= avail < (n + 1) * minimumWidth
    ensures avail < 2 * minimumWidth ==> n == 1
  {
    var n := TruncDiv(avail, minimumWidth);
    if avail >= minimumWidth then
      DivBounds(avail, minimumWidth);
      n
    else
      assert n < 1;
      1
  }

  /** The width of one column: the available width less the gaps, shared
      out evenly and rounded toward zero. */
  function CellWidth(avail: int, n: int): (w: int)
    requires n >= 1
    ensures avail - ColumnPadding * (n - 1) >= 0 ==>
      && w >= 0
      && 0 <= n * w + ColumnPadding * (n - 1) <= avail < n * (w + 1) + ColumnPadding * (n - 1)
    ensures n == 1 ==> w == avail
  {
    var room := avail - ColumnPadding * (n - 1);
    if room >= 0 then
      DivBounds(room, n);
      room / n
    else
      TruncDiv(room, n)
  }

  /** The left edge of column `col`. */
  function ColumnLeft(col: int, cellWidth: int): int {
    MarginLeft + cellWidth * col + ColumnPadding * col
  }

  /** Two columns' cells do not share a pixel column: the gap between
      neighbouring columns is never negative once the cell width is not. */
  lemma {:induction false} ColumnsApart(c1: int, c2: int, cellWidth: int)
    requires 0 <= c1 < c2 && cellWidth >= 0
    ensures ColumnLeft(c1, cellWidth) + cellWidth - 1 < ColumnLeft(c2, cellWidth)
  {
    var k := c2 - c1;
    assert ColumnLeft(c2, cellWidth) - ColumnLeft(c1, cellWidth) == k * (cellWidth + ColumnPadding);
    assert k * (cellWidth + ColumnPadding) >= cellWidth + ColumnPadding by {
      assert (k - 1) * (cellWidth + ColumnPadding) >= 0;
    }
  }

  /** The column a box goes into: the shortest one, the leftmost among
      equals, found by scanning from the left and moving on only for a
      strictly shorter column. */
  function Shortest(columns: seq<int>): (c: nat)
    requires |columns| > 0
    ensures c < |columns|
    ensures forall j :: 0 <= j < |columns| ==> columns[c] <= columns[j]
    ensures forall j :: 0 <= j < c ==> columns[j] > columns[c]
  {
    if |columns| == 1 then 0
    else
      var c := Shortest(columns[..|columns| - 1]);
      if columns[c] > columns[|columns| - 1] then |columns| - 1 else c
  }

  // ---------------------------------------------------------------------
  // Placing boxes
  // ---------------------------------------------------------------------

  /** The layout so far: the bottom of each column (where its next box
      goes), the rectangle each placed box got and the column it went
      into, and the running content height. */
  datatype Layout = Layout(columns: seq<int>, rects: seq<Rect>, placedIn: seq<nat>, height: int)

  /** `n` empty columns, before any box. */
  function StartLayout(n: int): (l: Layout)
    requires n >= 1
    ensures |l.columns| == n && l.rects == [] && l.placedIn == []
    ensures forall c :: 0 <= c < n ==> l.columns[c] == MarginTop
    ensures l.height == MarginTop
  {
    Layout(seq(n, c => MarginTop), [], [], MarginTop)
  }

  /** One turn of `posist`'s loop: the box takes the top of the shortest
      column at the full cell width, and that column grows by the box and
      one cell padding. */
  function PlaceBox(l: Layout, b: Box, cellWidth: int): (r: Layout)
    requires |l.columns| > 0
    ensures |r.columns| == |l.columns|
    ensures |r.rects| == |l.rects| + 1 && r.rects[..|l.rects|] == l.rects
    ensures r.placedIn == l.placedIn + [Shortest(l.columns)]
    ensures var col := Shortest(l.columns); var rect := r.rects[|l.rects|];
      && (forall j :: 0 <= j < |l.columns| ==> rect.top <= l.columns[j])
      && rect.left == ColumnLeft(col, cellWidth)
      && rect.Width() == cellWidth && rect.Height() == CellHeight(b, cellWidth)
      && r.columns == l.columns[col := rect.bottom + 1 + CellPadding]
    ensures r.height == Max(l.height, r.columns[Shortest(l.columns)])
  {
    var col := Shortest(l.columns);
    var h := CellHeight(b, cellWidth);
    var rect := RectXYWH(ColumnLeft(col, cellWidth), l.columns[col], cellWidth, h);
    var columns := l.columns[col := l.columns[col] + CellPadding + h];
    var height := if l.height < columns[col] then columns[col] else l.height;
    Layout(columns, l.rects + [rect], l.placedIn + [col], height)
  }

  /** `posist`'s loop over the boxes, in order. */
  function PlaceAll(l: Layout, boxes: seq<Box>, cellWidth: int): (r: Layout)
    requires |l.columns| > 0
    ensures |r.columns| == |l.columns|
    ensures |r.rects| == |l.rects| + |boxes| && r.rects[..|l.rects|] == l.rects
    ensures |r.placedIn| == |l.placedIn| + |boxes|
    ensures forall i :: |l.rects| <= i < |r.rects| ==>
      r.rects[i].Width() == cellWidth && r.rects[i].Height() == CellHeight(boxes[i - |l.rects|], cellWidth)
    decreases |boxes|
  {
    if |boxes| == 0 then l
    else
      var p := PlaceBox(l, boxes[0], cellWidth);
      var r := PlaceAll(p, boxes[1..], cellWidth);
      assert r.rects[|l.rects|] == p.rects[|l.rects|] by {
        assert r.rects[..|p.rects|] == p.rects;
      }
      r
  }

  /** Placing two runs of boxes one after the other is placing them
      together. */
  lemma {:induction false} PlaceAllAppend(l: Layout, a: seq<Box>, b: seq<Box>, cellWidth: int)
    requires |l.columns| > 0
    ensures PlaceAll(l, a + b, cellWidth) == PlaceAll(PlaceAll(l, a, cellWidth), b, cellWidth)
    decreases |a|
  {
    if |a| > 0 {
      assert (a + b)[0] == a[0];
      assert (a + b)[1..] == a[1..] + b;
      PlaceAllAppend(PlaceBox(l, a[0], cellWidth), a[1..], b, cellWidth);
    } else {
      assert a + b == b;
    }
  }

  /** The shape `posist` keeps: every box sits in its column at that
      column's left edge, a cell padding above the column's bottom; of two
      boxes in one column the later is lower by at least a cell padding;
      and the running height is the tallest column. */
  predicate Stacked(l: Layout, cellWidth: int) {
    && |l.columns| > 0
    && |l.placedIn| == |l.rects|
    && (forall i :: 0 <= i < |l.rects| ==>
          && l.placedIn[i] < |l.columns|
          && l.rects[i].left == ColumnLeft(l.placedIn[i], cellWidth)
          && l.rects[i].Width() == cellWidth
          && l.rects[i].bottom + CellPadding < l.columns[l.placedIn[i]])
    && (forall i, j :: 0 <= i < j < |l.rects| && l.placedIn[i] == l.placedIn[j] ==>
          l.rects[i].bottom + CellPadding < l.rects[j].top)
    && (forall c :: 0 <= c < |l.columns| ==> l.columns[c] <= l.height)
    && (exists c :: 0 <= c < |l.columns| && l.columns[c] == l.height)
  }

  /** A box of non-negative height keeps the shape. */
  lemma PlaceBoxKeepsStacked(l: Layout, b: Box, cellWidth: int)
    requires Stacked(l, cellWidth) && CellHeight(b, cellWidth) >= 0
    ensures Stacked(PlaceBox(l, b, cellWidth), cellWidth)
  {
    PlacedInColumns(l, b, cellWidth);
    PlacedInOrder(l, b, cellWidth);
    PlacedHeight(l, b, cellWidth);
  }

  /** After `PlaceBox` every box still sits in its column, above the
      column's bottom. */
  lemma PlacedInColumns(l: Layout, b: Box, cellWidth: int)
    requires Stacked(l, cellWidth) && CellHeight(b, cellWidth) >= 0
    ensures var r := PlaceBox(l, b, cellWidth);
      && |r.placedIn| == |r.rects|
      && forall i :: 0 <= i < |r.rects| ==>
           && r.placedIn[i] < |r.columns|
           && r.rects[i].left == ColumnLeft(r.placedIn[i], cellWidth)
           && r.rects[i].Width() == cellWidth
           && r.rects[i].bottom + CellPadding < r.columns[r.placedIn[i]]
  {
    var r := PlaceBox(l, b, cellWidth);
    var n := |l.rects|;
    assert forall c :: 0 <= c < |l.columns| ==> l.columns[c] <= r.columns[c];
    forall i | 0 <= i < |r.rects|
      ensures r.placedIn[i] < |r.columns| && r.rects[i].left == ColumnLeft(r.placedIn[i], cellWidth)
      ensures r.rects[i].Width() == cellWidth && r.rects[i].bottom + CellPadding < r.columns[r.placedIn[i]]
    {
      if i < n {
        assert r.rects[i] == l.rects[i] && r.placedIn[i] == l.placedIn[i];
      }
    }
  }

  /** After `PlaceBox` boxes in the same column are still stacked in the
      order they were placed. */
  lemma PlacedInOrder(l: Layout, b: Box, cellWidth: int)
    requires Stacked(l, cellWidth) && CellHeight(b, cellWidth) >= 0
    ensures var r := PlaceBox(l, b, cellWidth);
      forall i, j :: 0 <= i < j < |r.rects| && r.placedIn[i] == r.placedIn[j] ==>
        r.rects[i].bottom + CellPadding < r.rects[j].top
  {
    var r := PlaceBox(l, b, cellWidth);
    var col := Shortest(l.columns);
    var n := |l.rects|;
    assert r.placedIn[n] == col && r.rects[n].top == l.columns[col];
    forall i, j | 0 <= i < j < |r.rects| && r.placedIn[i] == r.placedIn[j]
      ensures r.rects[i].bottom + CellPadding < r.rects[j].top
    {
      assert r.rects[i] == l.rects[i] && r.placedIn[i] == l.placedIn[i];
      if j < n {
        assert r.rects[j] == l.rects[j] && r.placedIn[j] == l.placedIn[j];
      }
    }
  }

  /** After `PlaceBox` the running height is still the bottom of the
      tallest column. */
  lemma PlacedHeight(l: Layout, b: Box, cellWidth: int)
    requires Stacked(l, cellWidth) && CellHeight(b, cellWidth) >= 0
    ensures var r := PlaceBox(l, b, cellWidth);
      && (forall c :: 0 <= c < |r.columns| ==> r.columns[c] <= r.height)
      && (exists c :: 0 <= c < |r.columns| && r.columns[c] == r.height)
  {
    var r := PlaceBox(l, b, cellWidth);
    var col := Shortest(l.columns);
    var w :| 0 <= w < |l.columns| && l.columns[w] == l.height;
    if r.columns[col] > l.height {
      assert r.height == r.columns[col];
    } else {
      assert r.height == l.height;
      assert r.columns[w] == l.height;
    }
  }

  /** Placing boxes of non-negative height keeps the shape. */
  lemma {:induction false} PlaceAllKeepsStacked(l: Layout, boxes: seq<Box>, cellWidth: int)
    requires Stacked(l, cellWidth)
    requires forall i :: 0 <= i < |boxes| ==> CellHeight(boxes[i], cellWidth) >= 0
    ensures Stacked(PlaceAll(l, boxes, cellWidth), cellWidth)
    decreases |boxes|
  {
    if |boxes| > 0 {
      PlaceBoxKeepsStacked(l, boxes[0], cellWidth);
      PlaceAllKeepsStacked(PlaceBox(l, boxes[0], cellWidth), boxes[1..], cellWidth);
    }
  }

  /** The loading trigger's state: where it is and whether it was inside
      the viewport when last checked. */
  datatype TriggerState = TriggerState(geometry: Rect, visible: bool)

  /** The outcome of `FlowView::posist`: the cell width, the layout of the
      boxes followed by the trigger, the trigger, and the size given to
      the scrolled content. */
  datatype Arrangement = Arrangement(
    cellWidth: int, layout: Layout, trigger: TriggerState, contentWidth: int, contentHeight: int)

  /** `FlowView::posist` for a viewport of the given width. A trigger is
      created, counting as visible, when there is none. */
  function Posist(viewportWidth: int, minimumColumnWidth: int, boxes: seq<Box>, trigger: Option<TriggerState>): (a: Arrangement)
    requires minimumColumnWidth > 0
    ensures var avail := AvailableWidth(viewportWidth);
      && |a.layout.columns| == ColumnCount(avail, minimumColumnWidth)
      && a.cellWidth == CellWidth(avail, |a.layout.columns|)
    ensures |a.layout.rects| == |boxes| + 1
    ensures forall i :: 0 <= i < |boxes| ==> a.layout.rects[i].Height() == CellHeight(boxes[i], a.cellWidth)
    ensures forall i :: 0 <= i < |a.layout.rects| ==> a.layout.rects[i].Width() == a.cellWidth
    ensures a.trigger.geometry == a.layout.rects[|boxes|] && a.trigger.geometry.Height() == 1
    ensures a.trigger.visible == (trigger.None? || trigger.value.visible)
    ensures a.contentWidth == viewportWidth && a.contentHeight == a.layout.height + MarginBottom
  {
    var avail := AvailableWidth(viewportWidth);
    var n := ColumnCount(avail, minimumColumnWidth);
    var w := CellWidth(avail, n);
    var l := PlaceAll(StartLayout(n), boxes + [Trigger], w);
    assert (boxes + [Trigger])[|boxes|] == Trigger;
    assert forall i :: 0 <= i < |boxes| ==> (boxes + [Trigger])[i] == boxes[i];
    var visible := if trigger.Some? then trigger.value.visible else true;
    Arrangement(w, l, TriggerState(l.rects[|boxes|], visible), viewportWidth, l.height + MarginBottom)
  }

  /** Two rectangles that share no pixel: one is wholly left of, or wholly
      above, the other. */
  predicate Apart(a: Rect, b: Rect) {
    a.right < b.left || b.right < a.left || a.bottom < b.top || b.bottom < a.top
  }

  /** With boxes of non-negative height and a non-negative cell width, no
      two placed rectangles overlap, the trigger included; boxes of one
      column are a cell padding apart; every box ends a cell padding above
      the content's bottom margin. */
  lemma PosistArrangesApart(viewportWidth: int, minimumColumnWidth: int, boxes: seq<Box>, trigger: Option<TriggerState>)
    requires minimumColumnWidth > 0
    requires CellWidth(AvailableWidth(viewportWidth), ColumnCount(AvailableWidth(viewportWidth), minimumColumnWidth)) >= 0
    requires forall i :: 0 <= i < |boxes| ==>
      CellHeight(boxes[i], CellWidth(AvailableWidth(viewportWidth), ColumnCount(AvailableWidth(viewportWidth), minimumColumnWidth))) >= 0
    ensures var a := Posist(viewportWidth, minimumColumnWidth, boxes, trigger);
      && (forall i, j :: 0 <= i < j < |a.layout.rects| ==> Apart(a.layout.rects[i], a.layout.rects[j]))
      && (forall i :: 0 <= i < |a.layout.rects| ==>
            a.layout.rects[i].bottom + CellPadding < a.contentHeight - MarginBottom)
  {
    var a := Posist(viewportWidth, minimumColumnWidth, boxes, trigger);
    var avail := AvailableWidth(viewportWidth);
    var n := ColumnCount(avail, minimumColumnWidth);
    var w := CellWidth(avail, n);
    var all := boxes + [Trigger];
    WithTriggerHeights(boxes, w);
    PlaceAllKeepsStacked(StartLayout(n), all, w);
    PosistLayout(viewportWidth, minimumColumnWidth, boxes, trigger);
    StackedApart(a.layout, w);
  }

  /** The trigger's cell is one pixel high, so appending it keeps every
      cell height non-negative. */
  lemma WithTriggerHeights(boxes: seq<Box>, w: int)
    requires forall i :: 0 <= i < |boxes| ==> CellHeight(boxes[i], w) >= 0
    ensures forall i :: 0 <= i < |boxes + [Trigger]| ==> CellHeight((boxes + [Trigger])[i], w) >= 0
  {
    var all := boxes + [Trigger];
    forall i | 0 <= i < |all| ensures CellHeight(all[i], w) >= 0 {
      if i < |boxes| { assert all[i] == boxes[i]; } else { assert all[i] == Trigger; }
    }
  }

  /** `posist` places the boxes and then the trigger from the top. */
  lemma PosistLayout(viewportWidth: int, minimumColumnWidth: int, boxes: seq<Box>, trigger: Option<TriggerState>)
    requires minimumColumnWidth > 0
    ensures var avail := AvailableWidth(viewportWidth);
      var n := ColumnCount(avail, minimumColumnWidth);
      Posist(viewportWidth, minimumColumnWidth, boxes, trigger).layout
        == PlaceAll(StartLayout(n), boxes + [Trigger], CellWidth(avail, n))
  {
  }

  /** In a stacked layout with a non-negative cell width no two boxes
      share a pixel, and every box ends a cell padding above the running
      height. */
  lemma StackedApart(l: Layout, w: int)
    requires Stacked(l, w) && w >= 0
    ensures forall i, j :: 0 <= i < j < |l.rects| ==> Apart(l.rects[i], l.rects[j])
    ensures forall i :: 0 <= i < |l.rects| ==> l.rects[i].bottom + CellPadding < l.height
  {
    forall i, j | 0 <= i < j < |l.rects| ensures Apart(l.rects[i], l.rects[j]) {
      var ci, cj := l.placedIn[i], l.placedIn[j];
      if ci < cj {
        ColumnsApart(ci, cj, w);
      } else if cj < ci {
        ColumnsApart(cj, ci, w);
      }
    }
  }

  /** With room for the gaps, every one of the `n` columns lies inside the
      margins: from the left margin to the last pixel before the right
      one. */
  lemma ColumnsFitTheViewport(viewportWidth: int, n: int)
    requires n >= 1 && AvailableWidth(viewportWidth) - ColumnPadding * (n - 1) >= 0
    ensures var w := CellWidth(AvailableWidth(viewportWidth), n);
      forall c :: 0 <= c < n ==>
        MarginLeft <= ColumnLeft(c, w) && ColumnLeft(c, w) + w - 1 < viewportWidth - MarginRight
  {
    var avail := AvailableWidth(viewportWidth);
    var w := CellWidth(avail, n);
    var k := w + ColumnPadding;
    assert (n - 1) * k + w == n * w + ColumnPadding * (n - 1);
    forall c | 0 <= c < n
      ensures MarginLeft <= ColumnLeft(c, w) && ColumnLeft(c, w) + w - 1 < viewportWidth - MarginRight
    {
      assert ColumnLeft(c, w) == MarginLeft + c * k;
      MulLeq(c, n - 1, k);
    }
  }

  lemma MulLeq(a: int, b: int, k: int)
    requires 0 <= a <= b && k >= 0
    ensures 0 <= a * k <= b * k
  {
  }

  // ---------------------------------------------------------------------
  // One column
  // ---------------------------------------------------------------------

  /** The space a run of boxes takes in one column: each box and one cell
      padding. */
  function StackHeight(boxes: seq<Box>, cellWidth: int): int
    decreases |boxes|
  {
    if |boxes| == 0 then 0 else CellPadding + CellHeight(boxes[0], cellWidth) + StackHeight(boxes[1..], cellWidth)
  }

  /** `OneFlowView::posist`'s loop from the given top: each box full
      width at the running top, which then moves down past it. */
  function OnePlace(boxes: seq<Box>, cellWidth: int, top: int): (rects: seq<Rect>)
    ensures |rects| == |boxes|
    decreases |boxes|
  {
    if |boxes| == 0 then []
    else
      var h := CellHeight(boxes[0], cellWidth);
      [RectXYWH(MarginLeft, top, cellWidth, h)] + OnePlace(boxes[1..], cellWidth, top + CellPadding + h)
  }

  /** The box at position `i` starts where the boxes before it end. */
  lemma {:induction false} OnePlaceTops(boxes: seq<Box>, cellWidth: int, top: int, i: int)
    requires 0 <= i < |boxes|
    ensures var r := OnePlace(boxes, cellWidth, top)[i];
      && r.top == top + StackHeight(boxes[..i], cellWidth)
      && r.left == MarginLeft && r.Width() == cellWidth && r.Height() == CellHeight(boxes[i], cellWidth)
    decreases i
  {
    if i > 0 {
      OnePlaceTops(boxes[1..], cellWidth, top + CellPadding + CellHeight(boxes[0], cellWidth), i - 1);
      assert boxes[..i][1..] == boxes[1..][..i - 1];
      assert boxes[..i][0] == boxes[0];
    }
  }

  /** The outcome of `OneFlowView::posist`: the cell width, the boxes'
      rectangles and the size of the scrolled content. */
  datatype OneArrangement = OneArrangement(cellWidth: int, rects: seq<Rect>, contentWidth: int, contentHeight: int)

  /** `OneFlowView::posist` for a viewport of the given width. */
  function OnePosist(viewportWidth: int, boxes: seq<Box>): (a: OneArrangement)
    ensures a.cellWidth == AvailableWidth(viewportWidth) && |a.rects| == |boxes|
    ensures a.contentWidth == viewportWidth
  {
    var w := AvailableWidth(viewportWidth);
    OneArrangement(w, OnePlace(boxes, w, MarginTop), viewportWidth, MarginTop + StackHeight(boxes, w) + MarginBottom)
  }

  /** Every box of a single column starts at the top margin plus the
      heights and paddings of the boxes above it, and the content ends a
      bottom margin below the last padding. */
  lemma OnePosistStacks(viewportWidth: int, boxes: seq<Box>)
    ensures var a := OnePosist(viewportWidth, boxes);
      && (forall i :: 0 <= i < |boxes| ==>
            a.rects[i].top == MarginTop + StackHeight(boxes[..i], a.cellWidth)
            && a.rects[i].left == MarginLeft && a.rects[i].Height() == CellHeight(boxes[i], a.cellWidth))
      && a.contentHeight == MarginTop + StackHeight(boxes, a.cellWidth) + MarginBottom
  {
    var w := AvailableWidth(viewportWidth);
    forall i | 0 <= i < |boxes|
      ensures OnePlace(boxes, w, MarginTop)[i].top == MarginTop + StackHeight(boxes[..i], w)
      ensures OnePlace(boxes, w, MarginTop)[i].Height() == CellHeight(boxes[i], w)
      ensures OnePlace(boxes, w, MarginTop)[i].left == MarginLeft
    {
      OnePlaceTops(boxes, w, MarginTop, i);
    }
  }

  /** The rectangles of one column placed from a column bottom `top`. */
  lemma {:induction false} OneColumnPlaceAll(l: Layout, boxes: seq<Box>, cellWidth: int)
    requires |l.columns| == 1
    ensures PlaceAll(l, boxes, cellWidth).rects == l.rects + OnePlace(boxes, cellWidth, l.columns[0])
    decreases |boxes|
  {
    if |boxes| > 0 {
      var l' := PlaceBox(l, boxes[0], cellWidth);
      var h := CellHeight(boxes[0], cellWidth);
      var rect := RectXYWH(MarginLeft, l.columns[0], cellWidth, h);
      OneColumnPlaceBox(l, boxes[0], cellWidth);
      OneColumnPlaceAll(l', boxes[1..], cellWidth);
      var tail := OnePlace(boxes[1..], cellWidth, l'.columns[0]);
      PlaceAllStep(l, boxes, cellWidth);
      OnePlaceStep(boxes, cellWidth, l.columns[0]);
      var all := PlaceAll(l, boxes, cellWidth).rects;
      assert all == l'.rects + tail;
      assert l'.rects == l.rects + [rect];
      AppendAssoc(l.rects, [rect], tail);
    } else {
      assert OnePlace(boxes, cellWidth, l.columns[0]) == [];
    }
  }

  lemma PlaceAllStep(l: Layout, boxes: seq<Box>, cellWidth: int)
    requires |l.columns| > 0 && |boxes| > 0
    ensures PlaceAll(l, boxes, cellWidth) == PlaceAll(PlaceBox(l, boxes[0], cellWidth), boxes[1..], cellWidth)
  {
  }

  lemma OnePlaceStep(boxes: seq<Box>, cellWidth: int, top: int)
    requires |boxes| > 0
    ensures var h := CellHeight(boxes[0], cellWidth);
      OnePlace(boxes, cellWidth, top) == [RectXYWH(MarginLeft, top, cellWidth, h)] + OnePlace(boxes[1..], cellWidth, top + CellPadding + h)
  {
  }

  /** In a single column a box goes at the full width on the column's
      bottom, which moves down past it. */
  lemma OneColumnPlaceBox(l: Layout, b: Box, cellWidth: int)
    requires |l.columns| == 1
    ensures var r := PlaceBox(l, b, cellWidth); var h := CellHeight(b, cellWidth);
      && r.rects == l.rects + [RectXYWH(MarginLeft, l.columns[0], cellWidth, h)]
      && r.columns[0] == l.columns[0] + CellPadding + h
  {
    assert Shortest(l.columns) == 0;
  }

  /** A flow view too narrow for two columns places its boxes exactly as
      the single-column view does, before its trigger. */
  lemma NarrowFlowIsOneColumn(viewportWidth: int, minimumColumnWidth: int, boxes: seq<Box>, trigger: Option<TriggerState>)
    requires minimumColumnWidth > 0
    requires AvailableWidth(viewportWidth) < 2 * minimumColumnWidth
    ensures Posist(viewportWidth, minimumColumnWidth, boxes, trigger).layout.rects[..|boxes|]
      == OnePosist(viewportWidth, boxes).rects
  {
    var avail := AvailableWidth(viewportWidth);
    var w := CellWidth(avail, 1);
    var start := StartLayout(1);
    PlaceAllAppend(start, boxes, [Trigger], w);
    var mid := PlaceAll(start, boxes, w);
    OneColumnPlaceAll(start, boxes, w);
    assert mid.rects == OnePlace(boxes, w, MarginTop);
    var l := PlaceAll(mid, [Trigger], w);
    assert l.rects[..|boxes|] == mid.rects;
  }

  // ---------------------------------------------------------------------
  // Showing and hiding
  // ---------------------------------------------------------------------

  /** `QRect::intersects`: never for a null rectangle; otherwise the
      normalised spans overlap on both axes. */
  function Intersects(a: Rect, b: Rect): (r: bool)
    ensures a.IsNull() || b.IsNull() ==> !r
    ensures a.IsValid() && b.IsValid() ==>
      (r <==> a.left <= b.right && b.left <= a.right && a.top <= b.bottom && b.top <= a.bottom)
    ensures r ==> !Apart(a, b) || !a.IsValid() || !b.IsValid()
  {
    if a.IsNull() || b.IsNull() then false
    else
      var (l1, r1) := Span(a.left, a.right);
      var (l2, r2) := Span(b.left, b.right);
      var (t1, b1) := Span(a.top, a.bottom);
      var (t2, b2) := Span(b.top, b.bottom);
      !(l1 > r2 || l2 > r1) && !(t1 > b2 || t2 > b1)
  }

  /** The part of the content the viewport shows, scrolled down by
      `scroll`. */
  function ViewportRect(scroll: int, width: int, height: int): (r: Rect)
    ensures r.TopLeft() == Point(0, scroll) && r.Extent() == Size(width, height)
  {
    Rect(0, scroll, width - 1, scroll + height - 1)
  }

  /** Whether the loading trigger lies strictly inside the viewport's rows:
      below its top row and above its bottom one. No trigger is never
      visible. */
  function TriggerVisible(trigger: Option<TriggerState>, scroll: int, viewportHeight: int): (v: bool)
    ensures v ==> trigger.Some? && scroll < trigger.value.geometry.top && trigger.value.geometry.bottom < scroll + viewportHeight
  {
    match trigger
    case None => false
    case Some(t) => t.geometry.top > scroll && t.geometry.bottom < scroll + viewportHeight
  }

  /** A trigger visible by this test, inside the viewport's width, also
      meets the viewport; the converse fails for a trigger on the
      viewport's first or last row. */
  lemma TriggerVisibleMeetsViewport(t: TriggerState, scroll: int, width: int, height: int)
    requires t.geometry.IsValid() && 0 <= t.geometry.left < width
    ensures TriggerVisible(Some(t), scroll, height) ==> Intersects(ViewportRect(scroll, width, height), t.geometry)
    ensures t.geometry.top == scroll && height >= 1 ==>
      Intersects(ViewportRect(scroll, width, height), t.geometry) && !TriggerVisible(Some(t), scroll, height)
  {
  }

  /** `toggleWidgets` for the boxes' destination rectangles: which boxes
      are shown afterwards. */
  function ToggleBoxes(dst: seq<Rect>, scroll: int, width: int, height: int): (shown: seq<bool>)
    ensures |shown| == |dst|
    ensures forall i :: 0 <= i < |dst| ==>
      (shown[i] <==> Intersects(ViewportRect(scroll, width, height), dst[i]))
  {
    seq(|dst|, i requires 0 <= i < |dst| => Intersects(ViewportRect(scroll, width, height), dst[i]))
  }

  /** A placed box with a positive height is shown exactly when its rows
      meet the viewport's rows and its columns the viewport's columns. */
  lemma ToggleShowsWhatMeetsTheViewport(dst: seq<Rect>, scroll: int, width: int, height: int, i: int)
    requires 0 <= i < |dst| && dst[i].IsValid() && width >= 1 && height >= 1
    ensures ToggleBoxes(dst, scroll, width, height)[i] <==>
      dst[i].left < width && 0 <= dst[i].right && dst[i].top < scroll + height && scroll <= dst[i].bottom
  {
  }

  /** `FlowView::toggleWidgets`: the boxes shown, and whether more items
      are asked for because the trigger is in view. */
  function FlowToggle(dst: seq<Rect>, trigger: Option<TriggerState>, scroll: int, width: int, height: int): (r: (seq<bool>, bool))
    ensures |r.0| == |dst|
    ensures forall i :: 0 <= i < |dst| && dst[i].IsValid() && width >= 1 && height >= 1 ==>
      (r.0[i] <==> dst[i].left < width && 0 <= dst[i].right && dst[i].top < scroll + height && scroll <= dst[i].bottom)
    ensures forall i :: 0 <= i < |dst| && dst[i].IsNull() ==> !r.0[i]
    ensures r.1 <==> trigger.Some? && scroll < trigger.value.geometry.top && trigger.value.geometry.bottom < scroll + height
  {
    forall i | 0 <= i < |dst| && dst[i].IsValid() && width >= 1 && height >= 1
      ensures ToggleBoxes(dst, scroll, width, height)[i] <==>
        dst[i].left < width && 0 <= dst[i].right && dst[i].top < scroll + height && scroll <= dst[i].bottom
    {
      ToggleShowsWhatMeetsTheViewport(dst, scroll, width, height, i);
    }
    (ToggleBoxes(dst, scroll, width, height), TriggerVisible(trigger, scroll, height))
  }

  /** `checkLoadingTrigger`: more items are asked for only when the trigger
      comes into view, and the trigger remembers what it saw. */
  function CheckLoadingTrigger(trigger: Option<TriggerState>, scroll: int, height: int): (r: (Option<TriggerState>, bool))
    ensures trigger.None? ==> r == (None, false)
    ensures trigger.Some? ==> r.0 == Some(trigger.value.(visible := TriggerVisible(trigger, scroll, height)))
    ensures r.1 <==> trigger.Some? && !trigger.value.visible && TriggerVisible(trigger, scroll, height)
  {
    match trigger
    case None => (None, false)
    case Some(t) =>
      var visible := TriggerVisible(trigger, scroll, height);
      (Some(t.(visible := visible)), !t.visible && visible)
  }

  /** Checking again without scrolling asks for nothing more. */
  lemma CheckLoadingTriggerAsksOnce(trigger: Option<TriggerState>, scroll: int, height: int)
    ensures var first := CheckLoadingTrigger(trigger, scroll, height);
      !CheckLoadingTrigger(first.0, scroll, height).1
  {
  }
}
