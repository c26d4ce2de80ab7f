/** The transient message bubbles of bubble_tips.cpp: a bubble counts
    down once a second while the mouse is not over it and closes when the
    count reaches zero; a new bubble closes the one before it, so at most
    one is open; `showTips` centres a bubble on a widget or on the primary
    screen. Painting (the rounded rectangle and its pointer triangle),
    colours and fonts are not modelled.
 */
module BubbleTips {
  import opened Common

  /** Ticks of the one-second timer before a bubble closes. */
  const DisplayTicks: int := 6
  /** The timer's interval in milliseconds. */
  const TickInterval: int := 1000
  /** The see-through border around the bubble's body. */
  const TransparentLength: int := 5
  /** The text margins a new bubble gets. */
  const DefaultMargin: int := 5

  /** `DIRECT`: which side the pointer triangle is on, if any. */
  datatype Direct = NoDirect | LeftSide | TopSide | RightSide | BottomSide

  /** The layout's contents margins: left, top, right, bottom. */
  datatype Margins = Margins(left: int, top: int, right: int, bottom: int)

  /** One bubble: its text, the countdown, whether the mouse is over it,
      whether it has closed (which deletes it), where it is, its layout
      margins and its pointer side. */
  datatype Bubble = Bubble(
    content: string, display: int, enter: bool, closed: bool,
    pos: Point, margins: Margins, direct: Direct)

  /** `setLeftTopMargin`: the text margins, on both sides, plus the
      see-through border. */
  function SetLeftTopMargin(b: Bubble, left: int, top: int): (r: Bubble)
    ensures r.margins.left == r.margins.right == left + TransparentLength
    ensures r.margins.top == r.margins.bottom == top + TransparentLength
    ensures r == b.(margins := r.margins)
  {
    b.(margins := Margins(left + TransparentLength, top + TransparentLength, left + TransparentLength, top + TransparentLength))
  }

  /** The constructor's bubble, before it is placed: the full countdown,
      the default margins, the pointer at the bottom. */
  function NewBubble(): (b: Bubble)
    ensures b.display == DisplayTicks && !b.enter && !b.closed
    ensures b.margins == Margins(10, 10, 10, 10) && b.direct == BottomSide
  {
    SetLeftTopMargin(Bubble("", DisplayTicks, false, false, Point(0, 0), Margins(0, 0, 0, 0), BottomSide),
                     DefaultMargin, DefaultMargin)
  }

  /** `enterEvent` and `leaveEvent`. */
  function SetEnter(b: Bubble, enter: bool): (r: Bubble)
    ensures r == b.(enter := enter)
  {
    b.(enter := enter)
  }

  /** `onTimer`: a bubble under the mouse keeps its count; otherwise the
      count drops by one and the bubble closes when it reaches zero. */
  function OnTimer(b: Bubble): (r: Bubble)
    ensures b.enter ==> r == b
    ensures !b.enter ==> r.display == b.display - 1 && (r.closed <==> b.closed || r.display <= 0)
    ensures r == b.(display := r.display, closed := r.closed)
  {
    if b.enter then b
    else
      var d := b.display - 1;
      b.(display := d, closed := b.closed || d <= 0)
  }

  /** `n` ticks of the timer; a closed bubble is deleted with its timer, so
      nothing ticks after it closes. */
  function Ticks(b: Bubble, n: nat): Bubble
    decreases n
  {
    if n == 0 || b.closed then b else Ticks(OnTimer(b), n - 1)
  }

  /** Left alone, an open bubble with `d` ticks to go is open after fewer
      than `d` ticks and closed from the `d`-th on. */
  lemma {:induction false} ClosesAfterCountdown(b: Bubble, n: nat)
    requires !b.enter && !b.closed && b.display >= 1
    ensures Ticks(b, n).closed <==> n >= b.display
    ensures !Ticks(b, n).closed ==> Ticks(b, n).display == b.display - n
    decreases n
  {
    if n > 0 {
      var b' := OnTimer(b);
      if b.display > 1 {
        ClosesAfterCountdown(b', n - 1);
      }
    }
  }

  /** A new bubble left alone closes on its sixth tick, six seconds after
      it appears. */
  lemma NewBubbleLastsSixTicks()
    ensures !Ticks(NewBubble(), 5).closed && Ticks(NewBubble(), 6).closed
  {
    ClosesAfterCountdown(NewBubble(), 5);
    ClosesAfterCountdown(NewBubble(), 6);
  }

  /** While the mouse is over a bubble, ticks change nothing. */
  lemma {:induction false} HoverHolds(b: Bubble, n: nat)
    requires b.enter
    ensures Ticks(b, n) == b
    decreases n
  {
    if n > 0 && !b.closed {
      HoverHolds(OnTimer(b), n - 1);
    }
  }

  // ---------------------------------------------------------------------
  // All bubbles
  // ---------------------------------------------------------------------

  /** Every bubble made so far and the last one made (`s_lastTip`). */
  datatype Board = Board(bubbles: seq<Bubble>, last: Option<nat>)

  /** At most one bubble is open: the last one made. */
  predicate OnlyLastOpen(bd: Board) {
    && (bd.last.Some? ==> bd.last.value < |bd.bubbles|)
    && forall i :: 0 <= i < |bd.bubbles| && !bd.bubbles[i].closed ==> bd.last == Some(i)
  }

  /** The constructor's registration: the previous bubble, if still open,
      is hidden and closed, and the new one becomes the last. */
  function AddBubble(bd: Board, b: Bubble): (r: Board)
    requires bd.last.Some? ==> bd.last.value < |bd.bubbles|
    ensures |r.bubbles| == |bd.bubbles| + 1 && r.bubbles[|bd.bubbles|] == b
    ensures r.last == Some(|bd.bubbles|)
    ensures forall i :: 0 <= i < |bd.bubbles| ==>
      r.bubbles[i] == if bd.last == Some(i) then bd.bubbles[i].(closed := true) else bd.bubbles[i]
  {
    var bs := match bd.last
      case Some(i) => if !bd.bubbles[i].closed then bd.bubbles[i := bd.bubbles[i].(closed := true)] else bd.bubbles
      case None => bd.bubbles;
    Board(bs + [b], Some(|bd.bubbles|))
  }

  /** A tick of one bubble's timer, if it is still open. */
  function TickBubble(bd: Board, i: nat): (r: Board)
    requires i < |bd.bubbles|
    ensures r.last == bd.last && |r.bubbles| == |bd.bubbles|
    ensures r.bubbles == bd.bubbles[i := r.bubbles[i]]
    ensures bd.bubbles[i].closed ==> r == bd
    ensures !bd.bubbles[i].closed ==> r.bubbles[i] == OnTimer(bd.bubbles[i])
  {
    if bd.bubbles[i].closed then bd else bd.(bubbles := bd.bubbles[i := OnTimer(bd.bubbles[i])])
  }

  /** Making bubbles and letting them tick never leaves two open. */
  lemma OnlyLastOpenKept(bd: Board, b: Bubble, i: nat)
    requires OnlyLastOpen(bd)
    ensures OnlyLastOpen(AddBubble(bd, b))
    ensures i < |bd.bubbles| ==> OnlyLastOpen(TickBubble(bd, i))
  {
  }

  // ---------------------------------------------------------------------
  // Showing
  // ---------------------------------------------------------------------

  /** `QRect::center`: the midpoint, rounded toward zero. */
  function Center(r: Rect): (c: Point)
    ensures r.IsValid() ==> r.left <= c.x <= r.right && r.top <= c.y <= r.bottom
  {
    Point(TruncDiv(r.left + r.right, 2), TruncDiv(r.top + r.bottom, 2))
  }

  /** Where `showTips` centres the bubble: the middle of the widget's
      rectangle on the screen (its geometry moved to where the widget's
      corner is on the screen), else the middle of the primary screen,
      shifted by `diff`; nothing without a widget or a screen. */
  function TipCenter(widget: Option<(Rect, Point)>, primaryScreen: Option<Rect>, diff: Point): (c: Option<Point>)
    ensures widget.None? && primaryScreen.None? <==> c.None?
    ensures widget.Some? ==> c == Some(Point(
      Center(RectXYWH(widget.value.1.x, widget.value.1.y, widget.value.0.Width(), widget.value.0.Height())).x + diff.x,
      Center(RectXYWH(widget.value.1.x, widget.value.1.y, widget.value.0.Width(), widget.value.0.Height())).y + diff.y))
    ensures widget.None? && primaryScreen.Some? ==>
      c == Some(Point(Center(primaryScreen.value).x + diff.x, Center(primaryScreen.value).y + diff.y))
  {
    match widget
    case Some((geometry, topLeft)) =>
      var c := Center(RectXYWH(topLeft.x, topLeft.y, geometry.Width(), geometry.Height()));
      Some(Point(c.x + diff.x, c.y + diff.y))
    case None =>
      match primaryScreen
      case None => None
      case Some(screen) =>
        var c := Center(screen);
        Some(Point(c.x + diff.x, c.y + diff.y))
  }

  /** `showTips` around `center`: a new bubble with the message and no
      pointer, first shown with its corner at the centre. */
  function ShowTips(bd: Board, message: string, center: Point): (r: Board)
    requires bd.last.Some? ==> bd.last.value < |bd.bubbles|
    ensures |r.bubbles| == |bd.bubbles| + 1
    ensures var b := r.bubbles[|bd.bubbles|];
      && r == AddBubble(bd, b)
      && b.content == message && b.direct == NoDirect && b.pos == center
      && b.display == DisplayTicks && !b.closed
  {
    AddBubble(bd, NewBubble().(content := message, direct := NoDirect, pos := center))
  }

  /** The move queued by `showTips` once the bubble has its size: the
      bubble's middle goes to the centre, half sizes rounded toward
      zero. */
  function CentreOn(b: Bubble, center: Point, size: Size): (r: Bubble)
    requires size.w >= 0 && size.h >= 0
    ensures r == b.(pos := r.pos)
    ensures size.w >= 1 ==> r.pos.x <= center.x < r.pos.x + size.w
    ensures size.h >= 1 ==> r.pos.y <= center.y < r.pos.y + size.h
    ensures r.pos.x + size.w / 2 == center.x && r.pos.y + size.h / 2 == center.y
  {
    b.(pos := Point(center.x - TruncDiv(size.w, 2), center.y - TruncDiv(size.h, 2)))
  }
}
