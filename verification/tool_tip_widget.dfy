/** The custom tool tip of tool_tip_widget.cpp: where the tip is placed
    next to the mouse, when it is shown, and the two ways it goes away —
    after a 300 ms grace period when the mouse leaves its area, at once on
    a click, wheel, focus or activation change — unless a caller has
    protected it. Timers are modelled by whether they run and their
    interval; the trigger widget's screen and coordinate mapping are
    parameters.
 */
module ToolTipWidget {
  import opened Common

  /** The grace period of `hideTip`, in milliseconds. */
  const HideDelay: int := 300
  /** The display time `restartExpireTimer` uses when given none. */
  const DefaultExpireTime: int := 10000
  /** Offset of the tip from the mouse position. */
  const OffsetX: int := 2
  const OffsetY: int := 20

  /** The tip: whether it shows and whether it has been closed (which
      deletes it), the widget it belongs to and the area of that widget it
      describes, its position and size, its two timers (their interval
      while running), the protection flag and how many times the `hided`
      hook ran. */
  datatype Tip = Tip(
    visible: bool, closed: bool,
    trigger: Option<nat>, rect: Rect,
    pos: Point, size: Size,
    hideTimer: Option<int>, expireTimer: Option<int>,
    hideProtect: bool, hidedCalls: nat)

  /** A new tip, not yet shown. */
  function NewTip(size: Size): (t: Tip)
    ensures !t.visible && !t.closed && t.hideTimer.None? && t.expireTimer.None? && !t.hideProtect
  {
    Tip(false, false, None, NullRect, Point(0, 0), size, None, None, false, 0)
  }

  // ---------------------------------------------------------------------
  // Placement
  // ---------------------------------------------------------------------

  /** `placeTip`: with a screen, the tip goes below right of the mouse,
      flips to the left or above when it would leave the screen, and is
      then pushed back inside; without one it sits at the mouse position
      itself. */
  function PlaceTip(pos: Point, size: Size, screen: Option<Rect>): (p: Point)
    ensures screen.None? ==> p == pos
    ensures screen.Some? ==> screen.value.left <= p.x && p.y + size.h <= screen.value.bottom + 1
    ensures screen.Some? && size.w <= screen.value.Width() ==> p.x + size.w <= screen.value.right + 1
    ensures screen.Some? && size.h <= screen.value.Height() ==> screen.value.top <= p.y
    ensures screen.Some? && pos.x + OffsetX + size.w <= screen.value.right + 1 && screen.value.left <= pos.x + OffsetX ==>
      p.x == pos.x + OffsetX
    ensures screen.Some? && pos.y + OffsetY + size.h <= screen.value.bottom + 1 && screen.value.top <= pos.y + OffsetY ==>
      p.y == pos.y + OffsetY
    ensures (screen.Some? && pos.x + OffsetX + size.w > screen.value.right + 1
             && screen.value.left <= pos.x - OffsetX - size.w && pos.x - OffsetX <= screen.value.right + 1) ==>
      p.x + size.w == pos.x - OffsetX
    ensures (screen.Some? && pos.y + OffsetY + size.h > screen.value.bottom + 1
             && screen.value.top <= pos.y + OffsetY - 24 - size.h && pos.y + OffsetY - 24 <= screen.value.bottom + 1) ==>
      p.y + size.h == pos.y + OffsetY - 24
  {
    match screen
    case None => pos
    case Some(rt) =>
      var right := rt.left + rt.Width();
      var bottom := rt.top + rt.Height();
      var x0 := pos.x + OffsetX;
      var y0 := pos.y + OffsetY;
      var x1 := if x0 + size.w > right then x0 - (4 + size.w) else x0;
      var y1 := if y0 + size.h > bottom then y0 - (24 + size.h) else y0;
      var y2 := if y1 < rt.top then rt.top else y1;
      var x2 := if x1 + size.w > right then right - size.w else x1;
      var x3 := if x2 < rt.left then rt.left else x2;
      var y3 := if y2 + size.h > bottom then bottom - size.h else y2;
      Point(x3, y3)
  }

  // ---------------------------------------------------------------------
  // Showing and hiding
  // ---------------------------------------------------------------------

  /** `hideTip`: start the grace period, unless it already runs. */
  function HideTip(t: Tip): (r: Tip)
    ensures r.hideTimer.Some?
    ensures t.hideTimer.None? ==> r == t.(hideTimer := Some(HideDelay))
    ensures t.hideTimer.Some? ==> r == t
  {
    if t.hideTimer.None? then t.(hideTimer := Some(HideDelay)) else t
  }

  /** `hideTipImmediately`: nothing while protected; otherwise the `hided`
      hook runs and the tip closes. */
  function HideTipImmediately(t: Tip): (r: Tip)
    ensures t.hideProtect ==> r == t
    ensures !t.hideProtect ==> !r.visible && r.closed && r.hidedCalls == t.hidedCalls + 1
  {
    if t.hideProtect then t
    else t.(hidedCalls := t.hidedCalls + 1, visible := false, closed := true)
  }

  /** `showText` at the mouse position `pos` for the area `rect` of the
      widget `trigger`, whose screen is `screen`: a showing tip asked to
      show nothing starts to hide; a valid area stops both timers and
      shows the tip there, placed by the mouse; anything else changes
      nothing. */
  function ShowText(t: Tip, pos: Point, trigger: Option<nat>, rect: Rect, screen: Option<Rect>): (r: Tip)
    ensures t.visible && rect.IsNull() ==> r == HideTip(t)
    ensures !(t.visible && rect.IsNull()) && rect.IsValid() ==>
      && r.visible && r.hideTimer.None? && r.expireTimer.None?
      && r.trigger == trigger && r.rect == rect
      && r.pos == PlaceTip(pos, t.size, screen)
      && r.closed == t.closed && r.hideProtect == t.hideProtect
    ensures !(t.visible && rect.IsNull()) && !rect.IsValid() ==> r == t
  {
    if t.visible && rect.IsNull() then HideTip(t)
    else if rect.IsValid() then
      t.(hideTimer := None, expireTimer := None, trigger := trigger, rect := rect,
         pos := PlaceTip(pos, t.size, screen), visible := true)
    else t
  }

  /** `restartExpireTimer`: the tip expires after the given time, or
      after ten seconds when that is not positive; the grace period
      stops. */
  function RestartExpireTimer(t: Tip, msec: int): (r: Tip)
    ensures r.expireTimer.Some? && r.hideTimer.None?
    ensures msec > 0 ==> r.expireTimer.value == msec
    ensures msec <= 0 ==> r.expireTimer.value == DefaultExpireTime
    ensures r == t.(expireTimer := r.expireTimer, hideTimer := None)
  {
    t.(expireTimer := Some(if msec > 0 then msec else DefaultExpireTime), hideTimer := None)
  }

  /** `noHideBegin` and `noHideEnd`. */
  function SetHideProtect(t: Tip, protect: bool): (r: Tip)
    ensures r.hideProtect == protect && r == t.(hideProtect := protect)
  {
    t.(hideProtect := protect)
  }

  /** `checkMouse` for the mouse at `global` on the screen: inside the
      described area, in the trigger widget's coordinates when there is a
      trigger, nothing happens; outside it the tip starts to hide. A tip
      without an area ignores the mouse. */
  function CheckMouse(t: Tip, global: Point, mapFromGlobal: Point -> Point): (r: Tip)
    ensures var local := if t.trigger.Some? then mapFromGlobal(global) else global;
      r == (if !t.rect.IsNull() && !RectContains(t.rect, local) then HideTip(t) else t)
  {
    if t.rect.IsNull() then t
    else
      var local := if t.trigger.Some? then mapFromGlobal(global) else global;
      if RectContains(t.rect, local) then t else HideTip(t)
  }

  /** The timers a timer event can come from. */
  datatype Timer = HideTimer | ExpireTimer | OtherTimer

  /** `timerEvent`: when the grace period or the display time runs out,
      both timers stop and the tip hides at once. An event from any other
      timer, or from one that is not running, is ignored. */
  function TimerFired(t: Tip, timer: Timer): (r: Tip)
    ensures (timer == HideTimer && t.hideTimer.Some?) || (timer == ExpireTimer && t.expireTimer.Some?) ==>
      r == HideTipImmediately(t.(hideTimer := None, expireTimer := None))
    ensures !((timer == HideTimer && t.hideTimer.Some?) || (timer == ExpireTimer && t.expireTimer.Some?)) ==> r == t
  {
    var fires := match timer
      case HideTimer => t.hideTimer.Some?
      case ExpireTimer => t.expireTimer.Some?
      case OtherTimer => false;
    if fires then HideTipImmediately(t.(hideTimer := None, expireTimer := None)) else t
  }

  /** The application events the tip watches. */
  datatype Event =
    | Leave | Close
    | WindowActivate | WindowDeactivate | FocusIn | FocusOut
    | MouseButtonPress | MouseButtonRelease | MouseButtonDblClick | Wheel
    | MouseMove(global: Point)
    | OtherEvent

  /** The events that dismiss a tip at once, wherever they happen. */
  predicate Dismisses(e: Event) {
    e.WindowActivate? || e.WindowDeactivate? || e.FocusIn? || e.FocusOut?
    || e.MouseButtonPress? || e.MouseButtonRelease? || e.MouseButtonDblClick? || e.Wheel?
  }

  /** `eventFilter` for an event sent to the widget `target`: the trigger
      widget being left starts the grace period and its closing hides the
      tip; the dismissing events hide it wherever they happen; mouse moves
      are checked against the area. The event is never consumed. */
  function EventFilter(t: Tip, target: nat, e: Event, mapFromGlobal: Point -> Point): (r: Tip)
    ensures e.Leave? ==> r == (if t.trigger == Some(target) then HideTip(t) else t)
    ensures e.Close? ==> r == (if t.trigger == Some(target) then HideTipImmediately(t) else t)
    ensures Dismisses(e) ==> r == HideTipImmediately(t)
    ensures e.MouseMove? ==> r == CheckMouse(t, e.global, mapFromGlobal)
    ensures e.OtherEvent? ==> r == t
  {
    match e
    case Leave => if t.trigger == Some(target) then HideTip(t) else t
    case Close => if t.trigger == Some(target) then HideTipImmediately(t) else t
    case MouseMove(g) => CheckMouse(t, g, mapFromGlobal)
    case OtherEvent => t
    case _ => HideTipImmediately(t)
  }

  /** While protected, no event and no timer closes the tip. */
  lemma ProtectedTipStaysOpen(t: Tip, target: nat, e: Event, timer: Timer, mapFromGlobal: Point -> Point)
    requires t.hideProtect && !t.closed
    ensures !EventFilter(t, target, e, mapFromGlobal).closed
    ensures !TimerFired(t, timer).closed
    ensures EventFilter(t, target, e, mapFromGlobal).visible == t.visible
  {
  }

  /** Leaving the trigger widget and then letting the grace period run out
      closes an unprotected tip; a second leave before that does not
      restart the grace period. */
  lemma LeaveThenTimeoutCloses(t: Tip, target: nat, mapFromGlobal: Point -> Point)
    requires t.trigger == Some(target) && !t.hideProtect
    ensures var left := EventFilter(t, target, Leave, mapFromGlobal);
      && left.hideTimer.Some?
      && EventFilter(left, target, Leave, mapFromGlobal) == left
      && TimerFired(left, HideTimer).closed
      && !TimerFired(left, HideTimer).visible
  {
  }

  /** A mouse that stays inside the area of a shown tip leaves it alone;
      one outside a non-empty area starts the grace period. */
  lemma MouseInsideKeepsTip(t: Tip, global: Point, mapFromGlobal: Point -> Point)
    requires t.rect.IsValid()
    ensures var local := if t.trigger.Some? then mapFromGlobal(global) else global;
      && (t.rect.Contains(local) ==> CheckMouse(t, global, mapFromGlobal) == t)
      && (!t.rect.Contains(local) ==> CheckMouse(t, global, mapFromGlobal).hideTimer.Some?)
  {
  }
}
