/** The pure helpers of lafplay_utils.cpp: the human-readable byte size
    and relative time, the combo-box reset, the geometry restore with its
    deferred size check, and the scrolling label's position.
 */
module LafplayUtils {
  import opened Common

  // ---------------------------------------------------------------------
  // Byte sizes (lafplay_utils.cpp:20-38)
  // ---------------------------------------------------------------------

  datatype SizeUnit = KB | MB | GB | TB | PB

  /** Units are decimal: a kilobyte is 1000 bytes. */
  function UnitBytes(u: SizeUnit): nat {
    match u
    case KB => 1_000
    case MB => 1_000_000
    case GB => 1_000_000_000
    case TB => 1_000_000_000_000
    case PB => 1_000_000_000_000_000
  }

  /** What `toHumanRead(size)` prints: the exact count of bytes, a scaled
      number with a unit (the two-decimal number itself is not modelled),
      or "unlimited.". */
  datatype SizeText = Bytes(n: int) | Scaled(unit: SizeUnit) | Unlimited

  /** The unit is the largest one the size reaches, below 1000 bytes the
      size prints exactly, and from 10^18 on it is "unlimited.". */
  function HumanSize(size: int): (r: SizeText)
    ensures r.Bytes? <==> size < 1_000
    ensures r.Bytes? ==> r.n == size
    ensures r.Unlimited? <==> size >= 1_000_000_000_000_000_000
    ensures r.Scaled? ==> UnitBytes(r.unit) <= size < 1_000 * UnitBytes(r.unit)
  {
    if size < 1_000 then Bytes(size)
    else if size < 1_000_000 then Scaled(KB)
    else if size < 1_000_000_000 then Scaled(MB)
    else if size < 1_000_000_000_000 then Scaled(GB)
    else if size < 1_000_000_000_000_000 then Scaled(TB)
    else if size < 1_000_000_000_000_000_000 then Scaled(PB)
    else Unlimited
  }

  /** The unit a size is shown in is the only one it fits. */
  lemma HumanSizeUnitUnique(size: int, u: SizeUnit)
    requires UnitBytes(u) <= size < 1_000 * UnitBytes(u)
    ensures HumanSize(size) == Scaled(u)
  {
  }

  /** The text of the two cases printed without a number format. */
  function SizeString(r: SizeText): (s: string)
    requires !r.Scaled?
  {
    if r.Bytes? then IntToString(r.n) + " B" else "unlimited."
  }

  // ---------------------------------------------------------------------
  // Relative time (lafplay_utils.cpp:40-122)
  // ---------------------------------------------------------------------

  datatype TimeUnit = Second | Minute | Hour | Day | Month | Year

  /** A month counts 30 days and a year 365. */
  function UnitSeconds(u: TimeUnit): nat {
    match u
    case Second => 1
    case Minute => 60
    case Hour => 3_600
    case Day => 86_400
    case Month => 2_592_000
    case Year => 31_536_000
  }

  function UnitLabel(u: TimeUnit): string {
    match u
    case Second => "秒"
    case Minute => "分钟"
    case Hour => "小时"
    case Day => "天"
    case Month => "月"
    case Year => "年"
  }

  /** The unit of the secondary component shown after each bucket. */
  function Finer(u: TimeUnit): TimeUnit {
    match u
    case Second => Second
    case Minute => Second
    case Hour => Minute
    case Day => Hour
    case Month => Day
    case Year => Day
  }

  /** A relative time: "now", or a count of the bucket's unit with an
      optional secondary count (0 = not shown), in the past or future. */
  datatype Reading =
    | Current
    | Relative(future: bool, count: nat, unit: TimeUnit, extra: nat, extraUnit: TimeUnit)

  /** `n` units in seconds. */
  function InSeconds(n: nat, u: TimeUnit): nat {
    match u
    case Second => n
    case Minute => n * 60
    case Hour => n * 3_600
    case Day => n * 86_400
    case Month => n * 2_592_000
    case Year => n * 31_536_000
  }

  /** Where each bucket ends: the size of the next unit up, a year for
      months; the years bucket has no end (0 here). */
  function BucketEnd(u: TimeUnit): nat {
    match u
    case Second => 60
    case Minute => 3_600
    case Hour => 86_400
    case Day => 2_592_000
    case Month => 31_536_000
    case Year => 0
  }

  /** The bucket a magnitude of `d` seconds falls in: the largest unit it
      reaches, a day counting up to 30 days and a month up to 365 days. */
  function Bucket(d: nat): (u: TimeUnit)
    requires d > 0
    ensures UnitSeconds(u) <= d
    ensures u != Year ==> d < BucketEnd(u)
  {
    if d < 60 then Second
    else if d < 3_600 then Minute
    else if d < 86_400 then Hour
    else if d < 2_592_000 then Day
    else if d < 31_536_000 then Month
    else Year
  }

  /** The reading of a difference of `delta` whole seconds (positive in
      the past), with the secondary count in the unit below the bucket's
      (days below years). It denotes the magnitude rounded down: to the
      bucket's unit when compact, to the finer unit otherwise. */
  function ReadDelta(delta: int, compact: bool): (r: Reading)
    ensures r.Current? <==> delta == 0
    ensures r.Relative? ==>
      (r.future <==> delta < 0)
      && r.unit == Bucket(Abs(delta)) && r.extraUnit == Finer(r.unit)
    ensures r.Relative? && (compact || r.unit == Second) ==>
      r.extra == 0
      && InSeconds(r.count, r.unit) <= Abs(delta) < InSeconds(r.count + 1, r.unit)
    ensures r.Relative? && !compact ==>
      InSeconds(r.count, r.unit) + InSeconds(r.extra, r.extraUnit) <= Abs(delta)
      < InSeconds(r.count, r.unit) + InSeconds(r.extra + 1, r.extraUnit)
  {
    if delta == 0 then Current
    else
      var d := Abs(delta);
      var f := delta < 0;
      if d < 60 then Relative(f, d, Second, 0, Second)
      else if d < 3_600 then Relative(f, d / 60, Minute, if compact then 0 else d % 60, Second)
      else if d < 86_400 then Relative(f, d / 3_600, Hour, if compact then 0 else d % 3_600 / 60, Minute)
      else if d < 2_592_000 then Relative(f, d / 86_400, Day, if compact then 0 else d % 86_400 / 3_600, Hour)
      else if d < 31_536_000 then Relative(f, d / 2_592_000, Month, if compact then 0 else d % 2_592_000 / 86_400, Day)
      else Relative(f, d / 31_536_000, Year, if compact then 0 else d % 31_536_000 / 86_400, Day)
  }

  /** The text of a reading: "当前", or the counts with their labels,
      prefixed "后 " in the future and suffixed "前" in the past; seconds
      alone are written without a space and a zero secondary count is
      not shown. */
  function ReadingText(r: Reading): string {
    match r
    case Current => "当前"
    case Relative(future, count, unit, extra, extraUnit) =>
      var body :=
        if unit == Second then NatToString(count) + UnitLabel(Second)
        else NatToString(count) + " " + UnitLabel(unit)
             + (if extra == 0 then "" else " " + NatToString(extra) + " " + UnitLabel(extraUnit));
      (if future then "后 " else "") + body + (if future then "" else "前")
  }

  /** The difference of two instants in milliseconds, in whole seconds
      truncated toward zero as C++ division does: it is the same
      magnitude either way round. */
  function DeltaSeconds(nowMs: int, dtMs: int): (d: int)
    ensures nowMs >= dtMs ==> d == (nowMs - dtMs) / 1000
    ensures TruncDiv(dtMs - nowMs, 1000) == -d
    ensures d == 0 <==> -1000 < nowMs - dtMs < 1000
  {
    TruncDiv(nowMs - dtMs, 1000)
  }

  /** `toHumanRead(dt, now, compat)` with the hours bucket labelling its
      minutes as minutes. */
  function TimeText(nowMs: int, dtMs: int, compact: bool): string {
    ReadingText(ReadDelta(DeltaSeconds(nowMs, dtMs), compact))
  }

  /** The reading as written: identical except that the hours bucket
      labels its minutes as seconds. */
  function ReadDeltaAsWritten(delta: int, compact: bool): (r: Reading)
    ensures r.Relative? && r.unit != Hour ==> r == ReadDelta(delta, compact)
    ensures r.Relative? && r.unit == Hour ==> r.extraUnit == Second
  {
    var c := ReadDelta(delta, compact);
    if c.Relative? && c.unit == Hour then c.(extraUnit := Second) else c
  }

  function TimeTextAsWritten(nowMs: int, dtMs: int, compact: bool): string {
    ReadingText(ReadDeltaAsWritten(DeltaSeconds(nowMs, dtMs), compact))
  }

  /** One hour and one minute ago (3660 s) reads "1 小时 1 秒前" as
      written, which denotes 3601 s, where "1 小时 1 分钟前" is meant. */
  lemma TimeTextAsWrittenMislabelsMinutes()
    ensures TimeTextAsWritten(3_660_000, 0, false) == "1 小时 1 秒前"
    ensures var r := ReadDeltaAsWritten(3_660, false);
      r.Relative? && InSeconds(r.count, r.unit) + InSeconds(r.extra, r.extraUnit) == 3_601
    ensures TimeText(3_660_000, 0, false) == "1 小时 1 分钟前"
  {
    assert DeltaSeconds(3_660_000, 0) == 3_660;
    assert ReadDelta(3_660, false) == Relative(false, 1, Hour, 1, Minute);
    assert NatToString(1) == "1";
  }

  /** The text tells past from future: it is "当前" exactly for a
      difference under a second either way, starts with a digit in the
      past and with "后 " in the future. */
  lemma TimeTextDirection(nowMs: int, dtMs: int, compact: bool)
    ensures TimeText(nowMs, dtMs, compact) == "当前" <==> -1000 < nowMs - dtMs < 1000
    ensures nowMs - dtMs >= 1000 ==> '0' <= TimeText(nowMs, dtMs, compact)[0] <= '9'
    ensures nowMs - dtMs <= -1000 ==> TimeText(nowMs, dtMs, compact)[..2] == "后 "
  {
    var r := ReadDelta(DeltaSeconds(nowMs, dtMs), compact);
    if r.Relative? {
      var n := NatToString(r.count);
      var t := ReadingText(r);
      if r.future {
        assert t == "后 " + t[2..];
      } else {
        assert t[..|n|] == n;
        assert t[0] == n[0];
      }
    }
  }

  // ---------------------------------------------------------------------
  // Combo box reset (lafplay_utils.cpp:254-287)
  // ---------------------------------------------------------------------

  /** A combo box: its items, the current index (-1 for none), and for an
      editable box the text typed over the current item, if any. */
  datatype Combo = Combo(items: seq<string>, index: int, editText: Option<string>)

  /** `currentText()`: the typed text first, then the current item, else
      empty. */
  function CurrentText(c: Combo): string {
    if c.editText.Some? then c.editText.value
    else if 0 <= c.index < |c.items| then c.items[c.index]
    else ""
  }

  /** The last position of `text` in `items`, or -1. */
  function LastIndexOf(items: seq<string>, text: string): (i: int)
    ensures -1 <= i < |items|
    ensures i >= 0 ==> items[i] == text && forall j :: i < j < |items| ==> items[j] != text
    ensures i == -1 <==> text !in items
  {
    if items == [] then -1
    else if items[|items| - 1] == text then |items| - 1
    else LastIndexOf(items[..|items| - 1], text)
  }

  /** `setCurrentIndex` on a box with `n` items: an index out of range
      leaves no current item. */
  function Select(n: int, i: int): (j: int)
    ensures 0 <= i < n ==> j == i
    ensures j == -1 || 0 <= j < n
  {
    if 0 <= i < n then i else -1
  }

  /** `resetComboxText`: the items are replaced (the first item added to
      the emptied box becomes current), the old text becomes current again
      at its last position when present, and otherwise, when asked, an
      empty text keeps the old index where it is in range and a non-empty
      text is typed into an editable box or appended and selected. */
  function ResetComboText(c: Combo, items: seq<string>, addIfMissing: bool, editable: bool): (r: Combo)
    ensures var text := CurrentText(c);
      text in items ==> r.items == items && r.index == LastIndexOf(items, text) && CurrentText(r) == text
    ensures var text := CurrentText(c);
      text !in items && addIfMissing && text != "" ==>
        CurrentText(r) == text
        && (!editable ==> r.items == items + [text] && r.index == |items|)
        && (editable ==> r.items == items)
    ensures var text := CurrentText(c);
      text !in items && addIfMissing && text == "" ==>
        r.items == items && r.editText.None?
        && (0 <= c.index < |items| ==> r.index == c.index)
        && (|items| > 0 ==> 0 <= r.index < |items|)
        && (items == [] ==> r.index == -1)
    ensures CurrentText(c) !in items && !addIfMissing ==>
      r == Combo(items, if |items| > 0 then 0 else -1, None)
  {
    var text := CurrentText(c);
    var first := if |items| > 0 then 0 else -1;
    var found := LastIndexOf(items, text);
    if found >= 0 then Combo(items, found, None)
    else if !addIfMissing then Combo(items, first, None)
    else if text == "" then
      var i := if c.index >= |items| then 0 else c.index;
      Combo(items, Select(|items|, if i < 0 then 0 else i), None)
    else if editable then Combo(items, first, Some(text))
    else Combo(items + [text], |items|, None)
  }

  /** Once the text is among the items, resetting to the same items again
      changes nothing. */
  lemma ResetComboTextSettles(c: Combo, items: seq<string>, addIfMissing: bool, editable: bool)
    requires CurrentText(c) in items
    ensures var r := ResetComboText(c, items, addIfMissing, editable);
      ResetComboText(r, items, addIfMissing, editable) == r
  {
  }

  // ---------------------------------------------------------------------
  // Geometry restore (lafplay_utils.cpp:315-391)
  // ---------------------------------------------------------------------

  /** `restoreWidgetGeometry`: `screen` is the window's screen, `saved` the
      decoded geometry with the geometry of the screen it was saved on
      (`None` for a stream error). On the same screen the geometry comes
      back verbatim; on a screen of the same size it is moved by the shift
      of the origin and then pushed back inside on each axis; otherwise
      nothing is restored. */
  function RestoreGeometry(screen: Option<Rect>, saved: Option<(Rect, Rect)>): (r: Option<Rect>)
    ensures r.Some? <==> screen.Some? && saved.Some?
                         && (screen.value == saved.value.1 || screen.value.Extent() == saved.value.1.Extent())
    ensures r.Some? && screen.value == saved.value.1 ==> r.value == saved.value.0
    ensures r.Some? && screen.value != saved.value.1 ==>
      var g := saved.value.0;
      var sc := screen.value;
      r.value.Extent() == g.Extent()
      && (r.value.left >= sc.left || r.value.right == sc.right)
      && (r.value.top >= sc.top || r.value.bottom == sc.bottom)
      && (g.Width() <= sc.Width() ==> sc.left <= r.value.left && r.value.right <= sc.right)
      && (g.Height() <= sc.Height() ==> sc.top <= r.value.top && r.value.bottom <= sc.bottom)
  {
    if screen.None? || saved.None? then None
    else
      var (g, was) := saved.value;
      var sc := screen.value;
      if sc == was then Some(g)
      else if sc.Extent() == was.Extent() then
        var moved := g.Translated(sc.left - was.left, sc.top - was.top);
        var h := if moved.left < sc.left then moved.MoveLeft(sc.left)
                 else if moved.right > sc.right then moved.MoveRight(sc.right)
                 else moved;
        var v := if h.top < sc.top then h.MoveTop(sc.top)
                 else if h.bottom > sc.bottom then h.MoveBottom(sc.bottom)
                 else h;
        Some(v)
      else None
  }

  /** On a screen of the same size, a geometry that lands inside after the
      shift of the origin is not pushed any further. */
  lemma RestoreGeometryKeepsFittingShift(sc: Rect, g: Rect, was: Rect)
    requires sc != was && sc.Extent() == was.Extent()
    requires var m := g.Translated(sc.left - was.left, sc.top - was.top);
      sc.left <= m.left && m.right <= sc.right && sc.top <= m.top && m.bottom <= sc.bottom
    ensures RestoreGeometry(Some(sc), Some((g, was))) == Some(g.Translated(sc.left - was.left, sc.top - was.top))
  {
  }

  /** The widget's size limits. */
  datatype Limits = Limits(minWidth: int, maxWidth: int, minHeight: int, maxHeight: int)

  /** `QRect::setWidth` and `setHeight` keep the top-left corner. */
  function WithWidth(r: Rect, w: int): (q: Rect)
    ensures q.TopLeft() == r.TopLeft() && q.Width() == w && q.Height() == r.Height()
  {
    r.(right := r.left + w - 1)
  }

  function WithHeight(r: Rect, h: int): (q: Rect)
    ensures q.TopLeft() == r.TopLeft() && q.Height() == h && q.Width() == r.Width()
  {
    r.(bottom := r.top + h - 1)
  }

  /** The width brought within its limits, raised to the minimum first. */
  function FitWidth(g: Rect, lim: Limits): (q: Rect)
    ensures q.TopLeft() == g.TopLeft() && q.Height() == g.Height()
    ensures lim.minWidth <= lim.maxWidth ==> lim.minWidth <= q.Width() <= lim.maxWidth
    ensures lim.minWidth <= g.Width() <= lim.maxWidth ==> q == g
  {
    if g.Width() < lim.minWidth then WithWidth(g, lim.minWidth)
    else if g.Width() > lim.maxWidth then WithWidth(g, lim.maxWidth)
    else g
  }

  /** The deferred `checkGeometry` as written: nothing when the widget
      already has `geometry`, otherwise the geometry with its width within
      the limits and its height raised to the minimum or, when the WIDTH
      exceeds the maximum height, set to that maximum. */
  function CheckGeometryAsWritten(actual: Rect, geometry: Rect, lim: Limits): (r: Option<Rect>)
    ensures r.None? <==> actual == geometry
    ensures r.Some? && geometry.Height() >= lim.minHeight && FitWidth(geometry, lim).Width() > lim.maxHeight ==>
      r.value.Height() == lim.maxHeight
  {
    if actual == geometry then None
    else
      var rw := FitWidth(geometry, lim);
      var rh := if rw.Height() < lim.minHeight then WithHeight(rw, lim.minHeight)
                else if rw.Width() > lim.maxHeight then WithHeight(rw, lim.maxHeight)
                else rw;
      Some(rh)
  }

  /** `checkGeometry` comparing the height with the maximum height: the
      result keeps the top-left corner, lies within the limits when they
      are consistent, and leaves a dimension already within its limits
      alone. */
  function CheckGeometry(actual: Rect, geometry: Rect, lim: Limits): (r: Option<Rect>)
    ensures r.None? <==> actual == geometry
    ensures r.Some? ==> r.value.TopLeft() == geometry.TopLeft()
    ensures r.Some? && lim.minWidth <= lim.maxWidth ==> lim.minWidth <= r.value.Width() <= lim.maxWidth
    ensures r.Some? && lim.minHeight <= lim.maxHeight ==> lim.minHeight <= r.value.Height() <= lim.maxHeight
    ensures r.Some? && lim.minWidth <= geometry.Width() <= lim.maxWidth ==> r.value.Width() == geometry.Width()
    ensures r.Some? && lim.minHeight <= geometry.Height() <= lim.maxHeight ==> r.value.Height() == geometry.Height()
  {
    if actual == geometry then None
    else
      var rw := FitWidth(geometry, lim);
      var rh := if rw.Height() < lim.minHeight then WithHeight(rw, lim.minHeight)
                else if rw.Height() > lim.maxHeight then WithHeight(rw, lim.maxHeight)
                else rw;
      Some(rh)
  }

  /** Heights limited to [0, 200]: as written a 300 x 100 geometry at the
      origin, whose height is within the limits, gets height 200 because
      its width exceeds the maximum height, and a 100 x 300 one keeps its
      height of 300 above the maximum. */
  lemma CheckGeometryAsWrittenComparesWidth()
    ensures var lim := Limits(0, 1000, 0, 200);
      CheckGeometryAsWritten(NullRect, Rect(0, 0, 299, 99), lim).value.Height() == 200
      && CheckGeometry(NullRect, Rect(0, 0, 299, 99), lim).value.Height() == 100
    ensures var lim := Limits(0, 1000, 0, 200);
      CheckGeometryAsWritten(NullRect, Rect(0, 0, 99, 299), lim).value.Height() == 300
      && CheckGeometry(NullRect, Rect(0, 0, 99, 299), lim).value.Height() == 200
  {
    var lim := Limits(0, 1000, 0, 200);
    assert FitWidth(Rect(0, 0, 299, 99), lim) == Rect(0, 0, 299, 99);
    assert FitWidth(Rect(0, 0, 99, 299), lim) == Rect(0, 0, 99, 299);
  }

  // ---------------------------------------------------------------------
  // Scrolling label (lafplay_utils.cpp:554-571)
  // ---------------------------------------------------------------------

  /** `ScrollLabel::timerEvent`: the text moves left by `unit`; once it has
      scrolled entirely out on the left it re-enters at the right edge. */
  function ScrollTick(curPos: int, unit: int, textWidth: int, width: int): (p: int)
    ensures curPos - unit >= -textWidth ==> p == curPos - unit
    ensures curPos - unit < -textWidth ==> p == width
  {
    var p := curPos - unit;
    if p < -textWidth then width else p
  }

  /** `ScrollLabel::resizeEvent`: the position is pulled back to the new
      width when it lies beyond it. */
  function ScrollResize(curPos: int, width: int): (p: int)
    ensures p <= width && p <= curPos
    ensures curPos <= width ==> p == curPos
  {
    if curPos > width then width else curPos
  }

  /** The text's position stays within [-textWidth, width] through ticks
      that move left and through resizes. */
  lemma ScrollStaysInView(curPos: int, unit: int, textWidth: int, width: int, newWidth: int)
    requires 0 <= unit && 0 <= textWidth && 0 <= width && 0 <= newWidth
    requires -textWidth <= curPos <= width
    ensures -textWidth <= ScrollTick(curPos, unit, textWidth, width) <= width
    ensures -textWidth <= ScrollResize(curPos, newWidth) <= newWidth
  {
  }
}
