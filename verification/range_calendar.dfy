/** The date-range line edit of range_calendar_widget.cpp: its validator,
    the commits from typing, from the setters and from the calendar popup,
    and the text it shows. Dates are day numbers; Qt's date parsing and
    formatting (`yyyy-MM-dd`) and `QString::toInt` are parameters, each a
    partial function.
 */
module RangeCalendar {
  import opened Common

  /** A `QDate`: null, or a valid day number. A null date compares below
      every valid one, as its day number is the least value. */
  datatype Date = NullDate | Day(jd: int)

  /** `a < b` on dates. */
  predicate Before(a: Date, b: Date) {
    (a.NullDate? && b.Day?) || (a.Day? && b.Day? && a.jd < b.jd)
  }

  /** `Before` is a strict total order on dates. */
  lemma BeforeIsStrictTotal(a: Date, b: Date, c: Date)
    ensures !Before(a, a)
    ensures Before(a, b) && Before(b, c) ==> Before(a, c)
    ensures a != b ==> Before(a, b) || Before(b, a)
  {
  }

  /** `QDate::daysTo`: 0 when either date is null. */
  function DaysTo(a: Date, b: Date): int {
    if a.Day? && b.Day? then b.jd - a.jd else 0
  }

  /** `QDate::fromString(s, "yyyy-MM-dd")` (a null date when `s` does not
      parse), `QDate::toString("yyyy-MM-dd")` and `QString::toInt`. */
  datatype Formats = Formats(parseDate: string -> Date, formatDate: Date -> string, parseInt: string -> Option<int>)

  /** Formats that read back what they write: a formatted valid date is
      non-empty, has no separator and parses to itself, and printed
      integers parse to themselves. */
  ghost predicate ReadsBack(f: Formats) {
    (forall d: Date :: d.Day? ==> f.parseDate(f.formatDate(d)) == d)
    && (forall d: Date :: d.Day? ==> f.formatDate(d) != [] && Sep !in f.formatDate(d))
    && (forall n: int :: f.parseInt(IntToString(n)) == Some(n))
  }

  /** The separator between the two dates. */
  const Sep: char := '/'

  /** The two sides of the first separator, when both are non-empty. */
  function SplitRange(input: string): (r: Option<(string, string)>)
    ensures r.Some? ==> r.value.0 != [] && r.value.1 != [] && Sep !in r.value.0
                        && input == r.value.0 + [Sep] + r.value.1
  {
    var mid := IndexOf(input, Sep);
    if mid == -1 then None
    else
      var left := input[..mid];
      var right := input[mid + 1..];
      if left == [] || right == [] then None
      else
        assert input == left + [Sep] + right;
        Some((left, right))
  }

  /** Joining two non-empty sides, the first without a separator, splits
      back into them. */
  lemma SplitJoin(a: string, b: string)
    requires a != [] && b != [] && Sep !in a
    ensures SplitRange(a + [Sep] + b) == Some((a, b))
  {
    var s := a + [Sep] + b;
    assert s[|a|] == Sep;
    assert s[..|a|] == a;
    var mid := IndexOf(s, Sep);
    assert mid == |a|;
    assert s[mid + 1..] == b;
  }

  datatype ValidatorState = Invalid | Intermediate | Acceptable

  /** The line edit's state. The validator's copies of the bounds and of
      the days flag are always set together with the edit's own, so they
      are kept once here. */
  datatype Edit = Edit(
    start: Date, end: Date,
    min: Date, max: Date,
    onlyDays: bool,
    text: string, tip: string,
    popupOpen: bool)

  /** The range mode's parse: both dates valid and in order. */
  function ParseDates(input: string, f: Formats): (r: Option<(Date, Date)>)
    ensures r.Some? ==> r.value.0.Day? && r.value.1.Day? && r.value.0.jd <= r.value.1.jd
  {
    match SplitRange(input)
    case None => None
    case Some((left, right)) =>
      var s := f.parseDate(left);
      var e := f.parseDate(right);
      if s.NullDate? || e.NullDate? || Before(e, s) then None else Some((s, e))
  }

  /** `DateTimeRangeValidator::validate`. In days mode: Invalid without an
      end date, Intermediate for a non-number or a start before the
      minimum. In range mode: Invalid without a separator or with an empty
      side, Intermediate for an unparsable date, a reversed range, an end
      past the maximum or a start before the minimum (each bound only
      when set). */
  function Validate(input: string, e: Edit, f: Formats): (r: ValidatorState)
    ensures e.onlyDays ==>
      (r == Invalid <==> e.end.NullDate?)
      && (r == Acceptable <==>
            e.end.Day? && f.parseInt(input).Some?
            && !(e.min.Day? && Before(Day(e.end.jd + 1 - f.parseInt(input).value), e.min)))
    ensures !e.onlyDays ==>
      (r == Invalid <==> SplitRange(input).None?)
      && (r == Acceptable <==>
            ParseDates(input, f).Some?
            && !(e.max.Day? && Before(e.max, ParseDates(input, f).value.1))
            && !(e.min.Day? && Before(ParseDates(input, f).value.0, e.min)))
  {
    if e.onlyDays then
      if e.end.NullDate? then Invalid
      else
        match f.parseInt(input)
        case None => Intermediate
        case Some(days) =>
          var start := Day(e.end.jd + 1 - days);
          if e.min.Day? && Before(start, e.min) then Intermediate else Acceptable
    else
      match SplitRange(input)
      case None => Invalid
      case Some((left, right)) =>
        var start := f.parseDate(left);
        var end := f.parseDate(right);
        if start.NullDate? || end.NullDate? then Intermediate
        else if Before(end, start) then Intermediate
        else if e.max.Day? && Before(e.max, end) then Intermediate
        else if e.min.Day? && Before(start, e.min) then Intermediate
        else Acceptable
  }

  /** `updateText`: the tooltip always shows the range; the text shows the
      number of days counted inclusively in days mode, the range
      otherwise. */
  function UpdateText(e: Edit, f: Formats): (r: Edit)
    ensures r.(text := e.text, tip := e.tip) == e
    ensures r.tip == f.formatDate(e.start) + [Sep] + f.formatDate(e.end)
    ensures r.text == if e.onlyDays then IntToString(DaysTo(e.start, e.end) + 1) else r.tip
  {
    var tip := f.formatDate(e.start) + [Sep] + f.formatDate(e.end);
    var text := if e.onlyDays then IntToString(DaysTo(e.start, e.end) + 1) else tip;
    e.(text := text, tip := tip)
  }

  /** The `dateChanged` signal, when emitted. */
  type Signal = Option<(Date, Date)>

  /** Storing new dates and announcing them, when they differ from the
      current ones; otherwise nothing happens. */
  function Commit(e: Edit, start: Date, end: Date, f: Formats): (r: (Edit, Signal))
    ensures r.1.Some? <==> (start, end) != (e.start, e.end)
    ensures r.1.Some? ==> r.1.value == (start, end) && r.0 == UpdateText(e.(start := start, end := end), f)
    ensures r.1.None? ==> r.0 == e
  {
    if e.start != start || e.end != end then
      (UpdateText(e.(start := start, end := end), f), Some((start, end)))
    else (e, None)
  }

  /** `setDateStart`. */
  function SetDateStart(e: Edit, start: Date, f: Formats): (r: (Edit, Signal))
    ensures r.0.start == start && r.0.end == e.end
    ensures r.1.Some? <==> start != e.start
    ensures r.1.Some? ==> r.1.value == (start, e.end)
  {
    Commit(e, start, e.end, f)
  }

  /** `setDateEnd`. */
  function SetDateEnd(e: Edit, end: Date, f: Formats): (r: (Edit, Signal))
    ensures r.0.start == e.start && r.0.end == end
    ensures r.1.Some? <==> end != e.end
    ensures r.1.Some? ==> r.1.value == (e.start, end)
  {
    Commit(e, e.start, end, f)
  }

  /** `setDate`: a silent no-op when the raw dates equal the current ones;
      otherwise the start is raised to the minimum and the end lowered to
      the maximum (each only when set), the order of the two is not
      checked, and the stored dates are announced even when they did not
      change. */
  function SetDate(e: Edit, start: Date, end: Date, f: Formats): (r: (Edit, Signal))
    ensures (start, end) == (e.start, e.end) ==> r == (e, None)
    ensures (start, end) != (e.start, e.end) ==>
      r.1 == Some((r.0.start, r.0.end))
      && r.0 == UpdateText(e.(start := r.0.start, end := r.0.end), f)
      && (e.min.Day? ==> !Before(r.0.start, e.min))
      && (e.max.Day? ==> !Before(e.max, r.0.end))
      && (r.0.start == start || r.0.start == e.min)
      && (r.0.end == end || r.0.end == e.max)
      && (!(e.min.Day? && Before(start, e.min)) ==> r.0.start == start)
      && (!(e.max.Day? && Before(e.max, end)) ==> r.0.end == end)
  {
    if e.start != start || e.end != end then
      var s := if e.min.Day? && Before(start, e.min) then e.min else start;
      var n := if e.max.Day? && Before(e.max, end) then e.max else end;
      (UpdateText(e.(start := s, end := n), f), Some((s, n)))
    else (e, None)
  }

  /** Repeating `setDate` leaves the edit as it is; the signal is emitted
      again exactly when the first call had to clamp. */
  lemma SetDateSettles(e: Edit, start: Date, end: Date, f: Formats)
    requires (start, end) != (e.start, e.end)
    ensures var (e1, _) := SetDate(e, start, end, f);
      var (e2, sig) := SetDate(e1, start, end, f);
      e2 == e1 && (sig.Some? <==> (e1.start, e1.end) != (start, end))
  {
  }

  /** `setDate` accepts a reversed range: with no bounds, start 5 and end 3
      are stored as they are. */
  lemma SetDateKeepsReversedRange(e: Edit, f: Formats)
    requires e.min.NullDate? && e.max.NullDate? && e.start != Day(5)
    ensures var (r, _) := SetDate(e, Day(5), Day(3), f);
      r.start == Day(5) && r.end == Day(3) && Before(r.end, r.start)
  {
  }

  /** `calendarDateChanged`: a range in order that differs from the current
      one is stored and announced; a reversed one is ignored; the popup is
      closed either way. */
  function CalendarDateChanged(e: Edit, start: Date, end: Date, f: Formats): (r: (Edit, Signal))
    ensures !r.0.popupOpen
    ensures Before(end, start) ==> r == (e.(popupOpen := false), None)
    ensures !Before(end, start) ==>
      r.0.start == start && r.0.end == end
      && (r.1.Some? <==> (start, end) != (e.start, e.end))
      && (r.1.Some? ==> r.1.value == (start, end))
  {
    var (c, sig) := if !Before(end, start) then Commit(e, start, end, f) else (e, None);
    (c.(popupOpen := false), sig)
  }

  /** `editingFinished`: the typed text is committed only when it passes
      the same checks as the validator. In days mode only the start moves,
      to `end + 1 - days`; in range mode both dates are taken. */
  function EditingFinished(e: Edit, f: Formats): (r: (Edit, Signal))
    ensures r.1.Some? ==> r.0 == UpdateText(e.(start := r.1.value.0, end := r.1.value.1), f)
    ensures r.1.None? ==> r.0 == e
    ensures r.1.Some? ==> (r.1.value.0, r.1.value.1) != (e.start, e.end)
    ensures e.onlyDays ==> r.0.end == e.end
  {
    var input := e.text;
    if e.onlyDays then
      if e.end.NullDate? then (e, None)
      else
        match f.parseInt(input)
        case None => (e, None)
        case Some(days) =>
          var start := Day(e.end.jd + 1 - days);
          if e.min.Day? && Before(start, e.min) then (e, None)
          else Commit(e, start, e.end, f)
    else
      match SplitRange(input)
      case None => (e, None)
      case Some((left, right)) =>
        var start := f.parseDate(left);
        var end := f.parseDate(right);
        if start.NullDate? || end.NullDate? then (e, None)
        else if Before(end, start) then (e, None)
        else if e.max.Day? && Before(e.max, end) then (e, None)
        else if e.min.Day? && Before(start, e.min) then (e, None)
        else Commit(e, start, end, f)
  }

  /** Finishing an edit commits exactly what the validator accepts: a text
      it does not accept changes nothing, and an accepted one is stored
      (announced when it differs), in range mode with the dates in order
      and within the bounds. */
  lemma EditingFinishedFollowsValidator(e: Edit, f: Formats)
    ensures Validate(e.text, e, f) != Acceptable ==> EditingFinished(e, f) == (e, None)
    ensures Validate(e.text, e, f) == Acceptable && !e.onlyDays ==>
      var (s, n) := ParseDates(e.text, f).value;
      var (r, sig) := EditingFinished(e, f);
      r.start == s && r.end == n && (sig.Some? <==> (s, n) != (e.start, e.end))
    ensures Validate(e.text, e, f) == Acceptable && e.onlyDays ==>
      var r := EditingFinished(e, f).0;
      r.start == Day(e.end.jd + 1 - f.parseInt(e.text).value) && r.end == e.end
    ensures EditingFinished(e, f).1.Some? ==> Validate(e.text, e, f) == Acceptable
  {
  }

  /** The text shown for a range in order and within the bounds is
      accepted, and finishing the edit on it changes nothing. */
  lemma {:induction false} ShownRangeReadsBack(e: Edit, f: Formats)
    requires ReadsBack(f) && !e.onlyDays
    requires e.start.Day? && e.end.Day? && e.start.jd <= e.end.jd
    requires e.min.Day? ==> !Before(e.start, e.min)
    requires e.max.Day? ==> !Before(e.max, e.end)
    ensures var r := UpdateText(e, f);
      Validate(r.text, r, f) == Acceptable && EditingFinished(r, f) == (r, None)
  {
    var r := UpdateText(e, f);
    var a := f.formatDate(e.start);
    var b := f.formatDate(e.end);
    SplitJoin(a, b);
    assert f.parseDate(a) == e.start && f.parseDate(b) == e.end;
  }

  /** In days mode, the day count shown for dates within the bounds is
      accepted, and finishing the edit on it changes nothing. */
  lemma {:induction false} ShownDaysReadBack(e: Edit, f: Formats)
    requires ReadsBack(f) && e.onlyDays
    requires e.start.Day? && e.end.Day?
    requires e.min.Day? ==> !Before(e.start, e.min)
    ensures var r := UpdateText(e, f);
      Validate(r.text, r, f) == Acceptable && EditingFinished(r, f) == (r, None)
  {
    var n := DaysTo(e.start, e.end) + 1;
    assert f.parseInt(IntToString(n)) == Some(n);
    assert e.end.jd + 1 - n == e.start.jd;
  }

  /** In days mode a count of 0 days is accepted and stores a start one
      day after the end: the order of the range is not enforced. */
  lemma DaysModeAcceptsReversedRange(e: Edit, f: Formats)
    requires e.onlyDays && e.end.Day? && e.min.NullDate?
    requires f.parseInt(e.text) == Some(0)
    ensures Validate(e.text, e, f) == Acceptable
    ensures var r := EditingFinished(e, f).0; r.start == Day(e.end.jd + 1) && Before(r.end, r.start)
  {
  }

  /** `RangeCalendarContainer::emitDataChanged`: the pair in ascending
      order. */
  function AscendingPair(start: Date, end: Date): (r: (Date, Date))
    ensures !Before(r.1, r.0)
    ensures multiset{r.0, r.1} == multiset{start, end}
  {
    if Before(start, end) then (start, end) else (end, start)
  }
}
