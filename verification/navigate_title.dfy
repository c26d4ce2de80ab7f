/** The breadcrumb title of navigate_title.cpp: a path such as
    "Home > Music > Live" becomes one button per level, a click reports
    the level and the titles up to it, and a level can open a popup list
    of alternatives placed below its button. Buttons are only their
    caption, title and hover style; the popup's pixel metrics and the
    font's text widths are parameters.
 */
module NavigateTitle {
  import opened Common

  /** The separator a new title uses. */
  const DefaultSeparator: char := '>'
  /** The tallest the popup list gets. */
  const MaxPopupHeight: int := 300
  /** Extra width of the popup beyond its widest item and margins. */
  const PopupExtraWidth: int := 10
  /** Gap between a button and the popup below it. */
  const PopupGap: int := 2

  // ---------------------------------------------------------------------
  // Text
  // ---------------------------------------------------------------------

  /** `QChar::isSpace`: the ASCII controls tab to carriage return, next
      line, and the Unicode space, line and paragraph separators. */
  predicate IsSpace(c: char) {
    || c == ' ' || '\t' <= c <= '\r' || c == '\U{85}' || c == '\U{A0}' || c == '\U{1680}'
    || '\U{2000}' <= c <= '\U{200A}' || c == '\U{2028}' || c == '\U{2029}'
    || c == '\U{202F}' || c == '\U{205F}' || c == '\U{3000}'
  }

  /** The text without its leading white space. */
  function TrimStart(s: string): (r: string)
    ensures |r| <= |s| && r == s[|s| - |r|..]
    ensures forall i :: 0 <= i < |s| - |r| ==> IsSpace(s[i])
    ensures r == [] || !IsSpace(r[0])
  {
    if s != [] && IsSpace(s[0]) then
      var r := TrimStart(s[1..]);
      assert s[1..][|s| - 1 - |r|..] == s[|s| - |r|..];
      r
    else s
  }

  /** The text without its trailing white space. */
  function TrimEnd(s: string): (r: string)
    ensures |r| <= |s| && s == r + s[|r|..]
    ensures forall i :: |r| <= i < |s| ==> IsSpace(s[i])
    ensures r == [] || !IsSpace(r[|r| - 1])
  {
    if s != [] && IsSpace(s[|s| - 1]) then
      var r := TrimEnd(s[..|s| - 1]);
      assert s[..|s| - 1][|r|..] + [s[|s| - 1]] == s[|r|..];
      r
    else s
  }

  /** `QString::trimmed`: white space removed from both ends, and nothing
      else. */
  function Trim(s: string): (r: string)
    ensures r == [] || (!IsSpace(r[0]) && !IsSpace(r[|r| - 1]))
    ensures r == [] <==> forall i :: 0 <= i < |s| ==> IsSpace(s[i])
    ensures |r| <= |s|
  {
    var t := TrimStart(s);
    var r := TrimEnd(t);
    var a := |s| - |t|;
    assert r == [] ==> forall i :: 0 <= i < |s| ==> IsSpace(s[i]) by {
      if r == [] {
        forall i | 0 <= i < |s| ensures IsSpace(s[i]) {
          if i >= a { assert s[i] == t[i - a]; }
        }
      }
    }
    assert r != [] ==> r[0] == t[0];
    r
  }

  /** Text that already has no white space at either end trims to
      itself, so trimming twice is trimming once. */
  lemma TrimIdempotent(s: string)
    ensures s == [] || (!IsSpace(s[0]) && !IsSpace(s[|s| - 1])) ==> Trim(s) == s
    ensures Trim(Trim(s)) == Trim(s)
  {
    var r := Trim(s);
    if r != [] {
      assert TrimStart(r) == r;
      assert TrimEnd(r) == r;
    }
    if s != [] && !IsSpace(s[0]) && !IsSpace(s[|s| - 1]) {
      assert TrimStart(s) == s;
      assert TrimEnd(s) == s;
    }
  }

  /** `QString::split(sep, Qt::SkipEmptyParts)`: the pieces between
      separators, empty ones dropped. */
  function Split(s: string, sep: char): (parts: seq<string>)
    ensures forall i :: 0 <= i < |parts| ==> parts[i] != [] && sep !in parts[i]
    decreases |s|
  {
    var i := IndexOf(s, sep);
    if i == -1 then (if s == [] then [] else [s])
    else (if i == 0 then [] else [s[..i]]) + Split(s[i + 1..], sep)
  }

  /** Pieces joined with the separator between them. */
  function Join(parts: seq<string>, sep: char): string
    decreases |parts|
  {
    if |parts| == 0 then []
    else if |parts| == 1 then parts[0]
    else parts[0] + [sep] + Join(parts[1..], sep)
  }

  /** Joining non-empty pieces free of the separator splits back into
      them. */
  lemma {:induction false} SplitJoin(parts: seq<string>, sep: char)
    requires forall i :: 0 <= i < |parts| ==> parts[i] != [] && sep !in parts[i]
    ensures Split(Join(parts, sep), sep) == parts
    decreases |parts|
  {
    if |parts| == 1 {
      assert IndexOf(parts[0], sep) == -1;
    } else if |parts| > 1 {
      var s := Join(parts, sep);
      var p := parts[0];
      assert s[..|p|] == p;
      assert s[|p|] == sep;
      assert IndexOf(s, sep) == |p| by {
        assert sep !in s[..|p|];
        assert s[..|p| + 1] == p + [sep];
      }
      assert s[|p| + 1..] == Join(parts[1..], sep);
      SplitJoin(parts[1..], sep);
      assert parts == [p] + parts[1..];
    }
  }

  // ---------------------------------------------------------------------
  // Buttons
  // ---------------------------------------------------------------------

  /** One level of the path: the caption shown, the level's title, and
      whether it changes colour under the mouse. */
  datatype Button = Button(caption: string, title: string, hoverable: bool)

  /** `updatelayout`: one button per non-empty piece of the title, its
      title the trimmed piece; every caption but the last carries a space
      and the separator after it; the levels in `noHover` do not light up
      under the mouse. */
  function BuildButtons(title: string, sep: char, noHover: set<int>): (bs: seq<Button>)
    ensures |bs| == |Split(title, sep)|
  {
    var parts := Split(title, sep);
    seq(|parts|, i requires 0 <= i < |parts| =>
      var t := Trim(parts[i]);
      Button(if i == |parts| - 1 then t else t + " " + [sep], t, i !in noHover))
  }

  /** A popup list under one of the levels: its items, where it is, the
      highlighted row, and whether it is showing. */
  datatype Popup = Popup(items: seq<string>, geometry: Rect, currentRow: int, shown: bool)

  /** The widget: its separator, the path it shows, the levels without
      hover colour, the buttons, and the popup once one was opened. */
  datatype Title = Title(separator: char, text: string, noHover: set<int>, buttons: seq<Button>, popup: Option<Popup>)

  /** The buttons are those of the path, separator and hover set. */
  predicate Inv(t: Title) {
    t.buttons == BuildButtons(t.text, t.separator, t.noHover)
  }

  /** A new widget: no path and no popup. */
  const Initial: Title := Title(DefaultSeparator, "", {}, [], None)

  lemma InitialInv()
    ensures Inv(Initial)
  {
  }

  /** `setSeparator`: the path is laid out again with the new separator. */
  function SetSeparator(t: Title, c: char): (r: Title)
    ensures Inv(r) && r.separator == c
    ensures r.text == t.text && r.noHover == t.noHover && r.popup == t.popup
  {
    t.(separator := c, buttons := BuildButtons(t.text, c, t.noHover))
  }

  /** `setText`: nothing happens for the same path and hover set; anything
      else is laid out again. */
  function SetText(t: Title, text: string, noHover: set<int>): (r: Title)
    ensures text == t.text && noHover == t.noHover ==> r == t
    ensures r.text == text && r.noHover == noHover
    ensures r.separator == t.separator && r.popup == t.popup
    ensures Inv(t) ==> Inv(r)
  {
    if t.text == text && t.noHover == noHover then t
    else t.(text := text, noHover := noHover, buttons := BuildButtons(text, t.separator, noHover))
  }

  /** Setting the same path twice is setting it once. */
  lemma SetTextIdempotent(t: Title, text: string, noHover: set<int>)
    ensures SetText(SetText(t, text, noHover), text, noHover) == SetText(t, text, noHover)
  {
  }

  /** `getText`: the title of a level, empty past the last button. The
      layout's last item is the stretch, which is never a level. */
  function GetText(t: Title, level: int): (r: string)
    requires level >= 0
    ensures level >= |t.buttons| ==> r == []
    ensures level < |t.buttons| ==> r == t.buttons[level].title
  {
    if level >= |t.buttons| then [] else t.buttons[level].title
  }

  /** The levels read back: a path joined from non-empty titles without
      the separator or surrounding white space gives back each title at
      its level, and nothing past the last. */
  lemma TitlesReadBack(t: Title, titles: seq<string>, noHover: set<int>, level: int)
    requires Inv(t) && level >= 0
    requires forall i :: 0 <= i < |titles| ==>
      titles[i] != [] && t.separator !in titles[i] && !IsSpace(titles[i][0]) && !IsSpace(titles[i][|titles[i]| - 1])
    ensures var r := SetText(t, Join(titles, t.separator), noHover);
      GetText(r, level) == if level < |titles| then titles[level] else []
  {
    SplitJoin(titles, t.separator);
    if level < |titles| {
      var s := titles[level];
      assert TrimStart(s) == s;
      assert TrimEnd(s) == s;
    }
  }

  /** Every caption but the last ends in a space and the separator; the
      last is the bare title. */
  lemma CaptionsShowTheSeparator(t: Title, level: int)
    requires Inv(t) && 0 <= level < |t.buttons|
    ensures level < |t.buttons| - 1 ==> t.buttons[level].caption == t.buttons[level].title + [' ', t.separator]
    ensures level == |t.buttons| - 1 ==> t.buttons[level].caption == t.buttons[level].title
  {
  }

  /** `btnClicked` on the button of `level`: the level and the titles from
      the first level down to it. */
  function Clicked(t: Title, level: int): (r: (int, seq<string>))
    requires 0 <= level < |t.buttons|
    ensures r.0 == level && |r.1| == level + 1
    ensures forall i :: 0 <= i <= level ==> r.1[i] == GetText(t, i)
  {
    (level, seq(level + 1, i requires 0 <= i <= level => t.buttons[i].title))
  }

  // ---------------------------------------------------------------------
  // Popup
  // ---------------------------------------------------------------------

  /** The widest item's text width, and 0 for none or only empty
      widths. */
  function WidestItem(items: seq<string>, advance: string -> int): (w: int)
    ensures w >= 0
    ensures forall i :: 0 <= i < |items| ==> advance(items[i]) <= w
    ensures w == 0 || exists i :: 0 <= i < |items| && advance(items[i]) == w
    decreases |items|
  {
    if |items| == 0 then 0
    else
      var rest := WidestItem(items[..|items| - 1], advance);
      assert forall i :: 0 <= i < |items| - 1 ==> items[..|items| - 1][i] == items[i];
      Max(rest, advance(items[|items| - 1]))
  }

  /** The popup's size: the widest item with the view's side margins and
      a little extra, and every row with the top and bottom margins, at
      most 300 pixels high. */
  function PopupSize(items: seq<string>, rowHeight: int, margins: (int, int, int, int), advance: string -> int): (sz: Size)
    ensures sz.w == WidestItem(items, advance) + margins.0 + margins.2 + PopupExtraWidth
    ensures sz.h <= MaxPopupHeight
    ensures sz.h == MaxPopupHeight || sz.h == rowHeight * |items| + margins.1 + margins.3
    ensures rowHeight * |items| + margins.1 + margins.3 <= MaxPopupHeight ==> sz.h == rowHeight * |items| + margins.1 + margins.3
  {
    var h := rowHeight * |items| + margins.1 + margins.3;
    Size(WidestItem(items, advance) + margins.0 + margins.2 + PopupExtraWidth, Min(h, MaxPopupHeight))
  }

  /** The popup's place: just below the button, moved up or left only as
      far as needed to keep it off the screen's bottom and right edges. */
  function PopupGeometry(below: Point, sz: Size, screen: Option<Rect>): (r: Rect)
    ensures r.Extent() == sz
    ensures r.left <= below.x && r.top <= below.y
    ensures screen.None? ==> r.TopLeft() == below
    ensures screen.Some? ==> r.top + sz.h <= screen.value.bottom && r.left + sz.w <= screen.value.right
    ensures screen.Some? && below.y + sz.h <= screen.value.bottom ==> r.top == below.y
    ensures screen.Some? && below.x + sz.w <= screen.value.right ==> r.left == below.x
  {
    match screen
    case None => RectXYWH(below.x, below.y, sz.w, sz.h)
    case Some(rt) =>
      var y := if below.y + sz.h > rt.bottom then rt.bottom - sz.h else below.y;
      var x := if below.x + sz.w > rt.right then rt.right - sz.w else below.x;
      RectXYWH(x, y, sz.w, sz.h)
  }

  /** The row highlighted in a new popup: the level's own title, else the
      next level's title, else the first row. */
  function CurrentRow(items: seq<string>, title: string, next: string): (row: int)
    requires items != []
    ensures 0 <= row < |items|
    ensures title in items ==> items[row] == title && title !in items[..row]
    ensures title !in items && next in items ==> items[row] == next && next !in items[..row]
    ensures title !in items && next !in items ==> row == 0
  {
    var i := IndexOf(items, title);
    if i != -1 then i
    else
      var j := IndexOf(items, next);
      if j != -1 then j else 0
  }

  /** `showPopup` under `level`, whose button's bottom-left corner is at
      `anchor` on the screen: nothing for no items or a level past the
      last button; otherwise the popup shows the items below the button
      with the current title highlighted. */
  function ShowPopup(t: Title, level: int, items: seq<string>, anchor: Point, rowHeight: int,
                     margins: (int, int, int, int), advance: string -> int, screen: Option<Rect>): (r: Title)
    requires level >= 0
    ensures items == [] || level >= |t.buttons| ==> r == t
    ensures items != [] && level < |t.buttons| ==>
      && r == t.(popup := r.popup)
      && r.popup.Some? && r.popup.value.shown && r.popup.value.items == items
      && r.popup.value.geometry == PopupGeometry(Point(anchor.x, anchor.y + PopupGap), PopupSize(items, rowHeight, margins, advance), screen)
      && r.popup.value.currentRow == CurrentRow(items, GetText(t, level), GetText(t, level + 1))
  {
    if items == [] || level >= |t.buttons| then t
    else
      var sz := PopupSize(items, rowHeight, margins, advance);
      var geometry := PopupGeometry(Point(anchor.x, anchor.y + PopupGap), sz, screen);
      var row := CurrentRow(items, t.buttons[level].title, GetText(t, level + 1));
      t.(popup := Some(Popup(items, geometry, row, true)))
  }

  /** A shown popup is at most 300 pixels high, highlights a real row, and
      highlights the level's own title whenever it is one of the items. */
  lemma ShownPopupHighlightsTitle(t: Title, level: int, items: seq<string>, anchor: Point, rowHeight: int,
                                  margins: (int, int, int, int), advance: string -> int, screen: Option<Rect>)
    requires level >= 0 && items != [] && level < |t.buttons|
    ensures var p := ShowPopup(t, level, items, anchor, rowHeight, margins, advance, screen).popup.value;
      && p.geometry.Height() <= MaxPopupHeight
      && 0 <= p.currentRow < |items|
      && (t.buttons[level].title in items ==> items[p.currentRow] == t.buttons[level].title)
  {
  }

  /** `hidePopup`: the popup, if any, stops showing. */
  function HidePopup(t: Title): (r: Title)
    ensures r.popup.Some? <==> t.popup.Some?
    ensures r.popup.Some? ==> r.popup.value == t.popup.value.(shown := false)
    ensures r == t.(popup := r.popup)
  {
    match t.popup
    case None => t
    case Some(p) => t.(popup := Some(p.(shown := false)))
  }

  /** `popupItemSelected`: a click on a row hides the popup and reports the
      row's text. */
  function PopupItemSelected(t: Title, row: int): (r: (Title, string))
    requires t.popup.Some? && 0 <= row < |t.popup.value.items|
    ensures r.0 == HidePopup(t) && !r.0.popup.value.shown
    ensures r.1 == t.popup.value.items[row]
  {
    (HidePopup(t), t.popup.value.items[row])
  }
}
