/** The single-selection button column of vertical_navigator.cpp: adding
    buttons and the stretch, the current button and its two setters,
    hiding a button, the per-id updates, the layout of the buttons above
    the stretch and the preferred height. Icons, painting and the
    highlight animation are not modelled.
 */
module VerticalNavigator {

  /** `NavigatorButton`; the icons are left out. */
  datatype Button = Button(
    id: int, text: string, number: int,
    isStretch: bool, selected: bool, hasFocus: bool, visible: bool)

  /** What `addButton` and `addStretch` keep true: only the stretch has
      id 0, ids are unique (so there is at most one stretch), the stretch
      never takes focus, and at most one button is selected, a visible
      one that is not the stretch. */
  predicate Inv(bs: seq<Button>) {
    (forall i :: 0 <= i < |bs| ==> (bs[i].isStretch <==> bs[i].id == 0))
    && (forall i, j :: 0 <= i < j < |bs| ==> bs[i].id != bs[j].id)
    && (forall i :: 0 <= i < |bs| && bs[i].isStretch ==> !bs[i].hasFocus)
    && (forall i :: 0 <= i < |bs| && bs[i].selected ==> !bs[i].isStretch && bs[i].visible)
    && (forall i, j :: 0 <= i < |bs| && 0 <= j < |bs| && i != j && bs[i].selected ==> !bs[j].selected)
  }

  /** The position of the first button with `id`, or -1. */
  function IndexOfId(bs: seq<Button>, id: int): (k: int)
    ensures -1 <= k < |bs|
    ensures k >= 0 ==> bs[k].id == id && forall j :: 0 <= j < k ==> bs[j].id != id
    ensures k == -1 <==> forall j :: 0 <= j < |bs| ==> bs[j].id != id
  {
    if bs == [] then -1
    else if bs[0].id == id then 0
    else
      var k := IndexOfId(bs[1..], id);
      if k == -1 then -1 else k + 1
  }

  /** `addButton`: the caller guarantees a nonzero id not in use; the
      button is appended, selected only when it is the first, and its
      position is returned. */
  function AddButton(bs: seq<Button>, id: int, text: string, hasFocus: bool): (r: (int, seq<Button>))
    requires id != 0 && forall i :: 0 <= i < |bs| ==> bs[i].id != id
    ensures r.0 == |bs| && |r.1| == |bs| + 1 && r.1[..|bs|] == bs
    ensures r.1[|bs|] == Button(id, text, 0, false, bs == [], hasFocus, true)
    ensures Inv(bs) ==> Inv(r.1)
  {
    (|bs|, bs + [Button(id, text, 0, false, bs == [], hasFocus, true)])
  }

  /** `addStretch`: the caller guarantees there is no stretch yet; the
      stretch has id 0 and never takes focus. */
  function AddStretch(bs: seq<Button>): (r: (int, seq<Button>))
    requires forall i :: 0 <= i < |bs| ==> !bs[i].isStretch
    ensures r.0 == |bs| && r.1 == bs + [Button(0, "", 0, true, false, false, true)]
    ensures Inv(bs) ==> Inv(r.1)
  {
    (|bs|, bs + [Button(0, "", 0, true, false, false, true)])
  }

  /** `currentButton`: the id of the first selected button, 0 when none
      is. */
  function CurrentButton(bs: seq<Button>): (id: int)
    ensures (forall i :: 0 <= i < |bs| ==> !bs[i].selected) ==> id == 0
    ensures forall i :: 0 <= i < |bs| && bs[i].selected && (forall j :: 0 <= j < i ==> !bs[j].selected) ==>
      id == bs[i].id
  {
    if bs == [] then 0
    else if bs[0].selected then bs[0].id
    else CurrentButton(bs[1..])
  }

  /** The private `setCurrentButton`: exactly the buttons with `id` are
      selected. */
  function SelectOnly(bs: seq<Button>, id: int): (r: seq<Button>)
    ensures |r| == |bs|
    ensures forall i :: 0 <= i < |bs| ==> r[i] == bs[i].(selected := bs[i].id == id)
  {
    seq(|bs|, i requires 0 <= i < |bs| => bs[i].(selected := bs[i].id == id))
  }

  /** Whether the public setter may select button `b`. */
  predicate Selectable(b: Button) {
    b.hasFocus && b.visible && !b.isStretch && !b.selected
  }

  /** The public `setCurrentButton`: the first button with `id` decides;
      nothing happens for an unknown id or a button that cannot take
      focus, is hidden, is the stretch or is already selected. */
  function SetCurrentButton(bs: seq<Button>, id: int): (r: seq<Button>)
    ensures var k := IndexOfId(bs, id);
      (k == -1 || !Selectable(bs[k])) ==> r == bs
    ensures var k := IndexOfId(bs, id);
      k >= 0 && Selectable(bs[k]) ==> r == SelectOnly(bs, id)
  {
    var k := IndexOfId(bs, id);
    if k == -1 || !Selectable(bs[k]) then bs else SelectOnly(bs, id)
  }

  /** Selecting a selectable button makes it the current one, and nothing
      but the selection changes. */
  lemma {:induction false} SetCurrentButtonSelects(bs: seq<Button>, id: int)
    requires Inv(bs)
    requires var k := IndexOfId(bs, id); k >= 0 && Selectable(bs[k])
    ensures var r := SetCurrentButton(bs, id);
      Inv(r) && CurrentButton(r) == id
      && forall i :: 0 <= i < |bs| ==> r[i].(selected := bs[i].selected) == bs[i]
  {
    var k := IndexOfId(bs, id);
    var r := SetCurrentButton(bs, id);
    assert r[k].selected;
    forall j | 0 <= j < |r| && j != k ensures !r[j].selected {
      assert bs[j].id != id;
    }
  }

  /** The first button, other than those with `id`, that is visible,
      takes focus and is not the stretch; -1 when there is none. */
  function FirstCandidate(bs: seq<Button>, id: int): (k: int)
    ensures -1 <= k < |bs|
    ensures k >= 0 ==> bs[k].id != id && bs[k].visible && bs[k].hasFocus && !bs[k].isStretch
    ensures k >= 0 ==> forall j :: 0 <= j < k ==> !(bs[j].id != id && bs[j].visible && bs[j].hasFocus && !bs[j].isStretch)
    ensures k == -1 ==> forall j :: 0 <= j < |bs| ==> !(bs[j].id != id && bs[j].visible && bs[j].hasFocus && !bs[j].isStretch)
  {
    if bs == [] then -1
    else if bs[0].id != id && bs[0].visible && bs[0].hasFocus && !bs[0].isStretch then 0
    else
      var k := FirstCandidate(bs[1..], id);
      if k == -1 then -1 else k + 1
  }

  /** The loop of `hideButton` from position `i`: the first button with
      `id` that is hidden or the stretch stops it; a visible one is hidden
      and, when it was selected, the selection moves to the first
      candidate, which also ends the loop. */
  function HideFrom(bs: seq<Button>, id: int, i: nat): (r: seq<Button>)
    requires i <= |bs|
    ensures |r| == |bs|
    decreases |bs| - i
  {
    if i == |bs| then bs
    else if bs[i].id != id then HideFrom(bs, id, i + 1)
    else if !bs[i].visible || bs[i].isStretch then bs
    else
      var bs1 := bs[i := bs[i].(visible := false, selected := false)];
      if bs[i].selected then
        var k := FirstCandidate(bs1, id);
        if k >= 0 then SetCurrentButton(bs1, bs1[k].id) else HideFrom(bs1, id, i + 1)
      else HideFrom(bs1, id, i + 1)
  }

  /** Past the only button with `id`, the loop changes nothing. */
  lemma {:induction false} HideFromPastId(bs: seq<Button>, id: int, i: nat)
    requires i <= |bs|
    requires forall j :: i <= j < |bs| ==> bs[j].id != id
    ensures HideFrom(bs, id, i) == bs
    decreases |bs| - i
  {
    if i < |bs| {
      HideFromPastId(bs, id, i + 1);
    }
  }

  /** `hideButton`. */
  function HideButton(bs: seq<Button>, id: int): (r: seq<Button>)
    ensures |r| == |bs|
  {
    HideFrom(bs, id, 0)
  }

  /** Hiding a button: nothing happens for an unknown id, a hidden button
      or the stretch; otherwise the button is hidden and unselected, and
      when it was the current one the selection moves to the first
      visible, focusable button that is not the stretch, or nothing stays
      selected when there is none. The invariant is kept. */
  lemma {:induction false} HideButtonMovesSelection(bs: seq<Button>, id: int)
    requires Inv(bs)
    ensures var k := IndexOfId(bs, id);
      (k == -1 || !bs[k].visible || bs[k].isStretch) ==> HideButton(bs, id) == bs
    ensures var k := IndexOfId(bs, id);
      k >= 0 && bs[k].visible && !bs[k].isStretch ==>
        var r := HideButton(bs, id);
        var bs1 := bs[k := bs[k].(visible := false, selected := false)];
        Inv(r) && !r[k].visible && !r[k].selected
        && (!bs[k].selected ==> r == bs1)
        && (bs[k].selected && FirstCandidate(bs1, id) >= 0 ==>
              CurrentButton(r) == bs1[FirstCandidate(bs1, id)].id)
        && (bs[k].selected && FirstCandidate(bs1, id) == -1 ==> CurrentButton(r) == 0)
  {
    var k := IndexOfId(bs, id);
    if k == -1 {
      HideFromPastId(bs, id, 0);
    } else {
      assert HideButton(bs, id) == HideFrom(bs, id, k) by {
        SkipToId(bs, id, 0, k);
      }
      if bs[k].visible && !bs[k].isStretch {
        HideAt(bs, id, k);
      }
    }
  }

  /** The loop reaching the button with `id` at `k`, visible and not the
      stretch. */
  lemma {:induction false} HideAt(bs: seq<Button>, id: int, k: int)
    requires Inv(bs) && 0 <= k < |bs| && IndexOfId(bs, id) == k && bs[k].visible && !bs[k].isStretch
    ensures var r := HideFrom(bs, id, k);
      var bs1 := bs[k := bs[k].(visible := false, selected := false)];
      Inv(r) && !r[k].visible && !r[k].selected
      && (!bs[k].selected ==> r == bs1)
      && (bs[k].selected && FirstCandidate(bs1, id) >= 0 ==>
            CurrentButton(r) == bs1[FirstCandidate(bs1, id)].id)
      && (bs[k].selected && FirstCandidate(bs1, id) == -1 ==> CurrentButton(r) == 0)
  {
    var bs1 := bs[k := bs[k].(visible := false, selected := false)];
    HideFromPastId(bs1, id, k + 1);
    assert Inv(bs1);
    if bs[k].selected {
      forall j | 0 <= j < |bs1| ensures !bs1[j].selected {
        assert j != k ==> !bs[j].selected;
      }
      SelectCandidate(bs1, id);
    }
  }

  /** With nothing selected, moving the selection to the first candidate
      makes it current, and without a candidate nothing is current. */
  lemma {:induction false} SelectCandidate(bs: seq<Button>, id: int)
    requires Inv(bs) && forall j :: 0 <= j < |bs| ==> !bs[j].selected
    ensures var c := FirstCandidate(bs, id);
      && (c >= 0 ==> Inv(SetCurrentButton(bs, bs[c].id)) && CurrentButton(SetCurrentButton(bs, bs[c].id)) == bs[c].id)
      && (c == -1 ==> CurrentButton(bs) == 0)
  {
    var c := FirstCandidate(bs, id);
    if c >= 0 {
      assert IndexOfId(bs, bs[c].id) == c;
      SetCurrentButtonSelects(bs, bs[c].id);
    } else {
      NoneSelected(bs);
    }
  }

  /** The loop passes over buttons with other ids. */
  lemma {:induction false} SkipToId(bs: seq<Button>, id: int, i: nat, k: nat)
    requires i <= k < |bs|
    requires forall j :: i <= j < k ==> bs[j].id != id
    ensures HideFrom(bs, id, i) == HideFrom(bs, id, k)
    decreases k - i
  {
    if i < k {
      SkipToId(bs, id, i + 1, k);
    }
  }

  /** With nothing selected the current button is 0. */
  lemma {:induction false} NoneSelected(bs: seq<Button>)
    requires forall j :: 0 <= j < |bs| ==> !bs[j].selected
    ensures CurrentButton(bs) == 0
  {
  }

  /** `updateButtonNumber` and `updateButtonText`: only the first button
      with the id changes. */
  function UpdateButton(bs: seq<Button>, id: int, number: int, text: string, setNumber: bool): (r: seq<Button>)
    ensures |r| == |bs|
    ensures var k := IndexOfId(bs, id);
      (k == -1 ==> r == bs)
      && (k >= 0 ==> r == bs[k := if setNumber then bs[k].(number := number) else bs[k].(text := text)])
  {
    var k := IndexOfId(bs, id);
    if k == -1 then bs
    else bs[k := if setNumber then bs[k].(number := number) else bs[k].(text := text)]
  }

  /** A button's rectangle from `getRect`: empty, a slot above the stretch
      at `top`, a slot below it, or the stretch's divider line. Below the
      stretch positions are computed in floating point and are not
      modelled. */
  datatype Slot = EmptyRect | TopSlot(top: int) | BottomSlot | StretchLine

  /** The height of a slot as the integer `preferredHeight` reads it: the
      divider's 0.1 truncates to 0. */
  function SlotHeight(s: Slot, h: int): int {
    if s.TopSlot? || s.BottomSlot? then h else 0
  }

  /** The scan below the stretch, from the last button back to it. */
  function BottomScan(bs: seq<Button>, id: int, i: int): Slot
    requires -1 <= i < |bs|
    decreases i + 1
  {
    if i < 0 then EmptyRect
    else if bs[i].isStretch then (if id == 0 then StretchLine else EmptyRect)
    else if bs[i].id == id then (if bs[i].visible then BottomSlot else EmptyRect)
    else BottomScan(bs, id, i - 1)
  }

  /** The scan above the stretch: each visible button moves the next one
      down by `h + padding`. */
  function TopScan(bs: seq<Button>, id: int, i: nat, top: int, h: int, padding: int): Slot
    requires i <= |bs|
    decreases |bs| - i
  {
    if i == |bs| then EmptyRect
    else if bs[i].isStretch then BottomScan(bs, id, |bs| - 1)
    else if bs[i].id == id then (if bs[i].visible then TopSlot(top) else EmptyRect)
    else TopScan(bs, id, i + 1, if bs[i].visible then top + h + padding else top, h, padding)
  }

  /** `getRect(pageId)` for buttons `h` high (icon height plus the
      vertical margins) separated by `padding`. */
  function GetRect(bs: seq<Button>, id: int, h: int, padding: int): Slot {
    TopScan(bs, id, 0, 0, h, padding)
  }

  /** The number of visible buttons. */
  function VisibleCount(bs: seq<Button>): nat {
    if bs == [] then 0 else VisibleCount(bs[..|bs| - 1]) + (if bs[|bs| - 1].visible then 1 else 0)
  }

  /** The scan from `i`, after the visible buttons before `i` have moved
      the slot down, reaches button `k` above the stretch. */
  lemma {:induction false} TopScanReaches(bs: seq<Button>, id: int, i: nat, k: nat, h: int, padding: int)
    requires i <= k < |bs|
    requires forall j :: i <= j <= k ==> !bs[j].isStretch
    requires bs[k].id == id && forall j :: i <= j < k ==> bs[j].id != id
    ensures TopScan(bs, id, i, (h + padding) * VisibleCount(bs[..i]), h, padding)
         == (if bs[k].visible then TopSlot((h + padding) * VisibleCount(bs[..k])) else EmptyRect)
    decreases k - i
  {
    if i < k {
      assert bs[..i + 1][..i] == bs[..i];
      TopScanReaches(bs, id, i + 1, k, h, padding);
    }
  }

  /** Above the stretch, a visible button's slot starts below the visible
      buttons before it, each `h + padding` apart; a hidden one gets an
      empty rectangle. */
  lemma GetRectStacksVisible(bs: seq<Button>, k: nat, h: int, padding: int)
    requires k < |bs| && forall j :: 0 <= j <= k ==> !bs[j].isStretch
    requires forall j :: 0 <= j < k ==> bs[j].id != bs[k].id
    ensures GetRect(bs, bs[k].id, h, padding)
         == (if bs[k].visible then TopSlot((h + padding) * VisibleCount(bs[..k])) else EmptyRect)
  {
    assert bs[..0] == [];
    TopScanReaches(bs, bs[k].id, 0, k, h, padding);
  }

  /** The position of the first button that is not the stretch, or -1. */
  function FirstButton(bs: seq<Button>): (k: int)
    ensures -1 <= k < |bs|
    ensures k >= 0 ==> !bs[k].isStretch && forall j :: 0 <= j < k ==> bs[j].isStretch
    ensures k == -1 ==> forall j :: 0 <= j < |bs| ==> bs[j].isStretch
  {
    if bs == [] then -1
    else if !bs[0].isStretch then 0
    else
      var k := FirstButton(bs[1..]);
      if k == -1 then -1 else k + 1
  }

  /** `preferredHeight`: the height of the first button's slot times the
      number of buttons, stretch and hidden ones included, plus a padding
      between each; 0 with no buttons. */
  function PreferredHeight(bs: seq<Button>, h: int, padding: int): int {
    if bs == [] then 0
    else
      var k := FirstButton(bs);
      var bh := if k >= 0 then SlotHeight(GetRect(bs, bs[k].id, h, padding), h) else 0;
      bh * |bs| + padding * (|bs| - 1)
  }

  /** A button found below the stretch gets a slot of its own. */
  lemma {:induction false} BottomScanFinds(bs: seq<Button>, id: int, i: int, k: nat)
    requires k <= i < |bs| && bs[k].id == id && id != 0
    requires forall j :: k < j <= i ==> bs[j].id != id && !bs[j].isStretch
    requires !bs[k].isStretch
    ensures BottomScan(bs, id, i) == (if bs[k].visible then BottomSlot else EmptyRect)
    decreases i
  {
    if i > k {
      BottomScanFinds(bs, id, i - 1, k);
    }
  }

  /** The scan above the stretch hands over to the scan below it. */
  lemma {:induction false} TopScanToStretch(bs: seq<Button>, id: int, i: nat, s: nat, top: int, h: int, padding: int)
    requires i <= s < |bs| && bs[s].isStretch
    requires forall j :: i <= j < s ==> bs[j].id != id && !bs[j].isStretch
    ensures TopScan(bs, id, i, top, h, padding) == BottomScan(bs, id, |bs| - 1)
    decreases s - i
  {
    if i < s {
      TopScanToStretch(bs, id, i + 1, s, if bs[i].visible then top + h + padding else top, h, padding);
    }
  }

  /** With the invariant and a visible first button, the preferred height
      is `h` per button plus the paddings between them. */
  lemma {:induction false} PreferredHeightOfVisible(bs: seq<Button>, h: int, padding: int)
    requires Inv(bs) && bs != []
    requires FirstButton(bs) >= 0 && bs[FirstButton(bs)].visible
    ensures PreferredHeight(bs, h, padding) == h * |bs| + padding * (|bs| - 1)
  {
    var k := FirstButton(bs);
    if k == 0 {
      GetRectStacksVisible(bs, 0, h, padding);
    } else {
      // the stretch comes first, so the button is found scanning back
      assert bs[0].isStretch;
      TopScanToStretch(bs, bs[k].id, 0, 0, 0, h, padding);
      var last := |bs| - 1;
      BottomScanFinds(bs, bs[k].id, last, k);
    }
  }

  /** The first button's height stands for all of them, so when that
      button is hidden its empty rectangle leaves only the paddings. */
  lemma PreferredHeightWithHiddenFirst(h: int, padding: int)
    ensures var bs := [Button(1, "a", 0, false, false, true, false), Button(2, "b", 0, false, true, true, true)];
      Inv(bs) && PreferredHeight(bs, h, padding) == padding
  {
    var bs := [Button(1, "a", 0, false, false, true, false), Button(2, "b", 0, false, true, true, true)];
    GetRectStacksVisible(bs, 0, h, padding);
  }
}
