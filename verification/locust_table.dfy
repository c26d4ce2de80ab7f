/** The bookkeeping of the virtualised table (locust_table_widget.cpp):
    the visual order of the rows with their cumulative heights, the
    position search over them, the two selection sets, the removal of a
    row with the renumbering of the visual list, and the keyboard and
    mouse selection rules.

    A row is identified by its logical index. The item widgets of
    `listLogics` contribute their heights; the model contributes each
    row's user content (the `SrcIndexRole` value), which the second
    selection set is keyed by.
 */
module LocustTable {
  import opened Common
  import opened LocustSort

  // ---------------------------------------------------------------------
  // Row positions (`_resetPos`, locust_table_widget.cpp:2658-2687)
  // ---------------------------------------------------------------------

  /** What `_resetPos` computes: one cumulative height (`sumHeight`) and one
      top per visual row, the fetch-more item's top, and the content
      height. */
  datatype Positions = Positions(sums: seq<int>, tops: seq<int>, moreTop: int, content: int)

  /** `Σ_{k<n} (hs[k] - 1)`: adjacent rows share their one-pixel border. */
  function Prefix(hs: seq<int>, n: nat): int
    requires n <= |hs|
  {
    if n == 0 then 0 else Prefix(hs, n - 1) + hs[n - 1] - 1
  }

  /** The positions of rows with heights `hs`, entry by entry: row `i`
      ends at the sum of the first `i + 1` heights and starts one pixel
      above the end of the rows before it. */
  function PositionsOf(hs: seq<int>, more: Option<int>): Positions {
    Positions(
      seq(|hs|, i requires 0 <= i < |hs| => Prefix(hs, i + 1)),
      seq(|hs|, i requires 0 <= i < |hs| => Prefix(hs, i) - 1),
      Prefix(hs, |hs|) - 1,
      Prefix(hs, |hs|) + more.GetOr(0))
  }

  /** `_resetPos`: one pass over the visual rows accumulating their
      heights; `more` is the fetch-more item's height when there is one. */
  method ResetPos(hs: seq<int>, more: Option<int>) returns (p: Positions)
    ensures |p.sums| == |hs| && |p.tops| == |hs|
    ensures forall i :: 0 <= i < |hs| ==> p.sums[i] == p.tops[i] + hs[i]
    ensures |hs| > 0 ==> p.tops[0] == -1
    ensures forall i :: 0 < i < |hs| ==> p.tops[i] == p.sums[i - 1] - 1
    ensures p.content == (if |hs| > 0 then p.sums[|hs| - 1] else 0) + more.GetOr(0)
    ensures p == PositionsOf(hs, more)
  {
    var sums, tops, pos := Accumulate(hs);
    var content := 0;
    if |sums| > 0 {
      content := sums[|sums| - 1];
    }
    if more.Some? {
      content := content + more.value;
    }
    p := Positions(sums, tops, pos, content);
    assert p == PositionsOf(hs, more) by {
      assert sums == PositionsOf(hs, more).sums;
      assert tops == PositionsOf(hs, more).tops;
    }
    PositionsShape(hs, more);
  }

  /** The loop of `_resetPos`: the running sum of the heights less one
      each, and the running position one pixel above it. */
  method Accumulate(hs: seq<int>) returns (sums: seq<int>, tops: seq<int>, pos: int)
    ensures |sums| == |hs| && |tops| == |hs|
    ensures forall j :: 0 <= j < |hs| ==> sums[j] == Prefix(hs, j + 1)
    ensures forall j :: 0 <= j < |hs| ==> tops[j] == Prefix(hs, j) - 1
    ensures pos == Prefix(hs, |hs|) - 1
  {
    pos := -1;
    var sum := 0;
    sums := [];
    tops := [];
    var i := 0;
    while i < |hs|
      invariant 0 <= i <= |hs|
      invariant |sums| == i && |tops| == i
      invariant sum == Prefix(hs, i) && pos == sum - 1
      invariant forall j :: 0 <= j < i ==> sums[j] == Prefix(hs, j + 1)
      invariant forall j :: 0 <= j < i ==> tops[j] == Prefix(hs, j) - 1
    {
      tops := tops + [pos];
      var h := hs[i] - 1;
      sum := sum + h;
      sums := sums + [sum];
      pos := pos + h;
      i := i + 1;
    }
  }

  /** Each row spans its own height from its top, and the next row starts
      one pixel above where the previous one ends. */
  lemma PositionsShape(hs: seq<int>, more: Option<int>)
    ensures var p := PositionsOf(hs, more);
      && (forall i :: 0 <= i < |hs| ==> p.sums[i] == p.tops[i] + hs[i])
      && (|hs| > 0 ==> p.tops[0] == -1)
      && (forall i :: 0 < i < |hs| ==> p.tops[i] == p.sums[i - 1] - 1)
      && p.content == (if |hs| > 0 then p.sums[|hs| - 1] else 0) + more.GetOr(0)
  {
    var p := PositionsOf(hs, more);
    forall i | 0 <= i < |hs| ensures p.sums[i] == p.tops[i] + hs[i] {
      assert p.sums[i] == Prefix(hs, i + 1) && p.tops[i] == Prefix(hs, i) - 1;
    }
    forall i | 0 < i < |hs| ensures p.tops[i] == p.sums[i - 1] - 1 {
      assert p.tops[i] == Prefix(hs, i) - 1 && p.sums[i - 1] == Prefix(hs, i);
    }
    if |hs| > 0 {
      assert p.sums[|hs| - 1] == Prefix(hs, |hs|);
    }
  }

  predicate NonDecreasing(s: seq<int>) {
    forall i, j :: 0 <= i <= j < |s| ==> s[i] <= s[j]
  }

  lemma {:induction false} PrefixMonotone(hs: seq<int>, i: nat, j: nat)
    requires i <= j <= |hs|
    requires forall k :: 0 <= k < |hs| ==> hs[k] >= 1
    ensures Prefix(hs, i) <= Prefix(hs, j)
    decreases j - i
  {
    if i < j {
      PrefixMonotone(hs, i, j - 1);
    }
  }

  /** Rows are at least one pixel high, so the cumulative heights never
      decrease, which the position search relies on. */
  lemma SumsNonDecreasing(hs: seq<int>, more: Option<int>)
    requires forall k :: 0 <= k < |hs| ==> hs[k] >= 1
    ensures NonDecreasing(PositionsOf(hs, more).sums)
  {
    var s := PositionsOf(hs, more).sums;
    forall i, j | 0 <= i <= j < |s| ensures s[i] <= s[j] {
      PrefixMonotone(hs, i + 1, j + 1);
    }
  }

  // ---------------------------------------------------------------------
  // Position search (`_findVisualIndexByPos`, locust_table_widget.cpp:2788-2810)
  // ---------------------------------------------------------------------

  /** The first index from `from` on whose cumulative height reaches
      `pos`, or `|sums|` when there is none. */
  function FirstReaching(sums: seq<int>, pos: int, from: nat): (i: int)
    requires from <= |sums|
    ensures from <= i <= |sums|
    ensures i < |sums| ==> sums[i] >= pos
    ensures forall j :: from <= j < i ==> sums[j] < pos
    decreases |sums| - from
  {
    if from == |sums| then |sums|
    else if sums[from] >= pos then from
    else FirstReaching(sums, pos, from + 1)
  }

  /** The visual row at content position `pos`: -1 above the content (0
      when the nearest row is wanted), the first row reaching `pos`, and
      past the end `|sums|` (the last row when the nearest is wanted). */
  function VisualIndexAt(sums: seq<int>, pos: int, nearest: bool): int {
    if pos < 0 then (if nearest then 0 else -1)
    else
      var i := FirstReaching(sums, pos, 0);
      if i == |sums| && nearest then |sums| - 1 else i
  }

  lemma {:induction false} FirstReachingAt(sums: seq<int>, pos: int, from: nat, l: nat)
    requires from <= l <= |sums|
    requires forall j :: from <= j < l ==> sums[j] < pos
    requires l < |sums| ==> sums[l] >= pos
    ensures FirstReaching(sums, pos, from) == l
    decreases l - from
  {
    if from < l {
      FirstReachingAt(sums, pos, from + 1, l);
    }
  }

  /** The binary search of `_findVisualIndexByPos`. Its answer is always
      in [-1, |sums|]; over non-decreasing sums it is the lower bound. */
  method FindVisualIndexByPos(sums: seq<int>, pos: int, nearest: bool) returns (ret: int)
    ensures -1 <= ret <= |sums|
    ensures pos < 0 ==> ret == (if nearest then 0 else -1)
    ensures NonDecreasing(sums) ==> ret == VisualIndexAt(sums, pos, nearest)
  {
    if pos < 0 {
      if nearest {
        return 0;
      }
      return -1;
    }
    var l := 0;
    var r := |sums| - 1;
    var init := if nearest then r else r + 1;
    ret := init;
    while l <= r
      invariant 0 <= l <= r + 1 <= |sums|
      invariant ret == if r + 1 < |sums| then r + 1 else init
      invariant NonDecreasing(sums) ==> forall j :: 0 <= j < l ==> sums[j] < pos
      invariant NonDecreasing(sums) ==> forall j :: r < j < |sums| ==> sums[j] >= pos
      decreases r - l
    {
      var mid := (l + r) / 2;
      if sums[mid] >= pos {
        ret := Min(mid, ret);
        r := mid - 1;
      } else {
        l := mid + 1;
      }
    }
    if NonDecreasing(sums) {
      FirstReachingAt(sums, pos, 0, l);
    }
  }

  // ---------------------------------------------------------------------
  // Table state
  // ---------------------------------------------------------------------

  /** The heights of the visual rows, in visual order. */
  function Heights(hs: seq<int>, vs: seq<int>): (r: seq<int>)
    requires forall i :: 0 <= i < |vs| ==> 0 <= vs[i] < |hs|
    ensures |r| == |vs|
  {
    seq(|vs|, i requires 0 <= i < |vs| => hs[vs[i]])
  }

  /** Entries are logical indices below `n`, none repeated. */
  predicate DistinctBelow(vs: seq<int>, n: int) {
    (forall i :: 0 <= i < |vs| ==> 0 <= vs[i] < n)
    && (forall i, j :: 0 <= i < j < |vs| ==> vs[i] != vs[j])
  }

  /** The state of `LocustTableWidget` this model follows:
      `heights` for the items of `listLogics`, `model` for each model row's
      user content, `visuals` for `listVisuals` and `pos` for what
      `_resetPos` derived from it, the two selection sets with the
      validity flag, and `cur` for `curSelectedItemVisualIndex`. */
  datatype Table = Table(
    heights: seq<int>,
    hasModel: bool,
    model: seq<nat>,
    moreHeight: Option<int>,
    visuals: seq<int>,
    pos: Positions,
    logics: set<int>,
    logicsValid: bool,
    contents: set<nat>,
    cur: int)
  {
    /** `listVisuals` holds distinct valid logical indices and may be
        shorter than `listLogics` (locust_table_widget.h:445-448); the
        positions are those of the visual rows; a valid logical selection
        names existing rows. */
    predicate Inv() {
      |model| == |heights| && DistinctBelow(visuals, |heights|) && cur >= -1
      && (logicsValid ==> forall x :: x in logics ==> 0 <= x < |heights|)
      && pos == PositionsOf(Heights(heights, visuals), moreHeight)
    }
  }

  /** `mainModel->index(k, 0).data(SrcIndexRole)`: an index outside the
      model reads as 0. */
  function ContentOf(t: Table, k: int): nat {
    if t.hasModel && 0 <= k < |t.model| then t.model[k] else 0
  }

  // ---------------------------------------------------------------------
  // Selection (locust_table_widget.cpp:1996-2030, 2082-2098)
  // ---------------------------------------------------------------------

  /** `isItemSelected`: the logical set while it is valid, otherwise the
      user-content set. */
  predicate IsItemSelected(t: Table, k: int) {
    if t.logicsValid then k in t.logics else ContentOf(t, k) in t.contents
  }

  /** `selectItem`: out of range or without a model nothing happens;
      otherwise `k` goes into or out of the logical set (only while it is
      valid) and its content into or out of the content set, and the
      result says whether either set changed. */
  function SelectItem(t: Table, k: int, select: bool): (r: (bool, Table))
    ensures !(0 <= k < |t.heights| && t.hasModel) ==> r == (false, t)
    ensures 0 <= k < |t.heights| && t.hasModel ==> IsItemSelected(r.1, k) == select
    ensures r.0 <==> r.1.logics != t.logics || r.1.contents != t.contents
    ensures r.1 == t.(logics := r.1.logics, contents := r.1.contents)
    ensures !t.logicsValid ==> r.1.logics == t.logics
    ensures r.1.logics - {k} == t.logics - {k}
    ensures r.1.contents - {ContentOf(t, k)} == t.contents - {ContentOf(t, k)}
    ensures t.Inv() ==> r.1.Inv()
  {
    if k < 0 || k >= |t.heights| || !t.hasModel then (false, t)
    else
      var c := ContentOf(t, k);
      var logics :=
        if !t.logicsValid then t.logics
        else if select then t.logics + {k}
        else t.logics - {k};
      var contents := if select then t.contents + {c} else t.contents - {c};
      var changed := (t.logicsValid && select != (k in t.logics)) || select != (c in t.contents);
      (changed, t.(logics := logics, contents := contents))
  }

  /** `clearSelects`: nothing is selected afterwards and the logical set
      is valid again; nothing else changes. */
  function ClearSelects(t: Table): (r: Table)
    ensures r.logicsValid
    ensures forall k :: !IsItemSelected(r, k)
    ensures r.(logics := t.logics, contents := t.contents, logicsValid := t.logicsValid) == t
    ensures t.Inv() ==> r.Inv()
  {
    t.(logics := {}, contents := {}, logicsValid := true)
  }

  /** `selectItem` applied to each of `ks` in turn, as the range, drag
      and select-all loops do. */
  function SelectEach(t: Table, ks: seq<int>): (r: Table)
    ensures r == t.(logics := r.logics, contents := r.contents)
    ensures t.hasModel && (forall i :: 0 <= i < |ks| ==> 0 <= ks[i] < |t.heights|) ==>
      r.logics == (if t.logicsValid then t.logics + (set x | x in ks) else t.logics)
      && r.contents == t.contents + (set x | x in ks :: ContentOf(t, x))
    ensures t.Inv() && (forall i :: 0 <= i < |ks| ==> 0 <= ks[i] < |t.heights|) ==> r.Inv()
    decreases |ks|
  {
    if ks == [] then t
    else
      var t1 := SelectItem(t, ks[0], true).1;
      var r := SelectEach(t1, ks[1..]);
      if t.hasModel && (forall i :: 0 <= i < |ks| ==> 0 <= ks[i] < |t.heights|) then
        SelectEachStep(t, ks, t1, r);
        r
      else r
  }

  /** One step of `SelectEach`: selecting the head and then the rest
      selects all of `ks`. */
  lemma SelectEachStep(t: Table, ks: seq<int>, t1: Table, r: Table)
    requires ks != [] && t.hasModel && (forall i :: 0 <= i < |ks| ==> 0 <= ks[i] < |t.heights|)
    requires t1 == SelectItem(t, ks[0], true).1
    requires r.logics == (if t1.logicsValid then t1.logics + (set x | x in ks[1..]) else t1.logics)
    requires r.contents == t1.contents + (set x | x in ks[1..] :: ContentOf(t1, x))
    ensures r.logics == (if t.logicsValid then t.logics + (set x | x in ks) else t.logics)
    ensures r.contents == t.contents + (set x | x in ks :: ContentOf(t, x))
  {
    assert forall x :: x in ks <==> x == ks[0] || x in ks[1..] by {
      assert ks == [ks[0]] + ks[1..];
    }
    assert forall x :: ContentOf(t1, x) == ContentOf(t, x);
  }

  // ---------------------------------------------------------------------
  // Keyboard (locust_table_widget.cpp:2411-2454)
  // ---------------------------------------------------------------------

  /** Up and W, Down and S, the select-all sequence, the copy sequence,
      anything else. */
  datatype Key = KeyUp | KeyDown | SelectAllKeys | CopyKeys | OtherKey

  /** What a key press did: whether the event was accepted, whether
      `doCopy` was emitted, and the table after it. */
  datatype KeyOutcome = KeyOutcome(accepted: bool, copies: bool, table: Table)

  /** C++ `%` on the non-negative operands the key handler produces. */
  function Wrap(x: int, n: int): (r: int)
    requires n > 0 && x >= 0
    ensures 0 <= r < n
    ensures x < n ==> r == x
    ensures n <= x < 2 * n ==> r == x - n
  {
    x % n
  }

  /** The visual index a key moves the cursor to among `n` rows: Up steps
      back cyclically (from no cursor as if from row 0), Down forward. */
  function KeyTarget(cur: int, n: nat, key: Key): (d: int)
    requires cur >= -1
    ensures n > 0 && (key == KeyUp || key == KeyDown) ==> 0 <= d < n
    ensures n == 0 || (key != KeyUp && key != KeyDown) ==> d == cur
    ensures n > 0 && key == KeyDown && cur + 1 < n ==> d == cur + 1
    ensures n > 0 && key == KeyUp && cur >= 1 && cur < n ==> d == cur - 1
    ensures n > 0 && key == KeyDown && cur == n - 1 ==> d == 0
    ensures n > 0 && key == KeyUp && cur <= 0 ==> d == n - 1
  {
    if n == 0 then cur
    else
      match key
      case KeyUp => Wrap((if cur == -1 then 0 else cur) - 1 + n, n)
      case KeyDown => Wrap(cur + 1, n)
      case _ => cur
  }

  /** On a row, Up undoes Down and Down undoes Up. */
  lemma KeyStepsUndo(cur: int, n: nat)
    requires 0 <= cur < n
    ensures KeyTarget(KeyTarget(cur, n, KeyDown), n, KeyUp) == cur
    ensures KeyTarget(KeyTarget(cur, n, KeyUp), n, KeyDown) == cur
  {
  }

  /** `keyPressEvent`: without a model the key is swallowed, since the
      handler returns before it ignores the event, and nothing changes; a
      key that moves the cursor leaves exactly the row it lands on
      selected; select-all selects every visual row; the copy sequence
      asks for a copy through `doCopy` and changes nothing; any other key
      is left to the parent. */
  function KeyPress(t: Table, key: Key): (r: KeyOutcome)
    requires t.Inv()
    ensures r.table.Inv()
    ensures !t.hasModel ==> r == KeyOutcome(true, false, t)
    ensures r.copies <==> t.hasModel && key == CopyKeys
    ensures var d := KeyTarget(t.cur, |t.visuals|, key);
      t.hasModel && d != t.cur ==>
        r.accepted && 0 <= d < |t.visuals| && r.table.cur == d
        && r.table.logicsValid && r.table.logics == {t.visuals[d]}
        && r.table.contents == {ContentOf(t, t.visuals[d])}
    ensures t.hasModel && key == SelectAllKeys ==>
      r.accepted && r.table.cur == t.cur && r.table.logicsValid && r.table.logics == (set x | x in t.visuals)
    ensures t.hasModel && key == CopyKeys ==> r == KeyOutcome(true, true, t)
    ensures t.hasModel && key == OtherKey ==> r == KeyOutcome(false, false, t)
  {
    if !t.hasModel then KeyOutcome(true, false, t)
    else
      var d := KeyTarget(t.cur, |t.visuals|, key);
      if d != t.cur then
        var s := SelectItem(ClearSelects(t), t.visuals[d], true).1;
        assert s.logics == {t.visuals[d]};
        KeyOutcome(true, false, s.(cur := d))
      else if key == SelectAllKeys then
        KeyOutcome(true, false, SelectEach(ClearSelects(t), t.visuals))
      else if key == CopyKeys then
        KeyOutcome(true, true, t)
      else KeyOutcome(false, false, t)
  }

  // ---------------------------------------------------------------------
  // Mouse (locust_table_widget.cpp:2249-2277)
  // ---------------------------------------------------------------------

  datatype Button = LeftButton | RightButton | OtherButton

  /** The modifier state compared by equality: Control alone, Shift
      alone, none, or any combination. */
  datatype Modifiers = NoModifier | Control | ShiftKey | Combined

  /** Shift-click on visual row `vi`: with an anchor the selection becomes
      exactly the visual rows between anchor and click (clipped to the
      list) and the anchor stays; without one nothing happens. */
  function ShiftSelect(t: Table, vi: int): (r: Table)
    requires t.Inv() && 0 <= vi < |t.visuals|
    ensures r.Inv() && r.cur == t.cur
    ensures t.cur == -1 ==> r == t
    ensures t.cur != -1 && t.hasModel ==>
      r.logicsValid
      && (forall x :: x in r.logics ==> x in t.visuals)
      && forall j :: 0 <= j < |t.visuals| ==>
           (IsItemSelected(r, t.visuals[j]) <==> Min(t.cur, vi) <= j <= Max(t.cur, vi))
  {
    if t.cur == -1 then t
    else
      var b := Min(t.cur, vi);
      var e := Min(Max(t.cur, vi) + 1, |t.visuals|);
      SelectSliceFacts(t, b, e);
      SelectEach(ClearSelects(t), t.visuals[b..e])
  }

  /** Selecting the visual rows `b` to `e` on a cleared selection selects
      exactly the rows at those positions. */
  lemma SelectSliceFacts(t: Table, b: int, e: int)
    requires t.Inv() && 0 <= b <= e <= |t.visuals|
    ensures var r := SelectEach(ClearSelects(t), t.visuals[b..e]);
      && r.Inv() && r.cur == t.cur
      && (t.hasModel ==>
        r.logicsValid
        && (forall x :: x in r.logics ==> x in t.visuals)
        && forall j :: 0 <= j < |t.visuals| ==> (IsItemSelected(r, t.visuals[j]) <==> b <= j < e))
  {
    SliceBelow(t.visuals, |t.heights|, b, e);
    if t.hasModel {
      SelectedSlice(t, b, e);
    }
  }

  /** A slice of entries below `n` has entries below `n`. */
  lemma SliceBelow(vs: seq<int>, n: int, b: int, e: int)
    requires 0 <= b <= e <= |vs|
    requires forall i :: 0 <= i < |vs| ==> 0 <= vs[i] < n
    ensures forall i :: 0 <= i < e - b ==> 0 <= vs[b..e][i] < n
  {
    forall i | 0 <= i < e - b ensures 0 <= vs[b..e][i] < n {
      assert vs[b..e][i] == vs[b + i];
    }
  }

  /** The selection part of `SelectSliceFacts`. */
  lemma SelectedSlice(t: Table, b: int, e: int)
    requires t.Inv() && t.hasModel && 0 <= b <= e <= |t.visuals|
    requires forall i :: 0 <= i < e - b ==> 0 <= t.visuals[b..e][i] < |t.heights|
    ensures var r := SelectEach(ClearSelects(t), t.visuals[b..e]);
      && r.logicsValid
      && (forall x :: x in r.logics ==> x in t.visuals)
      && forall j :: 0 <= j < |t.visuals| ==> (IsItemSelected(r, t.visuals[j]) <==> b <= j < e)
  {
    var ks := t.visuals[b..e];
    var r := SelectEach(ClearSelects(t), ks);
    assert r.logics == set x | x in ks;
    RangeMembership(t.visuals, b, e);
    forall j | 0 <= j < |t.visuals| ensures IsItemSelected(r, t.visuals[j]) <==> b <= j < e {
      assert IsItemSelected(r, t.visuals[j]) <==> t.visuals[j] in ks;
    }
  }

  /** Over distinct entries, an entry lies in a slice exactly when its
      position does. */
  lemma RangeMembership(vs: seq<int>, b: int, e: int)
    requires 0 <= b <= e <= |vs|
    requires forall i, j :: 0 <= i < j < |vs| ==> vs[i] != vs[j]
    ensures forall x :: x in vs[b..e] ==> x in vs
    ensures forall j :: 0 <= j < |vs| ==> (vs[j] in vs[b..e] <==> b <= j < e)
  {
    forall j | 0 <= j < |vs| ensures vs[j] in vs[b..e] <==> b <= j < e {
      if vs[j] in vs[b..e] {
        var p :| 0 <= p < e - b && vs[b..e][p] == vs[j];
        assert vs[b + p] == vs[j];
      }
      if b <= j < e {
        assert vs[b..e][j - b] == vs[j];
      }
    }
  }

  /** `itemPressed` on visual row `vi`:
      - left with Control toggles the row and moves the anchor to it;
      - left with Shift selects a range (see `ShiftSelect`);
      - any other left click selects only the row and moves the anchor;
      - right selects only the row unless it is already selected. */
  function ItemPressed(t: Table, button: Button, mods: Modifiers, vi: int): (r: Table)
    requires t.Inv() && 0 <= vi < |t.visuals|
    ensures r.Inv()
    ensures var k := t.visuals[vi];
      button == LeftButton && mods == Control && t.hasModel ==>
        IsItemSelected(r, k) == !IsItemSelected(t, k) && r.cur == vi
        && forall x :: x != k && x in t.logics ==> x in r.logics
    ensures var k := t.visuals[vi];
      button == LeftButton && mods != Control && mods != ShiftKey && t.hasModel ==>
        r.cur == vi && r.logicsValid && r.logics == {k} && r.contents == {ContentOf(t, k)}
    ensures button == LeftButton && mods == ShiftKey ==> r == ShiftSelect(t, vi)
    ensures var k := t.visuals[vi];
      button == RightButton ==>
        r.cur == t.cur && (IsItemSelected(t, k) ==> r == t)
        && (t.hasModel ==> IsItemSelected(r, k))
    ensures button == OtherButton ==> r == t
  {
    var k := t.visuals[vi];
    match button
    case LeftButton =>
      if mods == Control then
        SelectItem(t, k, !IsItemSelected(t, k)).1.(cur := vi)
      else if mods == ShiftKey then ShiftSelect(t, vi)
      else
        var s := SelectItem(ClearSelects(t), k, true).1;
        assert t.hasModel ==> s.logics == {k};
        s.(cur := vi)
    case RightButton =>
      if IsItemSelected(t, k) then t
      else SelectItem(ClearSelects(t), k, true).1
    case OtherButton => t
  }

  // ---------------------------------------------------------------------
  // Removal (`itemAboutToRemove`, locust_table_widget.cpp:2129-2172)
  // ---------------------------------------------------------------------

  /** A logical index once row `k` is taken out of the list. */
  function Shift(x: int, k: int): int {
    if x > k then x - 1 else x
  }

  /** The position in the visual list before the removal of what is at
      `i` afterwards, `vi` being where the removed row was (-1: nowhere). */
  function Before(i: int, vi: int): int {
    if vi == -1 || i < vi then i else i + 1
  }

  /** `listVisuals` after row `k` of `n` is removed: every entry above
      `k` is decremented and the entry `k` itself dropped, so each
      remaining visual row still names the row it named before. */
  function RemovedVisuals(vs: seq<int>, k: int, n: int): (r: seq<int>)
    requires DistinctBelow(vs, n) && 0 <= k < n
    ensures DistinctBelow(r, n - 1)
    ensures |r| == if k in vs then |vs| - 1 else |vs|
    ensures forall i :: 0 <= i < |r| ==>
      0 <= Before(i, IndexOf(vs, k)) < |vs|
      && vs[Before(i, IndexOf(vs, k))] != k
      && r[i] == Shift(vs[Before(i, IndexOf(vs, k))], k)
  {
    var vi := IndexOf(vs, k);
    var rv := seq(|vs|, i requires 0 <= i < |vs| => Shift(vs[i], k));
    var r := if vi == -1 then rv else rv[..vi] + rv[vi + 1..];
    RemovedVisualsFacts(vs, k, n, rv, r);
    r
  }

  lemma RemovedVisualsFacts(vs: seq<int>, k: int, n: int, rv: seq<int>, r: seq<int>)
    requires DistinctBelow(vs, n) && 0 <= k < n
    requires |rv| == |vs| && forall i :: 0 <= i < |vs| ==> rv[i] == Shift(vs[i], k)
    requires r == if IndexOf(vs, k) == -1 then rv else rv[..IndexOf(vs, k)] + rv[IndexOf(vs, k) + 1..]
    ensures DistinctBelow(r, n - 1)
    ensures |r| == if k in vs then |vs| - 1 else |vs|
    ensures forall i :: 0 <= i < |r| ==>
      0 <= Before(i, IndexOf(vs, k)) < |vs|
      && vs[Before(i, IndexOf(vs, k))] != k
      && r[i] == Shift(vs[Before(i, IndexOf(vs, k))], k)
  {
    RemovedEntries(vs, k, n, rv, r);
    RemovedDistinct(vs, k, n, r);
  }

  /** Entry `i` after the removal is the shifted entry it came from. */
  lemma RemovedEntries(vs: seq<int>, k: int, n: int, rv: seq<int>, r: seq<int>)
    requires DistinctBelow(vs, n) && 0 <= k < n
    requires |rv| == |vs| && forall i :: 0 <= i < |vs| ==> rv[i] == Shift(vs[i], k)
    requires r == if IndexOf(vs, k) == -1 then rv else rv[..IndexOf(vs, k)] + rv[IndexOf(vs, k) + 1..]
    ensures |r| == if k in vs then |vs| - 1 else |vs|
    ensures forall i :: 0 <= i < |r| ==>
      0 <= Before(i, IndexOf(vs, k)) < |vs|
      && vs[Before(i, IndexOf(vs, k))] != k
      && r[i] == Shift(vs[Before(i, IndexOf(vs, k))], k)
  {
    var vi := IndexOf(vs, k);
    if vi != -1 {
      DropAt(rv, vi);
    }
    forall i | 0 <= i < |r|
      ensures 0 <= Before(i, vi) < |vs| && vs[Before(i, vi)] != k && r[i] == rv[Before(i, vi)]
    {
      if vi != -1 {
        assert vs[Before(i, vi)] != vs[vi];
      }
    }
  }

  /** Dropping entry `vi` leaves at `i` what was at `Before(i, vi)`. */
  lemma DropAt(rv: seq<int>, vi: int)
    requires 0 <= vi < |rv|
    ensures |rv[..vi] + rv[vi + 1..]| == |rv| - 1
    ensures forall i :: 0 <= i < |rv| - 1 ==> (rv[..vi] + rv[vi + 1..])[i] == rv[Before(i, vi)]
  {
    var r := rv[..vi] + rv[vi + 1..];
    forall i | 0 <= i < |rv| - 1 ensures r[i] == rv[Before(i, vi)] {
      if i < vi {
        assert r[i] == rv[..vi][i];
      } else {
        assert r[i] == rv[vi + 1..][i - vi];
      }
    }
  }

  /** Shifting distinct rows other than `k` keeps them distinct and
      below the new count. */
  lemma RemovedDistinct(vs: seq<int>, k: int, n: int, r: seq<int>)
    requires DistinctBelow(vs, n) && 0 <= k < n
    requires forall i :: 0 <= i < |r| ==>
      0 <= Before(i, IndexOf(vs, k)) < |vs|
      && vs[Before(i, IndexOf(vs, k))] != k
      && r[i] == Shift(vs[Before(i, IndexOf(vs, k))], k)
    ensures DistinctBelow(r, n - 1)
  {
    var vi := IndexOf(vs, k);
    forall i, j | 0 <= i < j < |r| ensures r[i] != r[j] {
      assert Before(i, vi) < Before(j, vi);
      assert vs[Before(i, vi)] != vs[Before(j, vi)];
    }
  }

  /** Taking entry `k` out of a list moves every later entry down by
      one. */
  lemma TakeOut<T>(s: seq<T>, k: int, x: int)
    requires 0 <= k < |s| && 0 <= x < |s| && x != k
    ensures 0 <= Shift(x, k) < |s| - 1
    ensures (s[..k] + s[k + 1..])[Shift(x, k)] == s[x]
  {
  }

  /** The cursor after removing row `k`, intended: it is dropped when it
      was on the removed row, moves up one when the removed row was
      visible above it, and otherwise stays. */
  function CurAfterRemove(vs: seq<int>, cur: int, k: int, n: int): (c: int)
    requires DistinctBelow(vs, n) && 0 <= k < n && cur >= -1
    ensures c >= -1
    ensures 0 <= cur < |vs| && vs[cur] == k ==> c == -1
    ensures 0 <= cur < |vs| && vs[cur] != k ==>
      var r := RemovedVisuals(vs, k, n);
      0 <= c < |r| && r[c] == Shift(vs[cur], k)
  {
    var vi := IndexOf(vs, k);
    if 0 <= cur < |vs| && vs[cur] == k then -1
    else if 0 <= cur < |vs| && vi != -1 && vi < cur then
      assert Before(cur - 1, vi) == cur;
      cur - 1
    else
      assert 0 <= cur < |vs| ==> Before(cur, vi) == cur;
      cur
  }

  /** The cursor after removing row `k` as written: it reads the cursor's
      logical index from the list already renumbered, and compares the
      removed row's visual position with the cursor even when the row was
      not visible (-1). */
  function CurAfterRemoveAsWritten(vs: seq<int>, cur: int, k: int): int {
    var vi := IndexOf(vs, k);
    var cl := if 0 <= cur < |vs| then Shift(vs[cur], k) else -1;
    if k == cl then -1
    else if cl != -1 && vi < cur then cur - 1
    else cur
  }

  /** Two inputs on which the cursor as written loses a row that
      survives the removal, while the intended rule keeps it on that row:
      with rows [0, 1] visible and the cursor on row 1, removing row 0
      renumbers row 1 to 0, which the check mistakes for the removed row;
      with only row 2 visible and the cursor on it, removing the hidden
      row 0 still moves the cursor up. */
  lemma CurAfterRemoveAsWrittenLosesRow()
    ensures var vs := [0, 1];
      vs[1] != 0 && CurAfterRemoveAsWritten(vs, 1, 0) == -1
      && CurAfterRemove(vs, 1, 0, 2) == 0 && RemovedVisuals(vs, 0, 2)[0] == Shift(vs[1], 0)
    ensures var vs := [2];
      vs[0] != 0 && CurAfterRemoveAsWritten(vs, 0, 0) == -1
      && CurAfterRemove(vs, 0, 0, 3) == 0 && RemovedVisuals(vs, 0, 3)[0] == Shift(vs[0], 0)
  {
    assert IndexOf([0, 1], 0) == 0;
    assert IndexOf([2], 0) == -1 by {
      assert IndexOf([2][1..], 0) == -1;
    }
  }

  /** `itemAboutToRemove(k)` together with the model dropping row `k`:
      - the logical selection is marked stale when `k` is at most its
        largest member;
      - the row's content leaves the content set;
      - the item is taken out and `listVisuals` renumbered;
      - the cursor follows its row; the positions are recomputed.
      An index out of range changes nothing. */
  function ItemAboutToRemove(t: Table, k: int): (r: Table)
    requires t.Inv()
    ensures r.Inv()
    ensures !(0 <= k < |t.heights|) ==> r == t
    ensures 0 <= k < |t.heights| ==>
      |r.heights| == |t.heights| - 1
      && (forall x :: 0 <= x < |t.heights| && x != k ==>
            0 <= Shift(x, k) < |r.heights|
            && r.heights[Shift(x, k)] == t.heights[x] && r.model[Shift(x, k)] == t.model[x])
      && r.visuals == RemovedVisuals(t.visuals, k, |t.heights|)
      && ContentOf(t, k) !in r.contents
      && (r.logicsValid ==> forall x :: x in r.logics ==> 0 <= x < k)
      && r.cur == CurAfterRemove(t.visuals, t.cur, k, |t.heights|)
  {
    if k < 0 || k >= |t.heights| then t
    else
      var stale := t.logicsValid && exists x :: x in t.logics && k <= x;
      var hs := t.heights[..k] + t.heights[k + 1..];
      var model := t.model[..k] + t.model[k + 1..];
      var vs := RemovedVisuals(t.visuals, k, |t.heights|);
      forall x | 0 <= x < |t.heights| && x != k
        ensures 0 <= Shift(x, k) < |hs| && hs[Shift(x, k)] == t.heights[x] && model[Shift(x, k)] == t.model[x]
      {
        TakeOut(t.heights, k, x);
        TakeOut(t.model, k, x);
      }
      Table(hs, t.hasModel, model, t.moreHeight, vs,
            PositionsOf(Heights(hs, vs), t.moreHeight),
            t.logics, t.logicsValid && !stale, t.contents - {ContentOf(t, k)},
            CurAfterRemove(t.visuals, t.cur, k, |t.heights|))
  }

  /** A row that survives a removal keeps its place in the content
      selection, provided its content differs from the removed row's: the
      content set stays meaningful across deletions. */
  lemma ContentSelectionSurvivesRemoval(t: Table, k: int, x: int)
    requires t.Inv() && t.hasModel && 0 <= k < |t.heights| && 0 <= x < |t.heights| && x != k
    requires t.model[x] != t.model[k]
    ensures var r := ItemAboutToRemove(t, k);
      ContentOf(r, Shift(x, k)) == ContentOf(t, x)
      && (ContentOf(r, Shift(x, k)) in r.contents <==> ContentOf(t, x) in t.contents)
  {
  }

  /** While the logical selection stays valid through a removal, every
      selected index names the same row as before. */
  lemma LogicalSelectionSurvivesRemoval(t: Table, k: int, x: int)
    requires t.Inv() && 0 <= k < |t.heights|
    requires ItemAboutToRemove(t, k).logicsValid && x in ItemAboutToRemove(t, k).logics
    ensures x in t.logics && Shift(x, k) == x
    ensures ItemAboutToRemove(t, k).model[x] == t.model[x]
    ensures ItemAboutToRemove(t, k).heights[x] == t.heights[x]
  {
  }

  // ---------------------------------------------------------------------
  // Addition and re-sorting (locust_table_widget.cpp:2108-2118, 2702-2713)
  // ---------------------------------------------------------------------

  /** What `_sort` is given besides the row count: the sort column, the
      number of columns, the order, the rows' sort values and the filter. */
  datatype SortParams = SortParams(column: int, columnCount: int, order: Order,
                                   keys: int -> Option<int>, accept: int -> bool)

  /** A permutation of a strictly increasing list repeats nothing. */
  lemma PermutationDistinct(r: seq<int>, s: seq<int>)
    requires multiset(r) == multiset(s)
    requires forall p, q :: 0 <= p < q < |s| ==> s[p] < s[q]
    ensures forall i, j :: 0 <= i < j < |r| ==> r[i] != r[j]
  {
    forall i, j | 0 <= i < j < |r| ensures r[i] != r[j] {
      if r[i] == r[j] {
        var x := r[i];
        assert r == r[..j] + r[j..];
        assert x in r[..j] && x in r[j..];
        assert multiset(r)[x] == multiset(r[..j])[x] + multiset(r[j..])[x];
        DistinctCountsOnce(s, x);
      }
    }
  }

  /** `_sortedAsync`: the visual list is sorted again over all rows and
      the positions recomputed; the selection and the cursor are kept. */
  function Resort(t: Table, sp: SortParams): (r: Table)
    requires t.Inv()
    ensures r.Inv()
    ensures forall x :: x in r.visuals <==> 0 <= x < |t.heights| && sp.accept(x)
    ensures NeedSort(sp.column, sp.columnCount) ==> Sorted(sp.order, sp.keys, r.visuals)
    ensures r == t.(visuals := r.visuals, pos := r.pos)
  {
    var vs := Sort(|t.heights|, sp.column, sp.columnCount, sp.order, sp.keys, sp.accept);
    PermutationDistinct(vs, Accepted(|t.heights|, sp.accept));
    assert forall i :: 0 <= i < |vs| ==> vs[i] in vs;
    t.(visuals := vs, pos := PositionsOf(Heights(t.heights, vs), t.moreHeight))
  }

  /** `itemAdded(k)` after the model inserted row `k` with content `c`:
      a new item of height `h` is appended to `listLogics` and the list is
      re-sorted; an index beyond the end changes nothing. */
  function ItemAdded(t: Table, k: int, h: int, c: nat, sp: SortParams): (r: Table)
    requires t.Inv()
    ensures r.Inv()
    ensures !(0 <= k <= |t.heights|) ==> r == t
    ensures 0 <= k <= |t.heights| ==>
      |r.heights| == |t.heights| + 1 && r.heights[|t.heights|] == h
      && (forall j :: 0 <= j < |t.heights| ==> r.heights[j] == t.heights[j])
      && r.model[k] == c
      && (forall j :: 0 <= j < k ==> r.model[j] == t.model[j])
      && (forall j :: k <= j < |t.model| ==> r.model[j + 1] == t.model[j])
      && r.logics == t.logics && r.logicsValid == t.logicsValid
      && r.contents == t.contents && r.cur == t.cur
  {
    if k < 0 || k > |t.heights| then t
    else
      var grown := Grown(t, k, h, c);
      Resort(grown, sp)
  }

  /** The table once the model holds the new row and the new item is
      appended, before re-sorting. */
  function Grown(t: Table, k: int, h: int, c: nat): (g: Table)
    requires t.Inv() && 0 <= k <= |t.heights|
    ensures g.Inv()
    ensures g == t.(heights := g.heights, model := g.model)
    ensures |g.heights| == |t.heights| + 1 && g.heights[|t.heights|] == h
    ensures forall j :: 0 <= j < |t.heights| ==> g.heights[j] == t.heights[j]
    ensures |g.model| == |t.model| + 1 && g.model[k] == c
    ensures forall j :: 0 <= j < k ==> g.model[j] == t.model[j]
    ensures forall j :: k <= j < |t.model| ==> g.model[j + 1] == t.model[j]
  {
    var hs := t.heights + [h];
    var model := t.model[..k] + [c] + t.model[k..];
    assert forall j :: k <= j < |t.model| ==> model[j + 1] == t.model[j] by {
      forall j | k <= j < |t.model| ensures model[j + 1] == t.model[j] {
        assert model[j + 1] == t.model[k..][j - k];
      }
    }
    assert Heights(hs, t.visuals) == Heights(t.heights, t.visuals);
    t.(heights := hs, model := model)
  }

  /** Rows are appended at the end in practice, and then the selection of
      every existing row reads the same afterwards, whichever set is in
      use. */
  lemma AppendKeepsSelection(t: Table, h: int, c: nat, sp: SortParams, j: int)
    requires t.Inv() && 0 <= j < |t.heights|
    ensures IsItemSelected(ItemAdded(t, |t.heights|, h, c, sp), j) == IsItemSelected(t, j)
  {
  }
}
