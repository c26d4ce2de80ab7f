/** The placement of the user-defined widgets of a table item over their
    columns (`updateUserDefineWidgetGeometry`,
    locust_table_widget.cpp:834-855). The widgets are visited in the order
    of their columns, which must be ascending (locust_table_widget.h:322),
    and each is placed at the left edge of its column with the column's
    width. Only the horizontal geometry is modelled.
 */
module LocustItemView {

  /** A widget's horizontal geometry: its left edge and its width. */
  datatype Placement = Placement(left: int, width: int)

  /** `getSectionSize(i)`: the width of column `i`; a column outside the
      header has width 0. */
  function SectionSize(sections: seq<int>, i: int): int {
    if 0 <= i < |sections| then sections[i] else 0
  }

  /** The left edge of column `c`: the widths of the columns before it. */
  function ColumnLeft(sections: seq<int>, c: nat): int
    requires c <= |sections|
  {
    if c == 0 then 0 else ColumnLeft(sections, c - 1) + sections[c - 1]
  }

  /** The inner scan: from column `from` on, add the width of every
      column passed until column `dst` or the end is reached. */
  function Scan(sections: seq<int>, from: int, dst: int, left: int): int
    decreases |sections| - from
  {
    if from >= |sections| || from == dst then left
    else Scan(sections, from + 1, dst, left + SectionSize(sections, from))
  }

  /** Scanning from a column's left edge up to a later column ends at
      that column's left edge. */
  lemma {:induction false} ScanReaches(sections: seq<int>, from: nat, dst: nat, left: int)
    requires from <= dst <= |sections|
    requires left == ColumnLeft(sections, from)
    ensures Scan(sections, from, dst, left) == ColumnLeft(sections, dst)
    decreases dst - from
  {
    if from < dst {
      ScanReaches(sections, from + 1, dst, left + sections[from]);
    }
  }

  /** The loop as written: the scan always restarts at column 0 while the
      running left edge is carried over from the previous widget, so every
      widget after the first is pushed right by the widths already
      counted. A widget for column `|sections|` ends the loop. */
  function PlaceAsWritten(sections: seq<int>, dsts: seq<int>, left: int): (r: seq<Placement>)
    ensures |r| <= |dsts|
    decreases |dsts|
  {
    if dsts == [] then []
    else
      var l := Scan(sections, 0, dsts[0], left);
      if dsts[0] == |sections| then []
      else [Placement(l, SectionSize(sections, dsts[0]))] + PlaceAsWritten(sections, dsts[1..], l)
  }

  /** The loop with the scan resuming at the previous widget's column,
      which the running left edge already accounts for. Over ascending
      columns each widget lands on the left edge of its own column with
      that column's width. */
  function Place(sections: seq<int>, dsts: seq<int>, column: int, left: int): (r: seq<Placement>)
    ensures |r| <= |dsts|
    ensures 0 <= column <= |sections| && left == ColumnLeft(sections, column)
            && (forall i :: 0 <= i < |dsts| ==> column <= dsts[i] < |sections|)
            && (forall i, j :: 0 <= i < j < |dsts| ==> dsts[i] <= dsts[j]) ==>
      |r| == |dsts|
      && forall i :: 0 <= i < |dsts| ==>
           r[i] == Placement(ColumnLeft(sections, dsts[i]), sections[dsts[i]])
    decreases |dsts|
  {
    if dsts == [] then []
    else
      var l := Scan(sections, column, dsts[0], left);
      if dsts[0] == |sections| then []
      else
        var rest := Place(sections, dsts[1..], dsts[0], l);
        if 0 <= column <= |sections| && left == ColumnLeft(sections, column)
           && (forall i :: 0 <= i < |dsts| ==> column <= dsts[i] < |sections|)
           && (forall i, j :: 0 <= i < j < |dsts| ==> dsts[i] <= dsts[j]) then
          ScanReaches(sections, column, dsts[0], left);
          assert forall i :: 0 <= i < |dsts[1..]| ==> dsts[0] <= dsts[1..][i] by {
            forall i | 0 <= i < |dsts[1..]| ensures dsts[0] <= dsts[1..][i] {
              assert dsts[1..][i] == dsts[i + 1];
            }
          }
          [Placement(l, SectionSize(sections, dsts[0]))] + rest
        else
          [Placement(l, SectionSize(sections, dsts[0]))] + rest
  }

  /** `updateUserDefineWidgetGeometry` with the scan resuming where the
      previous widget was placed. */
  function PlaceWidgets(sections: seq<int>, dsts: seq<int>): (r: seq<Placement>)
    ensures (forall i :: 0 <= i < |dsts| ==> 0 <= dsts[i] < |sections|)
            && (forall i, j :: 0 <= i < j < |dsts| ==> dsts[i] <= dsts[j]) ==>
      |r| == |dsts|
      && forall i :: 0 <= i < |dsts| ==>
           r[i] == Placement(ColumnLeft(sections, dsts[i]), sections[dsts[i]])
  {
    Place(sections, dsts, 0, 0)
  }

  /** Three columns 10, 20 and 30 wide with widgets on columns 1 and 2:
      as written the second widget lands at 40, past its column's left
      edge 30, where the corrected loop puts it. */
  lemma PlaceAsWrittenOvershoots()
    ensures var sections := [10, 20, 30];
      var asWritten := PlaceAsWritten(sections, [1, 2], 0);
      |asWritten| == 2 && asWritten[1].left == 40
      && ColumnLeft(sections, 2) == 30 && PlaceWidgets(sections, [1, 2])[1].left == 30
  {
    var sections := [10, 20, 30];
    assert Scan(sections, 0, 1, 0) == 10;
    assert Scan(sections, 0, 2, 10) == 40;
    assert PlaceAsWritten(sections, [1, 2][1..], 10) == [Placement(40, 30)];
  }
}
