/** `_sort` of the virtualised table (locust_table_widget.cpp:1638-1815):
    the visual order of the rows, that is, the logical indices the filter
    accepts, ordered by the sort column's value when the column exists.

    A row's value in the sort column is abstracted to an integer standing
    for its place in its type's order, or to `None` for a value of unknown
    type; the comparator then behaves as `isVariantLessThan` does for
    values of one type. `std::sort` is specified by what it guarantees (a
    permutation ordered by the comparator); `SortSeq` is one such result.
 */
module LocustSort {
  import opened Common

  datatype Order = Ascending | Descending

  /** `THREAD_COUNT`: the chunks of the parallel sort. */
  const ThreadCount: int := 4
  /** From this many accepted rows on the list is sorted in chunks. */
  const ParallelThreshold: int := 10000

  /** The rows of [0, count) the filter accepts, in ascending order
      (locust_table_widget.cpp:1652-1666). */
  function Accepted(count: int, accept: int -> bool): (r: seq<int>)
    ensures forall i, j :: 0 <= i < j < |r| ==> r[i] < r[j]
    ensures forall x :: x in r <==> 0 <= x < count && accept(x)
    ensures |r| <= Max(count, 0)
    decreases count
  {
    if count <= 0 then []
    else
      var prev := Accepted(count - 1, accept);
      assert forall i :: 0 <= i < |prev| ==> prev[i] in prev;
      prev + (if accept(count - 1) then [count - 1] else [])
  }

  /** `isVariantLessThan(left, right, A, B)`: a value of unknown type is
      never less, and anything known is less than it; equal values fall
      back to the row indices. */
  predicate VariantLess(left: Option<int>, right: Option<int>, a: int, b: int) {
    if left.None? then false
    else if right.None? then true
    else if left.value == right.value then a < b
    else left.value < right.value
  }

  /** The comparator `__cmp` (locust_table_widget.cpp:1740-1749):
      descending order swaps both the values and the indices. */
  predicate Less(order: Order, keys: int -> Option<int>, a: int, b: int) {
    if order == Descending then VariantLess(keys(b), keys(a), b, a)
    else VariantLess(keys(a), keys(b), a, b)
  }

  /** The comparator is a strict weak order: irreflexive, transitive, and
      its incomparability is transitive too, which is what `std::sort`
      needs. */
  lemma LessIsStrictWeakOrder(order: Order, keys: int -> Option<int>, a: int, b: int, c: int)
    ensures !Less(order, keys, a, a)
    ensures Less(order, keys, a, b) && Less(order, keys, b, c) ==> Less(order, keys, a, c)
    ensures !Less(order, keys, a, b) && !Less(order, keys, b, c) ==> !Less(order, keys, a, c)
  {
  }

  /** With every value known and the rows distinct, exactly one of two
      rows comes first: ties are broken by the row index. */
  lemma KnownKeysTotal(order: Order, keys: int -> Option<int>, a: int, b: int)
    requires keys(a).Some? && keys(b).Some? && a != b
    ensures Less(order, keys, a, b) != Less(order, keys, b, a)
  {
  }

  /** No later element is less than an earlier one. */
  predicate Sorted(order: Order, keys: int -> Option<int>, s: seq<int>) {
    forall i, j :: 0 <= i < j < |s| ==> !Less(order, keys, s[j], s[i])
  }

  /** `x` goes before the first element it is less than. */
  function Insert(order: Order, keys: int -> Option<int>, x: int, s: seq<int>): (r: seq<int>)
    ensures multiset(r) == multiset(s) + multiset{x}
    ensures |r| == |s| + 1
    ensures Sorted(order, keys, s) ==> Sorted(order, keys, r)
  {
    if s == [] then [x]
    else if Less(order, keys, x, s[0]) then
      InsertFront(order, keys, x, s);
      [x] + s
    else
      var rest := Insert(order, keys, x, s[1..]);
      assert forall z :: z in rest ==> z == x || z in s[1..] by {
        forall z | z in rest ensures z == x || z in s[1..] {
          assert z in multiset(rest);
        }
      }
      InsertStep(order, keys, x, s, rest);
      assert s == [s[0]] + s[1..];
      [s[0]] + rest
  }

  /** The step of `Insert` that keeps the head: a sorted list stays sorted
      with `x` inserted after its head. */
  lemma InsertStep(order: Order, keys: int -> Option<int>, x: int, s: seq<int>, rest: seq<int>)
    requires s != [] && !Less(order, keys, x, s[0])
    requires forall z :: z in rest ==> z == x || z in s[1..]
    requires Sorted(order, keys, s[1..]) ==> Sorted(order, keys, rest)
    ensures Sorted(order, keys, s) ==> Sorted(order, keys, [s[0]] + rest)
  {
    if Sorted(order, keys, s) {
      assert Sorted(order, keys, s[1..]) by {
        forall i, j | 0 <= i < j < |s[1..]| ensures !Less(order, keys, s[1..][j], s[1..][i]) {
          assert s[1..][j] == s[j + 1] && s[1..][i] == s[i + 1];
        }
      }
      forall z | z in s[1..] ensures !Less(order, keys, z, s[0]) {
        var k :| 0 <= k < |s[1..]| && s[1..][k] == z;
        assert s[k + 1] == z;
      }
      ConsSorted(order, keys, s[0], rest, x, s[1..]);
    }
  }

  lemma InsertFront(order: Order, keys: int -> Option<int>, x: int, s: seq<int>)
    requires s != [] && Less(order, keys, x, s[0])
    ensures Sorted(order, keys, s) ==> Sorted(order, keys, [x] + s)
  {
    if Sorted(order, keys, s) {
      forall j | 0 < j < |[x] + s| ensures !Less(order, keys, ([x] + s)[j], x) {
        var z := s[j - 1];
        LessIsStrictWeakOrder(order, keys, z, x, s[0]);
        LessIsStrictWeakOrder(order, keys, x, s[0], x);
        if j - 1 > 0 {
          assert !Less(order, keys, z, s[0]);
        }
      }
    }
  }

  /** Putting `h` in front of a sorted `rest` keeps it sorted when nothing
      in `rest` is less than `h`; here `rest` holds `x` and elements of
      `tail`, none of which is less than `h`. */
  lemma ConsSorted(order: Order, keys: int -> Option<int>, h: int, rest: seq<int>, x: int, tail: seq<int>)
    requires !Less(order, keys, x, h)
    requires forall z :: z in rest ==> z == x || z in tail
    requires forall z :: z in tail ==> !Less(order, keys, z, h)
    ensures Sorted(order, keys, rest) ==> Sorted(order, keys, [h] + rest)
  {
    if Sorted(order, keys, rest) {
      forall i, j | 0 <= i < j < |[h] + rest| ensures !Less(order, keys, ([h] + rest)[j], ([h] + rest)[i]) {
        if i > 0 {
          assert ([h] + rest)[j] == rest[j - 1] && ([h] + rest)[i] == rest[i - 1];
        } else {
          assert rest[j - 1] in rest;
        }
      }
    }
  }

  /** A sorted permutation, built by insertion: one result `std::sort`
      may produce. */
  function SortSeq(order: Order, keys: int -> Option<int>, s: seq<int>): (r: seq<int>)
    ensures multiset(r) == multiset(s) && |r| == |s|
    ensures Sorted(order, keys, r)
  {
    if s == [] then []
    else
      assert s == [s[0]] + s[1..];
      Insert(order, keys, s[0], SortSeq(order, keys, s[1..]))
  }

  /** `[lo, hi)` in ascending order. */
  function Range(lo: int, hi: int): (r: seq<int>)
    ensures |r| == Max(hi - lo, 0)
    ensures forall i :: 0 <= i < |r| ==> r[i] == lo + i
    decreases hi - lo
  {
    if lo >= hi then [] else [lo] + Range(lo + 1, hi)
  }

  /** The four chunks of the parallel sort (locust_table_widget.cpp:1767-1781):
      `n / 4` entries each, the last taking the remainder. */
  function ChunkBounds(n: nat): (b: seq<(int, int)>)
    ensures |b| == ThreadCount
    ensures b[0].0 == 0 && b[3].1 == n
    ensures forall j :: 0 <= j < 3 ==> b[j].1 == b[j + 1].0
    ensures forall j :: 0 <= j < 4 ==> 0 <= b[j].0 <= b[j].1 <= n
    ensures Apart(b)
  {
    var cs := n / ThreadCount;
    [(0, cs), (cs, 2 * cs), (2 * cs, 3 * cs), (3 * cs, n)]
  }

  /** Bands `[lo, hi)` in ascending order, no two overlapping. */
  predicate Apart(b: seq<(int, int)>) {
    forall j, k :: 0 <= j < k < |b| ==> b[j].1 <= b[k].0
  }

  /** `[a, c)` is `[a, b)` followed by `[b, c)`. */
  lemma RangeSplit(a: int, b: int, c: int)
    requires a <= b <= c
    ensures Range(a, c) == Range(a, b) + Range(b, c)
  {
    assert forall i :: 0 <= i < c - a ==> Range(a, c)[i] == (Range(a, b) + Range(b, c))[i];
  }

  /** `s[i..k]` is `s[i..j]` followed by `s[j..k]`. */
  lemma SliceSplit(s: seq<int>, i: int, j: int, k: int)
    requires 0 <= i <= j <= k <= |s|
    ensures multiset(s[i..k]) == multiset(s[i..j]) + multiset(s[j..k])
  {
    assert s[i..k] == s[i..j] + s[j..k];
  }

  function TotalLength(cs: seq<seq<int>>): nat {
    if cs == [] then 0 else |cs[0]| + TotalLength(cs[1..])
  }

  /** All elements of all chunks, counted with multiplicity. */
  function FlatMultiset(cs: seq<seq<int>>): multiset<int> {
    if cs == [] then multiset{} else multiset(cs[0]) + FlatMultiset(cs[1..])
  }

  predicate ChunksSorted(order: Order, keys: int -> Option<int>, cs: seq<seq<int>>) {
    forall j :: 0 <= j < |cs| ==> Sorted(order, keys, cs[j])
  }

  lemma FourChunks(cs: seq<seq<int>>)
    requires |cs| == 4
    ensures TotalLength(cs) == |cs[0]| + |cs[1]| + |cs[2]| + |cs[3]|
    ensures FlatMultiset(cs) == multiset(cs[0]) + multiset(cs[1]) + multiset(cs[2]) + multiset(cs[3])
  {
    var c1 := cs[1..];
    var c2 := c1[1..];
    var c3 := c2[1..];
    var c4 := c3[1..];
    assert c1[0] == cs[1] && c2[0] == cs[2] && c3[0] == cs[3] && c4 == [];
    assert TotalLength(c3) == |cs[3]| + TotalLength(c4);
    assert TotalLength(c2) == |cs[2]| + TotalLength(c3);
    assert TotalLength(c1) == |cs[1]| + TotalLength(c2);
    assert FlatMultiset(c3) == multiset(cs[3]) + FlatMultiset(c4);
    assert FlatMultiset(c2) == multiset(cs[2]) + FlatMultiset(c3);
    assert FlatMultiset(c1) == multiset(cs[1]) + FlatMultiset(c2);
  }

  /** The four chunks of `s`, each sorted on its own
      (locust_table_widget.cpp:1767-1786). */
  function SortedChunks(order: Order, keys: int -> Option<int>, s: seq<int>): (cs: seq<seq<int>>)
    ensures |cs| == 4
    ensures ChunksSorted(order, keys, cs)
    ensures var b := ChunkBounds(|s|); forall j :: 0 <= j < 4 ==> |cs[j]| == b[j].1 - b[j].0
    ensures TotalLength(cs) == |s| && FlatMultiset(cs) == multiset(s)
  {
    var b := ChunkBounds(|s|);
    var c0, c1, c2, c3 := SortedChunk(order, keys, s, 0), SortedChunk(order, keys, s, 1),
                          SortedChunk(order, keys, s, 2), SortedChunk(order, keys, s, 3);
    var cs := [c0, c1, c2, c3];
    FourChunks(cs);
    ChunkSlices(s);
    FourSorted(order, keys, c0, c1, c2, c3);
    FourLengths(b, c0, c1, c2, c3);
    assert cs[0] == c0 && cs[1] == c1 && cs[2] == c2 && cs[3] == c3;
    assert FlatMultiset(cs) == multiset(c0) + multiset(c1) + multiset(c2) + multiset(c3);
    cs
  }

  lemma FourSorted(order: Order, keys: int -> Option<int>, c0: seq<int>, c1: seq<int>, c2: seq<int>, c3: seq<int>)
    requires Sorted(order, keys, c0) && Sorted(order, keys, c1) && Sorted(order, keys, c2) && Sorted(order, keys, c3)
    ensures ChunksSorted(order, keys, [c0, c1, c2, c3])
  {
    var cs := [c0, c1, c2, c3];
    forall j | 0 <= j < 4 ensures Sorted(order, keys, cs[j]) {
      if j == 0 { assert cs[j] == c0; }
      else if j == 1 { assert cs[j] == c1; }
      else if j == 2 { assert cs[j] == c2; }
      else { assert cs[j] == c3; }
    }
  }

  lemma FourLengths(b: seq<(int, int)>, c0: seq<int>, c1: seq<int>, c2: seq<int>, c3: seq<int>)
    requires |b| == 4
    requires |c0| == b[0].1 - b[0].0 && |c1| == b[1].1 - b[1].0 && |c2| == b[2].1 - b[2].0 && |c3| == b[3].1 - b[3].0
    ensures forall j :: 0 <= j < 4 ==> |[c0, c1, c2, c3][j]| == b[j].1 - b[j].0
  {
  }

  /** Chunk `j` of `s`, sorted on its own. */
  function SortedChunk(order: Order, keys: int -> Option<int>, s: seq<int>, j: int): (c: seq<int>)
    requires 0 <= j < 4
    ensures var b := ChunkBounds(|s|);
      && |c| == b[j].1 - b[j].0 && Sorted(order, keys, c)
      && multiset(c) == multiset(s[b[j].0..b[j].1])
  {
    var b := ChunkBounds(|s|);
    SortSeq(order, keys, s[b[j].0..b[j].1])
  }

  /** The four chunks of `s` hold its elements between them. */
  lemma ChunkSlices(s: seq<int>)
    ensures var b := ChunkBounds(|s|);
      multiset(s) == multiset(s[b[0].0..b[0].1]) + multiset(s[b[1].0..b[1].1])
                     + multiset(s[b[2].0..b[2].1]) + multiset(s[b[3].0..b[3].1])
  {
    var b := ChunkBounds(|s|);
    SliceSplit(s, 0, b[0].1, b[1].1);
    SliceSplit(s, 0, b[1].1, b[2].1);
    SliceSplit(s, 0, b[2].1, |s|);
    assert s[0..|s|] == s;
  }

  lemma {:induction false} FlatUpdate(cs: seq<seq<int>>, b: int, t: seq<int>)
    requires 0 <= b < |cs|
    ensures FlatMultiset(cs[b := t]) + multiset(cs[b]) == FlatMultiset(cs) + multiset(t)
    ensures TotalLength(cs[b := t]) + |cs[b]| == TotalLength(cs) + |t|
  {
    var u := cs[b := t];
    if b > 0 {
      FlatUpdate(cs[1..], b - 1, t);
      assert u[1..] == cs[1..][b - 1 := t];
      assert u[0] == cs[0] && cs[1..][b - 1] == cs[b];
      calc {
        FlatMultiset(u) + multiset(cs[b]);
        multiset(cs[0]) + FlatMultiset(cs[1..][b - 1 := t]) + multiset(cs[b]);
        multiset(cs[0]) + (FlatMultiset(cs[1..][b - 1 := t]) + multiset(cs[1..][b - 1]));
        multiset(cs[0]) + (FlatMultiset(cs[1..]) + multiset(t));
        FlatMultiset(cs) + multiset(t);
      }
    } else {
      assert u[1..] == cs[1..];
    }
  }

  lemma {:induction false} EmptyWhenNoLength(cs: seq<seq<int>>)
    ensures TotalLength(cs) == 0 <==> forall j :: 0 <= j < |cs| ==> cs[j] == []
    ensures TotalLength(cs) == 0 ==> FlatMultiset(cs) == multiset{}
  {
    if cs != [] {
      EmptyWhenNoLength(cs[1..]);
      assert forall j :: 0 < j < |cs| ==> cs[j] == cs[1..][j - 1];
    }
  }

  /** The inner loop of the merge (locust_table_widget.cpp:1791-1807) from
      chunk `j` on, with `best` the chunk holding the least head so far
      (-1 for none): empty chunks are skipped, the first non-empty one is
      taken, and a later one replaces it only when its head is strictly
      less. */
  function PickFrom(order: Order, keys: int -> Option<int>, cs: seq<seq<int>>, j: nat, best: int): (b: int)
    requires -1 <= best < |cs| && j <= |cs|
    requires best >= 0 ==> cs[best] != []
    requires best >= 0 ==> forall k :: 0 <= k < j && cs[k] != [] ==> !Less(order, keys, cs[k][0], cs[best][0])
    requires best < 0 ==> forall k :: 0 <= k < j ==> cs[k] == []
    ensures -1 <= b < |cs|
    ensures b == -1 <==> forall k :: 0 <= k < |cs| ==> cs[k] == []
    ensures b >= 0 ==> cs[b] != [] && forall k :: 0 <= k < |cs| && cs[k] != [] ==> !Less(order, keys, cs[k][0], cs[b][0])
    decreases |cs| - j
  {
    if j == |cs| then best
    else if cs[j] == [] then PickFrom(order, keys, cs, j + 1, best)
    else if best == -1 then PickFrom(order, keys, cs, j + 1, j)
    else if Less(order, keys, cs[j][0], cs[best][0]) then
      assert forall k :: 0 <= k < j && cs[k] != [] ==> !Less(order, keys, cs[k][0], cs[j][0]) by {
        forall k | 0 <= k < j && cs[k] != [] ensures !Less(order, keys, cs[k][0], cs[j][0]) {
          LessIsStrictWeakOrder(order, keys, cs[k][0], cs[j][0], cs[best][0]);
        }
      }
      PickFrom(order, keys, cs, j + 1, j)
    else PickFrom(order, keys, cs, j + 1, best)
  }

  /** The chunk the next merged element comes from: one whose head no
      other head is less than, or -1 once all are used up. */
  function Pick(order: Order, keys: int -> Option<int>, cs: seq<seq<int>>): (b: int)
    ensures -1 <= b < |cs|
    ensures b == -1 <==> forall k :: 0 <= k < |cs| ==> cs[k] == []
    ensures b >= 0 ==> cs[b] != []
  {
    PickFrom(order, keys, cs, 0, -1)
  }

  lemma PickIsLeast(order: Order, keys: int -> Option<int>, cs: seq<seq<int>>, k: int)
    requires Pick(order, keys, cs) >= 0 && 0 <= k < |cs| && cs[k] != []
    ensures !Less(order, keys, cs[k][0], cs[Pick(order, keys, cs)][0])
  {
  }

  /** Taking the head of chunk `b` leaves one element fewer. */
  lemma {:induction false} TakeHead(cs: seq<seq<int>>, b: int)
    requires 0 <= b < |cs| && cs[b] != []
    ensures TotalLength(cs[b := cs[b][1..]]) + 1 == TotalLength(cs)
    ensures FlatMultiset(cs[b := cs[b][1..]]) + multiset{cs[b][0]} == FlatMultiset(cs)
  {
    var tail := cs[b][1..];
    var rest := cs[b := tail];
    FlatUpdate(cs, b, tail);
    assert cs[b] == [cs[b][0]] + tail;
    assert multiset(cs[b]) == multiset(tail) + multiset{cs[b][0]};
    forall x ensures (FlatMultiset(rest) + multiset{cs[b][0]})[x] == FlatMultiset(cs)[x] {
      assert (FlatMultiset(rest) + multiset(cs[b]))[x] == (FlatMultiset(cs) + multiset(tail))[x];
    }
  }

  /** No element of any chunk is less than `h`. */
  predicate Bounded(order: Order, keys: int -> Option<int>, cs: seq<seq<int>>, h: int) {
    forall j, p :: 0 <= j < |cs| && 0 <= p < |cs[j]| ==> !Less(order, keys, cs[j][p], h)
  }

  /** The merge loop (locust_table_widget.cpp:1790-1810) taking chunk heads
      in turn, least first, until every chunk is used up. */
  function MergeChunks(order: Order, keys: int -> Option<int>, cs: seq<seq<int>>): (r: seq<int>)
    ensures |r| == TotalLength(cs)
    ensures multiset(r) == FlatMultiset(cs)
    decreases TotalLength(cs)
  {
    var b := Pick(order, keys, cs);
    if b == -1 then
      EmptyWhenNoLength(cs);
      []
    else
      TakeHead(cs, b);
      [cs[b][0]] + MergeChunks(order, keys, cs[b := cs[b][1..]])
  }

  /** Whatever bounds every chunk bounds every element of the merge. */
  lemma {:induction false} MergeBounded(order: Order, keys: int -> Option<int>, cs: seq<seq<int>>, h: int)
    requires Bounded(order, keys, cs, h)
    ensures forall z :: z in MergeChunks(order, keys, cs) ==> !Less(order, keys, z, h)
    decreases TotalLength(cs)
  {
    var b := Pick(order, keys, cs);
    if b != -1 {
      var rest := cs[b := cs[b][1..]];
      TakeHead(cs, b);
      assert Bounded(order, keys, rest, h) by {
        forall j, p | 0 <= j < |rest| && 0 <= p < |rest[j]| ensures !Less(order, keys, rest[j][p], h) {
          if j == b {
            assert rest[j][p] == cs[b][p + 1];
          }
        }
      }
      MergeBounded(order, keys, rest, h);
    }
  }

  /** Nothing left in the chunks is less than the head just taken. */
  lemma {:induction false} RestBoundedByHead(order: Order, keys: int -> Option<int>, cs: seq<seq<int>>, b: int)
    requires ChunksSorted(order, keys, cs)
    requires Pick(order, keys, cs) == b && b >= 0
    ensures Bounded(order, keys, cs[b := cs[b][1..]], cs[b][0])
  {
    var h := cs[b][0];
    var rest := cs[b := cs[b][1..]];
    forall j, p | 0 <= j < |rest| && 0 <= p < |rest[j]| ensures !Less(order, keys, rest[j][p], h) {
      var z := rest[j][p];
      if j == b {
        assert z == cs[b][p + 1];
        assert Sorted(order, keys, cs[b]);
      } else {
        assert z == cs[j][p] && cs[j] != [];
        PickIsLeast(order, keys, cs, j);
        if p > 0 {
          assert Sorted(order, keys, cs[j]);
          LessIsStrictWeakOrder(order, keys, z, cs[j][0], h);
        }
      }
    }
  }

  lemma {:induction false} TailsStaySorted(order: Order, keys: int -> Option<int>, cs: seq<seq<int>>, b: int)
    requires ChunksSorted(order, keys, cs) && 0 <= b < |cs| && cs[b] != []
    ensures ChunksSorted(order, keys, cs[b := cs[b][1..]])
  {
    var rest := cs[b := cs[b][1..]];
    forall j | 0 <= j < |rest| ensures Sorted(order, keys, rest[j]) {
      if j == b {
        assert Sorted(order, keys, cs[b]);
        forall p, q | 0 <= p < q < |rest[j]| ensures !Less(order, keys, rest[j][q], rest[j][p]) {
          assert rest[j][p] == cs[b][p + 1] && rest[j][q] == cs[b][q + 1];
        }
      }
    }
  }

  /** Merging chunks that are each sorted gives a sorted list. */
  lemma {:induction false} MergeSorted(order: Order, keys: int -> Option<int>, cs: seq<seq<int>>)
    requires ChunksSorted(order, keys, cs)
    ensures Sorted(order, keys, MergeChunks(order, keys, cs))
    decreases TotalLength(cs)
  {
    var b := Pick(order, keys, cs);
    if b != -1 {
      var h := cs[b][0];
      var rest := cs[b := cs[b][1..]];
      TakeHead(cs, b);
      TailsStaySorted(order, keys, cs, b);
      MergeSorted(order, keys, rest);
      RestBoundedByHead(order, keys, cs, b);
      MergeBounded(order, keys, rest, h);
      var m := MergeChunks(order, keys, rest);
      assert MergeChunks(order, keys, cs) == [h] + m;
      HeadOnSorted(order, keys, h, m);
    }
  }

  /** A sorted list stays sorted with a head that nothing in it is less
      than. */
  lemma HeadOnSorted(order: Order, keys: int -> Option<int>, h: int, m: seq<int>)
    requires Sorted(order, keys, m)
    requires forall z :: z in m ==> !Less(order, keys, z, h)
    ensures Sorted(order, keys, [h] + m)
  {
    forall i, j | 0 <= i < j < |[h] + m| ensures !Less(order, keys, ([h] + m)[j], ([h] + m)[i]) {
      if i > 0 {
        assert ([h] + m)[j] == m[j - 1] && ([h] + m)[i] == m[i - 1];
      } else {
        assert m[j - 1] in m;
      }
    }
  }

  /** The parallel branch with the merge comparing the entries: each chunk
      sorted, then merged into a sorted permutation of the accepted rows. */
  function LargeSort(order: Order, keys: int -> Option<int>, acc: seq<int>): (r: seq<int>)
    ensures multiset(r) == multiset(acc) && |r| == |acc|
    ensures Sorted(order, keys, r)
  {
    var cs := SortedChunks(order, keys, acc);
    MergeSorted(order, keys, cs);
    MergeChunks(order, keys, cs)
  }

  /** Whether the sort column exists (locust_table_widget.cpp:1647). */
  predicate NeedSort(sortColumn: int, columnCount: int) {
    0 <= sortColumn < columnCount
  }

  lemma SameElements(r: seq<int>, s: seq<int>)
    requires multiset(r) == multiset(s)
    ensures forall x :: x in r <==> x in s
  {
    forall x ensures x in r <==> x in s {
      assert x in r <==> x in multiset(r);
      assert x in s <==> x in multiset(s);
    }
  }

  /** `_sort`: the accepted rows of [0, count), left in ascending order
      without a valid sort column, otherwise ordered by the comparator;
      the parallel branch merges by entry. */
  function Sort(count: int, sortColumn: int, columnCount: int, order: Order,
                keys: int -> Option<int>, accept: int -> bool): (r: seq<int>)
    ensures multiset(r) == multiset(Accepted(count, accept))
    ensures forall x :: x in r <==> 0 <= x < count && accept(x)
    ensures !NeedSort(sortColumn, columnCount) ==> r == Accepted(count, accept)
    ensures NeedSort(sortColumn, columnCount) ==> Sorted(order, keys, r)
  {
    var acc := Accepted(count, accept);
    var r :=
      if !NeedSort(sortColumn, columnCount) then acc
      else if |acc| < ParallelThreshold then SortSeq(order, keys, acc)
      else LargeSort(order, keys, acc);
    SameElements(r, acc);
    r
  }

  /** In a strictly increasing list each value occurs at most once. */
  lemma {:induction false} DistinctCountsOnce(s: seq<int>, x: int)
    requires forall i, j :: 0 <= i < j < |s| ==> s[i] < s[j]
    ensures multiset(s)[x] <= 1
  {
    if s != [] {
      assert s == [s[0]] + s[1..];
      DistinctCountsOnce(s[1..], x);
      if s[0] == x {
        assert x !in s[1..];
      }
    }
  }

  /** A permutation of a strictly increasing list has no two equal
      neighbours. */
  lemma {:induction false} NeighboursDiffer(r: seq<int>, s: seq<int>, i: int)
    requires multiset(r) == multiset(s)
    requires forall p, q :: 0 <= p < q < |s| ==> s[p] < s[q]
    requires 0 <= i < |r| - 1
    ensures r[i] != r[i + 1]
  {
    if r[i] == r[i + 1] {
      var x := r[i];
      assert r == r[..i] + [x, x] + r[i + 2..];
      assert multiset(r)[x] >= 2;
      DistinctCountsOnce(s, x);
    }
  }

  /** With every accepted row's value known, the order is strict: each row
      is less than the next, so ties really are broken by index. */
  lemma {:induction false} SortIsStrictWhenKeysKnown(count: int, sortColumn: int, columnCount: int, order: Order,
                                                     keys: int -> Option<int>, accept: int -> bool, i: int)
    requires NeedSort(sortColumn, columnCount)
    requires forall x :: 0 <= x < count && accept(x) ==> keys(x).Some?
    requires 0 <= i < |Sort(count, sortColumn, columnCount, order, keys, accept)| - 1
    ensures var r := Sort(count, sortColumn, columnCount, order, keys, accept);
      Less(order, keys, r[i], r[i + 1])
  {
    var r := Sort(count, sortColumn, columnCount, order, keys, accept);
    var a, b := r[i], r[i + 1];
    assert a in r && b in r;
    assert keys(a).Some? && keys(b).Some?;
    NeighboursDiffer(r, Accepted(count, accept), i);
    KnownKeysTotal(order, keys, a, b);
    assert !Less(order, keys, b, a) by {
      assert Sorted(order, keys, r);
    }
  }

  /** The cache the comparator reads (locust_table_widget.cpp:1661-1664):
      values are stored for accepted rows only; any other row reads as a
      value of unknown type. */
  function CacheAt(keys: int -> Option<int>, accept: int -> bool, count: int): (c: int -> Option<int>)
    ensures forall x :: 0 <= x < count && accept(x) ==> c(x) == keys(x)
  {
    x => if 0 <= x < count && accept(x) then keys(x) else None
  }

  /** The list after each chunk is sorted in place
      (locust_table_widget.cpp:1783-1786). */
  function ChunkSortedList(order: Order, keys: int -> Option<int>, acc: seq<int>): (r: seq<int>)
    ensures |r| == |acc| && multiset(r) == multiset(acc)
    ensures var b := ChunkBounds(|acc|);
      forall k :: 0 <= k < 4 ==>
        Sorted(order, keys, r[b[k].0..b[k].1]) && multiset(r[b[k].0..b[k].1]) == multiset(acc[b[k].0..b[k].1])
  {
    var cs := SortedChunks(order, keys, acc);
    FourChunks(cs);
    var r := cs[0] + cs[1] + cs[2] + cs[3];
    ChunksInPlace(order, keys, acc, r);
    r
  }

  /** Chunk `k` of the list sorted in place is chunk `k` of the input,
      sorted. */
  lemma ChunksInPlace(order: Order, keys: int -> Option<int>, acc: seq<int>, r: seq<int>)
    requires var cs := SortedChunks(order, keys, acc); r == cs[0] + cs[1] + cs[2] + cs[3]
    ensures var b := ChunkBounds(|acc|);
      forall k :: 0 <= k < 4 ==>
        Sorted(order, keys, r[b[k].0..b[k].1]) && multiset(r[b[k].0..b[k].1]) == multiset(acc[b[k].0..b[k].1])
  {
    var b := ChunkBounds(|acc|);
    var c0, c1, c2, c3 := SortedChunk(order, keys, acc, 0), SortedChunk(order, keys, acc, 1),
                          SortedChunk(order, keys, acc, 2), SortedChunk(order, keys, acc, 3);
    assert r == c0 + c1 + c2 + c3;
    SlicesOfFour(c0, c1, c2, c3, b);
  }

  /** Four lists laid end to end over contiguous bands from 0: band `k`
      of the whole is list `k`. */
  lemma SlicesOfFour(c0: seq<int>, c1: seq<int>, c2: seq<int>, c3: seq<int>, b: seq<(int, int)>)
    requires |b| == 4 && b[0].0 == 0 && b[0].1 == b[1].0 && b[1].1 == b[2].0 && b[2].1 == b[3].0
    requires |c0| == b[0].1 - b[0].0 && |c1| == b[1].1 - b[1].0 && |c2| == b[2].1 - b[2].0 && |c3| == b[3].1 - b[3].0
    ensures var r := c0 + c1 + c2 + c3;
      && r[b[0].0..b[0].1] == c0 && r[b[1].0..b[1].1] == c1
      && r[b[2].0..b[2].1] == c2 && r[b[3].0..b[3].1] == c3
  {
    var r := c0 + c1 + c2 + c3;
    assert r[b[0].0..b[0].1] == c0;
    assert r[b[1].0..b[1].1] == c1;
    assert r[b[2].0..b[2].1] == c2;
    assert r[b[3].0..b[3].1] == c3;
  }

  /** The positions [0, n) cut into the four chunks. */
  function PositionChunks(n: nat): (cs: seq<seq<int>>)
    ensures |cs| == 4 && TotalLength(cs) == n
    ensures forall j, p :: 0 <= j < |cs| && 0 <= p < |cs[j]| ==> 0 <= cs[j][p] < n
    ensures FlatMultiset(cs) == multiset(Range(0, n))
    ensures Banded(cs, ChunkBounds(n))
  {
    var b := ChunkBounds(n);
    var cs := [Range(b[0].0, b[0].1), Range(b[1].0, b[1].1), Range(b[2].0, b[2].1), Range(b[3].0, b[3].1)];
    FourChunks(cs);
    RangesTile(b, n);
    RangesBanded(b);
    cs
  }

  /** The four position ranges together are `[0, n)`. */
  lemma RangesTile(b: seq<(int, int)>, n: nat)
    requires b == ChunkBounds(n)
    ensures var cs := [Range(b[0].0, b[0].1), Range(b[1].0, b[1].1), Range(b[2].0, b[2].1), Range(b[3].0, b[3].1)];
      FlatMultiset(cs) == multiset(Range(0, n))
  {
    var cs := [Range(b[0].0, b[0].1), Range(b[1].0, b[1].1), Range(b[2].0, b[2].1), Range(b[3].0, b[3].1)];
    FourChunks(cs);
    RangeSplit(0, b[0].1, b[1].1);
    RangeSplit(0, b[1].1, b[2].1);
    RangeSplit(0, b[2].1, n);
    assert Range(0, n) == cs[0] + cs[1] + cs[2] + cs[3];
  }

  /** Each position range lies in its own band, ascending. */
  lemma RangesBanded(b: seq<(int, int)>)
    requires |b| == 4
    ensures Banded([Range(b[0].0, b[0].1), Range(b[1].0, b[1].1), Range(b[2].0, b[2].1), Range(b[3].0, b[3].1)], b)
  {
    var cs := [Range(b[0].0, b[0].1), Range(b[1].0, b[1].1), Range(b[2].0, b[2].1), Range(b[3].0, b[3].1)];
    assert forall j :: 0 <= j < 4 ==> cs[j] == Range(b[j].0, b[j].1);
  }

  /** Each chunk lies in its own band and is strictly increasing. */
  predicate Banded(cs: seq<seq<int>>, b: seq<(int, int)>) {
    && |cs| == |b|
    && (forall j, p :: 0 <= j < |cs| && 0 <= p < |cs[j]| ==> b[j].0 <= cs[j][p] < b[j].1)
    && (forall j, p, q :: 0 <= j < |cs| && 0 <= p < q < |cs[j]| ==> cs[j][p] < cs[j][q])
  }

  /** An element of the chunks is in one of them. */
  lemma {:induction false} InSomeChunk(cs: seq<seq<int>>, x: int) returns (j: int, p: int)
    requires x in FlatMultiset(cs)
    ensures 0 <= j < |cs| && 0 <= p < |cs[j]| && cs[j][p] == x
  {
    if x in multiset(cs[0]) {
      assert x in cs[0];
      j := 0;
      p :| 0 <= p < |cs[0]| && cs[0][p] == x;
    } else {
      var j', p' := InSomeChunk(cs[1..], x);
      j, p := j' + 1, p';
    }
  }

  /** An element of banded chunks that lies in band `k` is in chunk `k`
      past its head when the head came out first. */
  lemma AfterHeadInBand(cs: seq<seq<int>>, b: seq<(int, int)>, k: int, x: int)
    requires Banded(cs, b) && Apart(b) && 0 <= k < |cs| && cs[k] != []
    requires x in FlatMultiset(cs[k := cs[k][1..]]) && b[k].0 <= x < b[k].1
    ensures cs[k][0] < x
  {
    var rest := cs[k := cs[k][1..]];
    var j, p := InSomeChunk(rest, x);
    assert x == cs[k][p + 1];
  }

  /** The merge keeps each band's elements in their chunk's order,
      whatever the comparator says. */
  /** Any two elements of `r` in the same band come in ascending order. */
  predicate BandOrdered(r: seq<int>, b: seq<(int, int)>) {
    forall x, y, k :: 0 <= x < y < |r| && 0 <= k < |b| && b[k].0 <= r[x] < b[k].1 && b[k].0 <= r[y] < b[k].1 ==> r[x] < r[y]
  }

  lemma {:induction false} MergeKeepsBands(order: Order, keys: int -> Option<int>, cs: seq<seq<int>>, b: seq<(int, int)>)
    requires Banded(cs, b) && Apart(b)
    ensures BandOrdered(MergeChunks(order, keys, cs), b)
    decreases TotalLength(cs)
  {
    var h := Pick(order, keys, cs);
    if h != -1 {
      var rest := cs[h := cs[h][1..]];
      TakeHead(cs, h);
      BandedTail(cs, b, h);
      MergeKeepsBands(order, keys, rest, b);
      var m := MergeChunks(order, keys, rest);
      assert MergeChunks(order, keys, cs) == [cs[h][0]] + m;
      HeadThenBandOrdered(cs, b, h, m);
    }
  }

  /** Taking a head first and then a band-ordered merge of the rest keeps
      the bands in order. */
  lemma HeadThenBandOrdered(cs: seq<seq<int>>, b: seq<(int, int)>, h: int, m: seq<int>)
    requires Banded(cs, b) && Apart(b) && 0 <= h < |cs| && cs[h] != []
    requires multiset(m) == FlatMultiset(cs[h := cs[h][1..]]) && BandOrdered(m, b)
    ensures BandOrdered([cs[h][0]] + m, b)
  {
    forall i, k | 0 <= i < |m| && 0 <= k < |b| && b[k].0 <= cs[h][0] < b[k].1 && b[k].0 <= m[i] < b[k].1
      ensures cs[h][0] < m[i]
    {
      HeadFirstInBand(cs, b, h, k, m, i);
    }
    ConsBandOrdered(cs[h][0], m, b);
  }

  /** A head below every later element of its band keeps the bands in
      order. */
  lemma ConsBandOrdered(z: int, m: seq<int>, b: seq<(int, int)>)
    requires BandOrdered(m, b)
    requires forall i, k :: 0 <= i < |m| && 0 <= k < |b| && b[k].0 <= z < b[k].1 && b[k].0 <= m[i] < b[k].1 ==> z < m[i]
    ensures BandOrdered([z] + m, b)
  {
    var r := [z] + m;
    forall x, y, k | 0 <= x < y < |r| && 0 <= k < |b| && b[k].0 <= r[x] < b[k].1 && b[k].0 <= r[y] < b[k].1
      ensures r[x] < r[y]
    {
      assert r[y] == m[y - 1];
      if x > 0 {
        assert r[x] == m[x - 1];
      }
    }
  }

  /** Dropping the head of a chunk keeps the chunks banded. */
  lemma BandedTail(cs: seq<seq<int>>, b: seq<(int, int)>, h: int)
    requires Banded(cs, b) && 0 <= h < |cs| && cs[h] != []
    ensures Banded(cs[h := cs[h][1..]], b)
  {
    var rest := cs[h := cs[h][1..]];
    forall j, p | 0 <= j < |rest| && 0 <= p < |rest[j]| ensures b[j].0 <= rest[j][p] < b[j].1 {
      if j == h { assert rest[j][p] == cs[h][p + 1]; }
    }
    forall j, p, q | 0 <= j < |rest| && 0 <= p < q < |rest[j]| ensures rest[j][p] < rest[j][q] {
      if j == h { assert rest[j][p] == cs[h][p + 1] && rest[j][q] == cs[h][q + 1]; }
    }
  }

  /** A head taken first from chunk `h` precedes every later element of
      its band `k` in value. */
  lemma HeadFirstInBand(cs: seq<seq<int>>, b: seq<(int, int)>, h: int, k: int, m: seq<int>, i: int)
    requires Banded(cs, b) && Apart(b) && 0 <= h < |cs| && cs[h] != [] && 0 <= k < |b|
    requires multiset(m) == FlatMultiset(cs[h := cs[h][1..]]) && 0 <= i < |m|
    requires b[k].0 <= cs[h][0] < b[k].1 && b[k].0 <= m[i] < b[k].1
    ensures cs[h][0] < m[i]
  {
    assert b[h].0 <= cs[h][0] < b[h].1;
    assert m[i] in multiset(m);
    AfterHeadInBand(cs, b, h, m[i]);
  }

  /** A list read at the given positions, in their order. */
  function Gather(s: seq<int>, ps: seq<int>): (r: seq<int>)
    requires forall i :: 0 <= i < |ps| ==> 0 <= ps[i] < |s|
    ensures |r| == |ps| && forall i :: 0 <= i < |ps| ==> r[i] == s[ps[i]]
  {
    seq(|ps|, i requires 0 <= i < |ps| => s[ps[i]])
  }

  /** Reading a list at two permutations of the same positions gives the
      same elements. */
  lemma {:induction false} GatherPermuted(s: seq<int>, ps: seq<int>, qs: seq<int>)
    requires forall i :: 0 <= i < |ps| ==> 0 <= ps[i] < |s|
    requires forall i :: 0 <= i < |qs| ==> 0 <= qs[i] < |s|
    requires multiset(ps) == multiset(qs)
    ensures multiset(Gather(s, ps)) == multiset(Gather(s, qs))
    decreases |ps|
  {
    if ps == [] {
      assert |qs| == |multiset(qs)| == 0;
      assert Gather(s, qs) == [] == Gather(s, ps);
    } else {
      var x := ps[0];
      assert x in multiset(qs);
      var k :| 0 <= k < |qs| && qs[k] == x;
      var rest := Without(qs, k);
      GatherWithout(s, qs, k);
      var tail := ps[1..];
      TailWithout(s, ps, qs, k);
      GatherPermuted(s, tail, rest);
      GatherCons(s, ps);
      var m := multiset(Gather(s, rest)) + multiset{s[x]};
      assert multiset(Gather(s, ps)) == m;
      assert multiset(Gather(s, qs)) == m;
    }
  }

  /** Dropping the head of `ps` and the same element from `qs` keeps
      them permutations of each other. */
  lemma TailWithout(s: seq<int>, ps: seq<int>, qs: seq<int>, k: int)
    requires forall i :: 0 <= i < |ps| ==> 0 <= ps[i] < |s|
    requires multiset(ps) == multiset(qs) && ps != [] && 0 <= k < |qs| && qs[k] == ps[0]
    ensures forall i :: 0 <= i < |ps| - 1 ==> 0 <= ps[1..][i] < |s|
    ensures multiset(ps[1..]) == multiset(Without(qs, k))
  {
    assert ps == [ps[0]] + ps[1..];
    assert multiset(ps) == multiset{ps[0]} + multiset(ps[1..]);
  }

  lemma GatherCons(s: seq<int>, ps: seq<int>)
    requires forall i :: 0 <= i < |ps| ==> 0 <= ps[i] < |s|
    requires ps != []
    ensures multiset(Gather(s, ps)) == multiset(Gather(s, ps[1..])) + multiset{s[ps[0]]}
  {
    assert Gather(s, ps) == [s[ps[0]]] + Gather(s, ps[1..]);
  }

  /** `qs` without its entry at `k`. */
  function Without(qs: seq<int>, k: int): (r: seq<int>)
    requires 0 <= k < |qs|
    ensures |r| == |qs| - 1
    ensures multiset(r) == multiset(qs) - multiset{qs[k]}
    ensures forall i :: 0 <= i < |r| ==> r[i] == if i < k then qs[i] else qs[i + 1]
  {
    assert qs == qs[..k] + [qs[k]] + qs[k + 1..];
    qs[..k] + qs[k + 1..]
  }

  /** Reading at `qs` is reading at `qs` without entry `k`, plus that
      entry's element. */
  lemma GatherWithout(s: seq<int>, qs: seq<int>, k: int)
    requires forall i :: 0 <= i < |qs| ==> 0 <= qs[i] < |s|
    requires 0 <= k < |qs|
    ensures forall i :: 0 <= i < |qs| - 1 ==> 0 <= Without(qs, k)[i] < |s|
    ensures multiset(Gather(s, qs)) == multiset(Gather(s, Without(qs, k))) + multiset{s[qs[k]]}
  {
    var g := Gather(s, qs);
    var w := Gather(s, Without(qs, k));
    assert g == g[..k] + [s[qs[k]]] + g[k + 1..];
    assert w == g[..k] + g[k + 1..];
  }

  /** Reading a list at a permutation of all its positions permutes it. */
  lemma ReadAllPositions(s: seq<int>, ps: seq<int>)
    requires multiset(ps) == multiset(Range(0, |s|))
    ensures forall i :: 0 <= i < |ps| ==> 0 <= ps[i] < |s|
    ensures multiset(Gather(s, ps)) == multiset(s)
  {
    forall i | 0 <= i < |ps| ensures 0 <= ps[i] < |s| {
      assert ps[i] in multiset(Range(0, |s|));
    }
    GatherPermuted(s, ps, Range(0, |s|));
    assert Gather(s, Range(0, |s|)) == s;
  }

  /** The order in which the merge as written visits the positions
      [0, n): chunk by chunk, with the positions themselves compared
      through `cache` (locust_table_widget.cpp:1790-1808). */
  function MergedPositions(order: Order, cache: int -> Option<int>, n: nat): (ps: seq<int>)
    ensures |ps| == n
    ensures forall i :: 0 <= i < n ==> 0 <= ps[i] < n
    ensures multiset(ps) == multiset(Range(0, n))
  {
    var cs := PositionChunks(n);
    var ps := MergeChunks(order, cache, cs);
    MergedInBounds(ps, cs, n);
    ps
  }

  /** Whatever the cache says, the merge as written takes each chunk's
      positions in ascending order: it interleaves the four chunks and
      keeps each in its own order. */
  lemma MergedPositionsKeepChunkOrder(order: Order, cache: int -> Option<int>, n: nat)
    ensures BandOrdered(MergedPositions(order, cache, n), ChunkBounds(n))
  {
    MergeKeepsBands(order, cache, PositionChunks(n), ChunkBounds(n));
  }

  lemma MergedInBounds(ps: seq<int>, cs: seq<seq<int>>, n: int)
    requires forall j, p :: 0 <= j < |cs| && 0 <= p < |cs[j]| ==> 0 <= cs[j][p] < n
    requires multiset(ps) == FlatMultiset(cs)
    ensures forall i :: 0 <= i < |ps| ==> 0 <= ps[i] < n
  {
    forall i | 0 <= i < |ps| ensures 0 <= ps[i] < n {
      assert ps[i] in multiset(ps);
      RangesInBounds(cs, n, ps[i]);
    }
  }

  /** The parallel branch as written (locust_table_widget.cpp:1767-1811):
      the merge compares the positions of the chunk-sorted list through
      the cache instead of the rows stored there, and the result is sized
      `count` rather than the number of accepted rows, so the tail is
      filled with row 0. */
  function LargeSortAsWritten(order: Order, keys: int -> Option<int>, accept: int -> bool,
                              count: int, acc: seq<int>): (r: seq<int>)
    requires |acc| <= count
    ensures |r| == count
    ensures multiset(r[..|acc|]) == multiset(acc)
    ensures forall i :: |acc| <= i < count ==> r[i] == 0
  {
    var sorted := ChunkSortedList(order, keys, acc);
    var cache := CacheAt(keys, accept, count);
    var positions := MergedPositions(order, cache, |acc|);
    AsWrittenPrefix(sorted, positions, count);
    ReadAt(sorted, positions, count)
  }

  /** The first `|acc|` entries of the parallel branch as written
      interleave the four chunks, each sorted in place, and take each
      chunk's entries in that chunk's order. */
  lemma LargeSortAsWrittenInterleavesChunks(order: Order, keys: int -> Option<int>, accept: int -> bool,
                                            count: int, acc: seq<int>)
    requires |acc| <= count
    ensures var r := LargeSortAsWritten(order, keys, accept, count, acc);
      var sorted := ChunkSortedList(order, keys, acc);
      var ps := MergedPositions(order, CacheAt(keys, accept, count), |acc|);
      var b := ChunkBounds(|acc|);
      && (forall i :: 0 <= i < |acc| ==> r[i] == sorted[ps[i]])
      && BandOrdered(ps, b)
      && (forall k :: 0 <= k < 4 ==> Sorted(order, keys, sorted[b[k].0..b[k].1]))
  {
    MergedPositionsKeepChunkOrder(order, CacheAt(keys, accept, count), |acc|);
  }

  /** The first `|s|` entries of `ret` are `s` read at a permutation of
      its positions. */
  lemma AsWrittenPrefix(s: seq<int>, positions: seq<int>, count: int)
    requires |positions| == |s| <= count
    requires multiset(positions) == multiset(Range(0, |s|))
    ensures forall i :: 0 <= i < |positions| ==> 0 <= positions[i] < |s|
    ensures multiset(ReadAt(s, positions, count)[..|s|]) == multiset(s)
  {
    ReadAllPositions(s, positions);
    assert ReadAt(s, positions, count)[..|s|] == Gather(s, positions);
  }

  /** `ret`, sized `count`: the list read at each merged position, then
      zeros. */
  function ReadAt(s: seq<int>, positions: seq<int>, count: int): (r: seq<int>)
    requires |positions| <= count
    requires forall i :: 0 <= i < |positions| ==> 0 <= positions[i] < |s|
    ensures |r| == count
    ensures forall i :: 0 <= i < |positions| ==> r[i] == s[positions[i]]
    ensures forall i :: |positions| <= i < count ==> r[i] == 0
  {
    seq(count, i requires 0 <= i < count => if i < |positions| then s[positions[i]] else 0)
  }

  lemma {:induction false} RangesInBounds(cs: seq<seq<int>>, n: int, x: int)
    requires forall j, p :: 0 <= j < |cs| && 0 <= p < |cs[j]| ==> 0 <= cs[j][p] < n
    requires x in FlatMultiset(cs)
    ensures 0 <= x < n
  {
    if cs != [] {
      if x in multiset(cs[0]) {
        assert x in cs[0];
      } else {
        RangesInBounds(cs[1..], n, x);
      }
    }
  }

  /** With fewer accepted rows than rows, the parallel branch as written
      appends copies of row 0, which may not even be accepted. */
  lemma LargeSortAsWrittenPadsWithRowZero(order: Order, keys: int -> Option<int>, accept: int -> bool,
                                          count: int, acc: seq<int>)
    requires |acc| < count
    ensures |LargeSortAsWritten(order, keys, accept, count, acc)| > |acc|
    ensures LargeSortAsWritten(order, keys, accept, count, acc)[count - 1] == 0
  {
  }

  /** The merge as written ordering rows by their positions, for every
      table of at least eight rows, among them every one large enough to
      take the parallel branch: with every row accepted and each row's
      value its own index except row `n / 4 + 1`, which holds the least
      value, the chunk sort moves that row to the front of the second
      chunk, but the merge compares the chunk heads' positions 0, `n / 4`,
      `n / 2` and `3 * n / 4` through the cache, finds position 0 least
      and puts row 0 first. A sort puts some other row first. */
  lemma {:induction false} LargeSortAsWrittenMisorders(n: int)
    requires n >= 8
    ensures var keys := LeastAt(n / 4 + 1);
      var r := LargeSortAsWritten(Ascending, keys, AcceptAll(), n, Accepted(n, AcceptAll()));
      && Accepted(n, AcceptAll()) == seq(n, i => i)
      && r[0] == 0
      && 0 <= n / 4 + 1 < n && Less(Ascending, keys, n / 4 + 1, 0)
      && Sort(n, 0, 1, Ascending, keys, AcceptAll())[0] != 0
  {
    var keys := LeastAt(n / 4 + 1);
    var acc := Accepted(n, AcceptAll());
    AcceptedAll(n);
    ChunkSortStartsAtZero(n);
    MergeStartsAtZero(n);
    AsWrittenEntry(Ascending, keys, AcceptAll(), n, acc, 0);
    SortStartsElsewhere(n);
  }

  /** The corrected sort of the same rows does not start with row 0,
      since a less row is among them. */
  lemma {:induction false} SortStartsElsewhere(n: int)
    requires n >= 8
    ensures Sort(n, 0, 1, Ascending, LeastAt(n / 4 + 1), AcceptAll())[0] != 0
  {
    var keys := LeastAt(n / 4 + 1);
    var r := Sort(n, 0, 1, Ascending, keys, AcceptAll());
    var low := n / 4 + 1;
    assert 0 <= low < n && AcceptAll()(low);
    assert low in r;
    var j :| 0 <= j < |r| && r[j] == low;
    assert Less(Ascending, keys, low, 0);
  }

  /** With every row accepted, the accepted list is `[0, n)`. */
  lemma AcceptedAll(n: int)
    requires n >= 0
    ensures Accepted(n, AcceptAll()) == seq(n, i => i)
  {
    AcceptedEverything(n, AcceptAll());
  }

  lemma {:induction false} AcceptedEverything(n: int, accept: int -> bool)
    requires n >= 0 && forall x :: accept(x)
    ensures Accepted(n, accept) == seq(n, i => i)
  {
    if n > 0 {
      AcceptedEverything(n - 1, accept);
      AcceptedStep(n, accept);
      NextIndex(n);
    }
  }

  lemma AcceptedStep(n: int, accept: int -> bool)
    requires n > 0 && accept(n - 1)
    ensures Accepted(n, accept) == Accepted(n - 1, accept) + [n - 1]
  {
  }

  lemma NextIndex(n: int)
    requires n > 0
    ensures seq(n - 1, i => i) + [n - 1] == seq(n, i => i)
  {
  }

  /** A sorted permutation starts with an element less than all others. */
  lemma {:induction false} SortedStartsWithLeast(order: Order, keys: int -> Option<int>, s: seq<int>, x: int)
    requires x in s
    requires forall y :: y in s && y != x ==> Less(order, keys, x, y)
    ensures SortSeq(order, keys, s)[0] == x
  {
    var c := SortSeq(order, keys, s);
    assert x in multiset(c);
    var k :| 0 <= k < |c| && c[k] == x;
    assert c[0] in multiset(s);
    if k > 0 {
      assert !Less(order, keys, c[k], c[0]);
    }
  }

  /** The first chunk holds rows 0 to `n / 4 - 1`, whose values are their
      indices, so sorting it puts row 0 first. */
  lemma {:induction false} ChunkSortStartsAtZero(n: int)
    requires n >= 8
    ensures ChunkSortedList(Ascending, LeastAt(n / 4 + 1), Accepted(n, AcceptAll()))[0] == 0
  {
    var keys := LeastAt(n / 4 + 1);
    var acc := Accepted(n, AcceptAll());
    AcceptedAll(n);
    var head := acc[0..n / 4];
    PrefixIsRange(acc, n / 4);
    ZeroLeastInPrefix(head, n / 4 + 1);
    SortedStartsWithLeast(Ascending, keys, head, 0);
    FirstChunkFirst(Ascending, keys, acc);
  }

  lemma PrefixIsRange(acc: seq<int>, k: int)
    requires 0 < k <= |acc| && forall i :: 0 <= i < |acc| ==> acc[i] == i
    ensures |acc[0..k]| == k && forall i :: 0 <= i < k ==> acc[0..k][i] == i
  {
  }

  /** In `[0, k)` with `low` not among them, 0 is the least row. */
  lemma ZeroLeastInPrefix(head: seq<int>, low: int)
    requires |head| > 0 && low >= |head|
    requires forall i :: 0 <= i < |head| ==> head[i] == i
    ensures 0 in head
    ensures forall y :: y in head && y != 0 ==> Less(Ascending, LeastAt(low), 0, y)
  {
    assert head[0] == 0;
    forall y | y in head && y != 0 ensures Less(Ascending, LeastAt(low), 0, y) {
      var i :| 0 <= i < |head| && head[i] == y;
    }
  }

  /** The chunk-sorted list begins with the sorted first chunk. */
  lemma {:induction false} FirstChunkFirst(order: Order, keys: int -> Option<int>, acc: seq<int>)
    requires |acc| >= 4
    ensures ChunkSortedList(order, keys, acc)[0] == SortSeq(order, keys, acc[0..|acc| / 4])[0]
  {
    var cs := SortedChunks(order, keys, acc);
    assert cs[0] == SortedChunk(order, keys, acc, 0);
    assert |cs[0]| == |acc| / 4 > 0;
    assert ChunkSortedList(order, keys, acc) == cs[0] + cs[1] + cs[2] + cs[3];
  }

  /** Of the chunk heads' positions, 0, `n / 4`, `n / 2` and `3 * n / 4`,
      read through the cache, position 0 has the least value. */
  lemma {:induction false} MergeStartsAtZero(n: int)
    requires n >= 8
    ensures MergedPositions(Ascending, CacheAt(LeastAt(n / 4 + 1), AcceptAll(), n), n)[0] == 0
  {
    var cache := CacheAt(LeastAt(n / 4 + 1), AcceptAll(), n);
    var cs := PositionChunks(n);
    PositionHeads(n);
    var p := Pick(Ascending, cache, cs);
    PickIsLeast(Ascending, cache, cs, 0);
    assert p == 0 by {
      var c := n / 4;
      assert cache(0) == Some(0);
      assert cache(c) == Some(c) && cache(2 * c) == Some(2 * c) && cache(3 * c) == Some(3 * c);
    }
    MergeHead(Ascending, cache, cs);
  }

  /** The merge starts with the head of the chunk `Pick` chooses. */
  lemma MergeHead(order: Order, keys: int -> Option<int>, cs: seq<seq<int>>)
    requires Pick(order, keys, cs) >= 0
    ensures MergeChunks(order, keys, cs)[0] == cs[Pick(order, keys, cs)][0]
  {
  }

  /** Chunk `j` of the positions starts at `j * (n / 4)`. */
  lemma {:induction false} PositionHeads(n: int)
    requires n >= 8
    ensures var cs := PositionChunks(n);
      && cs[0] != [] && cs[0][0] == 0
      && cs[1] != [] && cs[1][0] == n / 4
      && cs[2] != [] && cs[2][0] == 2 * (n / 4)
      && cs[3] != [] && cs[3][0] == 3 * (n / 4)
  {
    var b := ChunkBounds(n);
    assert PositionChunks(n) == [Range(b[0].0, b[0].1), Range(b[1].0, b[1].1), Range(b[2].0, b[2].1), Range(b[3].0, b[3].1)];
  }

  /** Entry `i` of the parallel branch as written is the chunk-sorted
      list read at the `i`-th merged position. */
  lemma AsWrittenEntry(order: Order, keys: int -> Option<int>, accept: int -> bool,
                       count: int, acc: seq<int>, i: int)
    requires |acc| <= count && 0 <= i < |acc|
    ensures var positions := MergedPositions(order, CacheAt(keys, accept, count), |acc|);
      LargeSortAsWritten(order, keys, accept, count, acc)[i] == ChunkSortedList(order, keys, acc)[positions[i]]
  {
  }

  /** Row `low` holds the least value, -1; every other row its own
      index. */
  function LeastAt(low: int): (keys: int -> Option<int>)
    ensures keys(low) == Some(-1) && forall x :: x != low ==> keys(x) == Some(x)
  {
    x => if x == low then Some(-1) else Some(x)
  }

  /** A filter accepting every row. */
  function AcceptAll(): (accept: int -> bool)
    ensures forall x :: accept(x)
  {
    x => true
  }
}
