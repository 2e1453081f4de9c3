/**
 Deduplicating reduction of sorted lists: mark all but the last of a run of equal keys, then compact.
 The none key is the smallest 32-bit integer, so that a descending list carries it at its end.  The
 cells are generic, so that the histogram can carry a frequency beside each key.
 */
module Reducer {
  import opened Compaction
  import opened Network

  type Int32 = x: int | -0x8000_0000 <= x < 0x8000_0000

  const NONE: Int32 := -0x8000_0000

  /** A cell is live unless its key is none. */
  function Live<T>(key: T -> int): T -> bool {
    x => key(x) != NONE
  }

  function Signed(): Int32 -> int {
    (x: Int32) => x
  }

  // ---- Marking duplicates ----

  /** erase gives a cell the none key and leaves a cell that has it alone. */
  ghost predicate Erases<T(!new)>(key: T -> int, erase: T -> T) {
    forall x {:trigger erase(x)} :: key(erase(x)) == NONE && (key(x) == NONE ==> erase(x) == x)
  }

  /** Every cell whose key equals that of its right neighbour, erased. */
  function Marked<T>(s: seq<T>, key: T -> int, erase: T -> T): (r: seq<T>)
    ensures |r| == |s|
  {
    seq(|s|, i requires 0 <= i < |s| => if i + 1 < |s| && key(s[i]) == key(s[i + 1]) then erase(s[i]) else s[i])
  }

  lemma MarkedCell<T(!new)>(s: seq<T>, key: T -> int, erase: T -> T, i: nat)
    requires i < |s| && Erases(key, erase)
    ensures Marked(s, key, erase)[i] == if i + 1 < |s| && key(s[i]) == key(s[i + 1]) then erase(s[i]) else s[i]
    ensures i + 1 == |s| && i > 0 && key(s[i]) == key(Marked(s, key, erase)[i - 1]) ==> erase(s[i]) == s[i]
  {
    if i > 0 {
      assert key(erase(s[i - 1])) == NONE;
    }
  }

  lemma DistanceStep<T>(m: seq<T>, key: T -> int, i: nat)
    requires i < |m|
    ensures DeadBefore(m, Live(key), i + 1) == DeadBefore(m, Live(key), i) + (if key(m[i]) == NONE then 1 else 0)
    ensures DistanceOf(m, Live(key), i) == if key(m[i]) == NONE then 0 else DeadBefore(m, Live(key), i)
  {
    DeadBeforeStep(m, Live(key), i);
    hide DeadBefore;
  }

  /** Marks duplicates in place and returns the distances of what is left. */
  method ComputeDistanceMarkDuplicates<T(!new)>(list: array<T>, key: T -> int, erase: T -> T)
    returns (distance: array<nat>)
    requires list.Length >= 2 && Erases(key, erase)
    modifies list
    ensures list[..] == Marked(old(list[..]), key, erase)
    ensures fresh(distance) && IsDistance(list[..], Live(key), distance[..])
  {
    hide DeadBefore, DistanceOf, Marked, Live, Erases;
    var size := list.Length;
    distance := new nat[size];
    ghost var s, m := list[..], Marked(list[..], key, erase);
    var countNone := 0;
    DeadBeforeFirst(m, Live(key));
    for i := 0 to size
      invariant forall x :: 0 <= x < i ==> list[x] == m[x]
      invariant forall x :: i <= x < size ==> list[x] == s[x]
      invariant countNone == DeadBefore(m, Live(key), i)
      invariant forall x :: 0 <= x < i ==> distance[x] == DistanceOf(m, Live(key), x)
    {
      DistanceStep(m, key, i);
      MarkedCell(s, key, erase, i);
      if i < size - 1 {
        list[i] := if key(list[i]) == key(list[i + 1]) then erase(list[i]) else list[i];
      }
      distance[i] := if key(list[i]) == NONE then 0 else countNone;
      countNone := countNone + if key(list[i]) == NONE then 1 else 0;
    }
    MarkedCell(s, key, erase, size - 1);
    list[size - 1] := if key(list[size - 1]) == key(list[size - 2]) then erase(list[size - 1]) else list[size - 1];
    assert list[..] == m;
  }

  // ---- Keeping the last of each run ----

  /** Cell i is the last of a run of equal non-none keys. */
  predicate LastOfRun<T>(s: seq<T>, key: T -> int, i: int)
    requires 0 <= i < |s|
  {
    key(s[i]) != NONE && (i + 1 < |s| ==> key(s[i]) != key(s[i + 1]))
  }

  ghost predicate KeepsCell<T>(s: seq<T>, m: seq<T>, key: T -> int, i: int)
    requires 0 <= i < |s| == |m|
  {
    (key(m[i]) != NONE <==> LastOfRun(s, key, i)) && (key(m[i]) != NONE ==> key(m[i]) == key(s[i]))
  }

  /** m keeps, with its key, exactly the last cell of every run of s. */
  ghost predicate KeepsLast<T>(s: seq<T>, m: seq<T>, key: T -> int) {
    |m| == |s| && forall i :: 0 <= i < |s| ==> KeepsCell(s, m, key, i)
  }

  lemma MarkedKeepsLast<T(!new)>(s: seq<T>, key: T -> int, erase: T -> T)
    requires Erases(key, erase)
    ensures KeepsLast(s, Marked(s, key, erase), key)
  {
    forall i | 0 <= i < |s|
      ensures KeepsCell(s, Marked(s, key, erase), key, i)
    {
      assert key(erase(s[i])) == NONE;
    }
  }

  /** The order of two live cells is the order of their ranks. */
  lemma RanksOrdered<T>(s: seq<T>, live: T -> bool, p: nat, q: nat)
    requires p < |s| && q < |s| && p - DeadBefore(s, live, p) < q - DeadBefore(s, live, q)
    ensures p < q
  {
    if q <= p {
      DeadBeforeGrows(s, live, q, p);
    }
    hide DeadBefore;
  }

  lemma {:induction false} LastOccurrence<T>(s: seq<T>, key: T -> int, k: int, i: nat) returns (p: nat)
    requires i < |s| && key(s[i]) == k
    ensures p < |s| && key(s[p]) == k && (p + 1 < |s| ==> key(s[p + 1]) != k)
    decreases |s| - i
  {
    if i + 1 < |s| && key(s[i + 1]) == k {
      p := LastOccurrence(s, key, k, i + 1);
    } else {
      p := i;
    }
  }

  /** The kept cells of a descending list are strictly descending, */
  lemma KeptDescend<T>(s: seq<T>, m: seq<T>, key: T -> int, i: nat, j: nat)
    requires Sorted(s, key, false) && KeepsLast(s, m, key) && i < j < |LiveCells(m, Live(key))|
    ensures key(LiveCells(m, Live(key))[i]) > key(LiveCells(m, Live(key))[j])
  {
    hide LiveCells, DeadBefore;
    var p := RankTaken(m, Live(key), i);
    var q := RankTaken(m, Live(key), j);
    LiveCellRank(m, Live(key), p);
    LiveCellRank(m, Live(key), q);
    RanksOrdered(m, Live(key), p, q);
    assert KeepsCell(s, m, key, p) && KeepsCell(s, m, key, q);
    assert Dir(key, false, s[p]) <= Dir(key, false, s[p + 1]);
    assert p + 1 < q ==> Dir(key, false, s[p + 1]) <= Dir(key, false, s[q]);
  }

  /** each is the kept cell of some run, */
  lemma KeptFrom<T>(s: seq<T>, m: seq<T>, key: T -> int, i: nat) returns (p: nat)
    requires KeepsLast(s, m, key) && i < |LiveCells(m, Live(key))|
    ensures p < |s| && LiveCells(m, Live(key))[i] == m[p] && key(m[p]) == key(s[p]) != NONE
  {
    hide LiveCells, DeadBefore;
    p := RankTaken(m, Live(key), i);
    LiveCellRank(m, Live(key), p);
    assert KeepsCell(s, m, key, p);
  }

  /** and every key but none is kept. */
  lemma KeptAll<T>(s: seq<T>, m: seq<T>, key: T -> int, i: nat) returns (x: nat)
    requires KeepsLast(s, m, key) && i < |s| && key(s[i]) != NONE
    ensures x < |LiveCells(m, Live(key))| && key(LiveCells(m, Live(key))[x]) == key(s[i])
  {
    hide LiveCells, DeadBefore;
    var p := LastOccurrence(s, key, key(s[i]), i);
    assert KeepsCell(s, m, key, p);
    LiveCellRank(m, Live(key), p);
    x := p - DeadBefore(m, Live(key), p);
  }

  // ---- Lists of fingerprints ----

  ghost function Elements(s: seq<Int32>): set<Int32> {
    set x | x in s
  }

  /** The non-none values of contents once each, strictly descending, then only none. */
  ghost predicate DescendingSet(r: seq<Int32>, contents: set<Int32>) {
    exists n: nat :: IsDescendingSet(r, contents, n)
  }

  ghost predicate IsDescendingSet(r: seq<Int32>, contents: set<Int32>, n: nat) {
    && n <= |r|
    && (forall i, j :: 0 <= i < j < n ==> r[i] > r[j])
    && (forall i :: 0 <= i < n ==> r[i] in contents && r[i] != NONE)
    && (forall x :: x in contents && x != NONE ==> x in r[..n])
    && (forall i :: n <= i < |r| ==> r[i] == NONE)
  }

  /** Such a list as a whole is still in descending order. */
  lemma DescendingSetSorted(r: seq<Int32>, contents: set<Int32>)
    requires DescendingSet(r, contents)
    ensures Sorted(r, Signed(), false)
  {
    var n: nat :| IsDescendingSet(r, contents, n);
  }

  /** Compacting the marked list leaves each value of a descending list exactly once. */
  lemma MarkedCompacts(s: seq<Int32>, m: seq<Int32>, r: seq<Int32>)
    requires Sorted(s, Signed(), false) && KeepsLast(s, m, Signed()) && IsCompacted(m, Live(Signed()), r)
    ensures DescendingSet(r, Elements(s))
  {
    var l := LiveCells(m, Live(Signed()));
    var n := |l|;
    hide LiveCells, KeepsLast, Sorted;
    forall i: nat, j: nat | i < j < n
      ensures l[i] > l[j]
    {
      KeptDescend(s, m, Signed(), i, j);
    }
    forall i: nat | i < n
      ensures l[i] in s && l[i] != NONE
    {
      var p := KeptFrom(s, m, Signed(), i);
    }
    forall x | x in s && x != NONE
      ensures x in l
    {
      var i :| 0 <= i < |s| && s[i] == x;
      var k := KeptAll(s, m, Signed(), i);
    }
    assert r[..n] == l;
    assert IsDescendingSet(r, Elements(s), n);
  }

  function EraseInt(): Int32 -> Int32 {
    (x: Int32) => NONE
  }

  /** Mark, then compact, a descending list. */
  method MarkAndCompact(list: seq<Int32>) returns (r: seq<Int32>)
    requires |list| >= 2 && Sorted(list, Signed(), false)
    ensures |r| == |list| && DescendingSet(r, Elements(list)) && Sorted(r, Signed(), false)
  {
    var data := new Int32[|list|](i requires 0 <= i < |list| => list[i]);
    assert data[..] == list;
    var distance := ComputeDistanceMarkDuplicates(data, Signed(), EraseInt());
    MarkedKeepsLast(list, Signed(), EraseInt());
    ghost var m := data[..];
    hide Sorted, KeepsLast, DescendingSet, Marked;
    Compact(distance, data, Live(Signed()), NONE);
    r := data[..];
    MarkedCompacts(list, m, r);
    DescendingSetSorted(r, Elements(list));
  }

  // ---- One reducer step ----

  /** The values of s in reverse order. */
  function Reversed<T>(s: seq<T>): (r: seq<T>)
    ensures |r| == |s|
  {
    seq(|s|, i requires 0 <= i < |s| => s[|s| - 1 - i])
  }

  lemma ReversedRecords<T>(s: seq<T>)
    ensures multiset(Reversed(s)) == multiset(s)
  {
    if s != [] {
      var n := |s| - 1;
      ReversedRecords(s[..n]);
      assert s == s[..n] + [s[n]];
      assert Reversed(s) == [s[n]] + Reversed(s[..n]);
    }
  }

  lemma ReversedSorted<T>(s: seq<T>, rank: T -> int, asc: bool)
    requires Sorted(s, rank, asc)
    ensures Sorted(Reversed(s), rank, !asc)
  {
    forall i, j | 0 <= i < j < |s|
      ensures Dir(rank, !asc, Reversed(s)[i]) <= Dir(rank, !asc, Reversed(s)[j])
    {
      assert Dir(rank, asc, s[|s| - 1 - j]) <= Dir(rank, asc, s[|s| - 1 - i]);
    }
  }

  /**
   reduce(): append the second ascending list backwards, merge descending, mark and compact.  The
   result is the descending union of both lists, each value once, followed by none.
   */
  method Reduce(list1: seq<Int32>, list2: seq<Int32>) returns (r: seq<Int32>)
    requires |list1| == |list2| >= 1
    requires Sorted(list1, Signed(), true) && Sorted(list2, Signed(), true)
    ensures |r| == |list1| + |list2|
    ensures DescendingSet(r, Elements(list1) + Elements(list2))
    ensures Sorted(r, Signed(), false)
  {
    var list := list1;
    var i := 0;
    while i < |list2|
      invariant 0 <= i <= |list2|
      invariant list == list1 + Reversed(list2)[..i]
    {
      list := list + [list2[|list2| - 1 - i]];
      i := i + 1;
    }
    assert list == list1 + Reversed(list2);
    ReversedSorted(list2, Signed(), true);
    ReversedRecords(list2);
    MergeCorrect(list1, Reversed(list2), Signed(), false);
    hide Merge, Sorted, Reversed;
    var merged := Merge(list, Signed(), false);
    SameElements(list1, list2, merged);
    r := MarkAndCompact(merged);
  }

  lemma SameElements(a: seq<Int32>, b: seq<Int32>, merged: seq<Int32>)
    requires multiset(merged) == multiset(a) + multiset(b)
    ensures Elements(merged) == Elements(a) + Elements(b)
  {
    forall x
      ensures x in merged <==> x in a || x in b
    {
      assert x in merged <==> x in multiset(merged);
      assert x in a <==> x in multiset(a);
      assert x in b <==> x in multiset(b);
    }
  }
}
