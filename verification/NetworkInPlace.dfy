/**
 The network acting in place on the slice [low, low + count) of a longer sequence, step by step as
 the recursive procedures act on an array, and its agreement with the network on the slice alone.
 */
module NetworkInPlace {
  import opened Powers
  import opened Network

  /** The first m comparators (low + i, low + i + k) of a merge level. */
  function LevelAt<R>(s: seq<R>, low: nat, k: nat, m: nat, rank: R -> int, asc: bool): (t: seq<R>)
    requires k > 0 && low + m + k <= |s|
    ensures |t| == |s|
  {
    if m == 0 then s
    else CompareExchange(LevelAt(s, low, k, m - 1, rank, asc), low + m - 1, low + m - 1 + k, rank, asc)
  }

  function MergeAt<R>(s: seq<R>, low: nat, count: nat, rank: R -> int, asc: bool): (t: seq<R>)
    requires low + count <= |s|
    ensures |t| == |s|
    decreases count
  {
    if count <= 1 then s
    else
      var k := PowerBelow(count);
      MergeAt(MergeAt(LevelAt(s, low, k, count - k, rank, asc), low, k, rank, asc), low + k, count - k, rank, asc)
  }

  function SortAt<R>(s: seq<R>, low: nat, count: nat, rank: R -> int, asc: bool): (t: seq<R>)
    requires low + count <= |s|
    ensures |t| == |s|
    decreases count
  {
    if count <= 1 then s
    else
      var k := Half(count);
      MergeAt(SortAt(SortAt(s, low, k, rank, !asc), low + k, count - k, rank, asc), low, count, rank, asc)
  }

  /** One unfolding of each recursion, so that the inductions below can keep them hidden. */
  lemma MergeAtStep<R>(s: seq<R>, low: nat, count: nat, rank: R -> int, asc: bool)
    requires low + count <= |s|
    ensures MergeAt(s, low, count, rank, asc) ==
            if count <= 1 then s
            else
              var k := PowerBelow(count);
              MergeAt(MergeAt(LevelAt(s, low, k, count - k, rank, asc), low, k, rank, asc), low + k, count - k, rank,
                  asc)
  {}

  lemma SortAtStep<R>(s: seq<R>, low: nat, count: nat, rank: R -> int, asc: bool)
    requires low + count <= |s|
    ensures SortAt(s, low, count, rank, asc) ==
            if count <= 1 then s
            else
              var k := Half(count);
              MergeAt(SortAt(SortAt(s, low, k, rank, !asc), low + k, count - k, rank, asc), low, count, rank, asc)
  {
    hide MergeAt, Half;
  }

  lemma MergeStep<R>(t: seq<R>, rank: R -> int, asc: bool)
    ensures Merge(t, rank, asc) ==
            if |t| <= 1 then t
            else Merge(FirstHalf(t, rank, asc), rank, asc) + Merge(SecondHalf(t, rank, asc), rank, asc)
  {}

  lemma LevelHalves<R>(t: seq<R>, rank: R -> int, asc: bool)
    requires |t| > 1
    ensures var k := PowerBelow(|t|);
            FirstHalf(t, rank, asc) + SecondHalf(t, rank, asc) == Level(t, k, |t| - k, rank, asc)
  {}

  lemma LevelAtZero<R>(s: seq<R>, low: nat, k: nat, rank: R -> int, asc: bool)
    requires k > 0 && low + k <= |s|
    ensures LevelAt(s, low, k, 0, rank, asc) == s
  {}

  lemma LevelAtStep<R>(s: seq<R>, low: nat, k: nat, m: nat, rank: R -> int, asc: bool)
    requires k > 0 && low + m + k < |s|
    ensures LevelAt(s, low, k, m + 1, rank, asc)
         == CompareExchange(LevelAt(s, low, k, m, rank, asc), low + m, low + m + k, rank, asc)
  {}

  lemma SortStep<R>(t: seq<R>, rank: R -> int, asc: bool)
    ensures Sort(t, rank, asc) ==
            if |t| <= 1 then t
            else
              var k := Half(|t|);
              Merge(Sort(t[..k], rank, !asc) + Sort(t[k..], rank, asc), rank, asc)
  {}

  lemma {:induction false} LevelAtIsLevel<R>(p: seq<R>, t: seq<R>, q: seq<R>, k: nat, m: nat, rank: R -> int, asc: bool)
    requires k > 0 && m + k <= |t|
    ensures LevelAt(p + t + q, |p|, k, m, rank, asc) == p + Level(t, k, m, rank, asc) + q
  {
    if m > 0 {
      LevelAtIsLevel(p, t, q, k, m - 1, rank, asc);
    }
  }

  /** Merging in place merges the slice and touches nothing else. */
  lemma {:induction false} MergeAtIsMerge<R>(p: seq<R>, t: seq<R>, q: seq<R>, rank: R -> int, asc: bool)
    ensures MergeAt(p + t + q, |p|, |t|, rank, asc) == p + Merge(t, rank, asc) + q
    decreases |t|
  {
    hide *;
    MergeAtStep(p + t + q, |p|, |t|, rank, asc);
    MergeStep(t, rank, asc);
    if |t| > 1 {
      var k := PowerBelow(|t|);
      LevelHalves(t, rank, asc);
      LevelAtIsLevel(p, t, q, k, |t| - k, rank, asc);
      MergeTwoAt(p, FirstHalf(t, rank, asc), SecondHalf(t, rank, asc), q, rank, asc);
    }
  }

  lemma {:induction false} MergeTwoAt<R>(p: seq<R>, lo: seq<R>, hi: seq<R>, q: seq<R>, rank: R -> int, asc: bool)
    requires |lo| > 0 && |hi| > 0
    ensures MergeAt(MergeAt(p + (lo + hi) + q, |p|, |lo|, rank, asc), |p| + |lo|, |hi|, rank, asc)
         == p + (Merge(lo, rank, asc) + Merge(hi, rank, asc)) + q
    decreases |lo| + |hi|, 0
  {
    hide *;
    var x, y := Merge(lo, rank, asc), Merge(hi, rank, asc);
    MergeAtIsMerge(p, lo, hi + q, rank, asc);
    assert p + (lo + hi) + q == p + lo + (hi + q);
    MergeAtIsMerge(p + x, hi, q, rank, asc);
    assert p + x + (hi + q) == (p + x) + hi + q;
    assert (p + x) + y + q == p + (x + y) + q;
  }

  /** Sorting in place sorts the slice and touches nothing else. */
  lemma {:induction false} SortAtIsSort<R>(p: seq<R>, t: seq<R>, q: seq<R>, rank: R -> int, asc: bool)
    ensures SortAt(p + t + q, |p|, |t|, rank, asc) == p + Sort(t, rank, asc) + q
    decreases |t|
  {
    hide *;
    SortAtStep(p + t + q, |p|, |t|, rank, asc);
    SortStep(t, rank, asc);
    if |t| > 1 {
      var k := Half(|t|);
      assert t[..k] + t[k..] == t;
      SortTwoAt(p, t[..k], t[k..], q, rank, asc);
      MergeAtIsMerge(p, Sort(t[..k], rank, !asc) + Sort(t[k..], rank, asc), q, rank, asc);
    }
  }

  lemma {:induction false} SortTwoAt<R>(p: seq<R>, lo: seq<R>, hi: seq<R>, q: seq<R>, rank: R -> int, asc: bool)
    requires |lo| > 0 && |hi| > 0
    ensures SortAt(SortAt(p + (lo + hi) + q, |p|, |lo|, rank, !asc), |p| + |lo|, |hi|, rank, asc)
         == p + (Sort(lo, rank, !asc) + Sort(hi, rank, asc)) + q
    decreases |lo| + |hi|, 0
  {
    hide *;
    var x, y := Sort(lo, rank, !asc), Sort(hi, rank, asc);
    SortAtIsSort(p, lo, hi + q, rank, !asc);
    assert p + (lo + hi) + q == p + lo + (hi + q);
    SortAtIsSort(p + x, hi, q, rank, asc);
    assert p + x + (hi + q) == (p + x) + hi + q;
    assert (p + x) + y + q == p + (x + y) + q;
  }
}
