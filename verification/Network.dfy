/**
 The arbitrary-length bitonic network: what it computes on a sequence, and why it sorts.

 Records of any type R are compared through an integer rank.  "Ascending" and "descending" are
 treated at once by the directed rank Dir, which every comparator leaves in increasing order.
 */
module Network {
  import opened Powers

  /** The rank the network arranges in increasing order when asked for direction asc. */
  function Dir<R>(rank: R -> int, asc: bool, x: R): int {
    if asc then rank(x) else -rank(x)
  }

  /** One comparator: exchange exactly when "direction == (left greater than right)". */
  function CompareExchange<R>(s: seq<R>, i: nat, j: nat, rank: R -> int, asc: bool): (t: seq<R>)
    requires i < j < |s|
    ensures |t| == |s|
  {
    if asc == (rank(s[i]) > rank(s[j])) then s[i := s[j]][j := s[i]] else s
  }

  /** The first m comparators (i, i + k) of a merge level. */
  function Level<R>(s: seq<R>, k: nat, m: nat, rank: R -> int, asc: bool): (t: seq<R>)
    requires k > 0 && m + k <= |s|
    ensures |t| == |s|
  {
    if m == 0 then s else CompareExchange(Level(s, k, m - 1, rank, asc), m - 1, m - 1 + k, rank, asc)
  }

  /** The two halves a level hands to the recursive merges. */
  function FirstHalf<R>(s: seq<R>, rank: R -> int, asc: bool): (t: seq<R>)
    requires |s| >= 2
    ensures |t| == PowerBelow(|s|)
  {
    var k := PowerBelow(|s|);
    Level(s, k, |s| - k, rank, asc)[..k]
  }

  function SecondHalf<R>(s: seq<R>, rank: R -> int, asc: bool): (t: seq<R>)
    requires |s| >= 2
    ensures |t| == |s| - PowerBelow(|s|)
  {
    var k := PowerBelow(|s|);
    Level(s, k, |s| - k, rank, asc)[k..]
  }

  function Merge<R>(s: seq<R>, rank: R -> int, asc: bool): (t: seq<R>)
    ensures |t| == |s|
    decreases |s|
  {
    if |s| <= 1 then s
    else
      Merge(FirstHalf(s, rank, asc), rank, asc) + Merge(SecondHalf(s, rank, asc), rank, asc)
  }

  function Sort<R>(s: seq<R>, rank: R -> int, asc: bool): (t: seq<R>)
    ensures |t| == |s|
    decreases |s|
  {
    if |s| <= 1 then s
    else
      var k := Half(|s|);
      Merge(Sort(s[..k], rank, !asc) + Sort(s[k..], rank, asc), rank, asc)
  }

  // ---- Records are only moved ----

  lemma ExchangeKeepsRecords<R>(s: seq<R>, i: nat, j: nat, rank: R -> int, asc: bool)
    requires i < j < |s|
    ensures multiset(CompareExchange(s, i, j, rank, asc)) == multiset(s)
  {}

  lemma {:induction false} LevelKeepsRecords<R>(s: seq<R>, k: nat, m: nat, rank: R -> int, asc: bool)
    requires k > 0 && m + k <= |s|
    ensures multiset(Level(s, k, m, rank, asc)) == multiset(s)
  {
    hide CompareExchange;
    if m > 0 {
      LevelKeepsRecords(s, k, m - 1, rank, asc);
      ExchangeKeepsRecords(Level(s, k, m - 1, rank, asc), m - 1, m - 1 + k, rank, asc);
    }
  }

  lemma HalvesKeepRecords<R>(s: seq<R>, rank: R -> int, asc: bool)
    requires |s| >= 2
    ensures multiset(FirstHalf(s, rank, asc)) + multiset(SecondHalf(s, rank, asc)) == multiset(s)
  {
    hide PowerBelow, Level;
    var k := PowerBelow(|s|);
    var t := Level(s, k, |s| - k, rank, asc);
    LevelKeepsRecords(s, k, |s| - k, rank, asc);
    assert t == t[..k] + t[k..];
  }

  lemma {:induction false} MergeKeepsRecords<R>(s: seq<R>, rank: R -> int, asc: bool)
    ensures multiset(Merge(s, rank, asc)) == multiset(s)
    decreases |s|
  {
    hide PowerBelow, FirstHalf, SecondHalf;
    if |s| > 1 {
      HalvesKeepRecords(s, rank, asc);
      MergeKeepsRecords(FirstHalf(s, rank, asc), rank, asc);
      MergeKeepsRecords(SecondHalf(s, rank, asc), rank, asc);
    }
  }

  lemma SortUnfolds<R>(s: seq<R>, rank: R -> int, asc: bool)
    ensures |s| <= 1 ==> Sort(s, rank, asc) == s
    ensures |s| > 1 ==>
              var k := Half(|s|);
              Sort(s, rank, asc) == Merge(Sort(s[..k], rank, !asc) + Sort(s[k..], rank, asc), rank, asc)
  {
    hide Merge, Half;
  }

  lemma {:induction false} SortKeepsRecords<R>(s: seq<R>, rank: R -> int, asc: bool)
    ensures multiset(Sort(s, rank, asc)) == multiset(s)
    decreases |s|
  {
    hide *;
    SortUnfolds(s, rank, asc);
    if |s| > 1 {
      var k := Half(|s|);
      SortKeepsRecords(s[..k], rank, !asc);
      SortKeepsRecords(s[k..], rank, asc);
      MergeKeepsRecords(Sort(s[..k], rank, !asc) + Sort(s[k..], rank, asc), rank, asc);
      assert s == s[..k] + s[k..];
    }
  }

  lemma SameRecords<R>(s: seq<R>, t: seq<R>, x: R)
    requires multiset(s) == multiset(t)
    ensures x in s <==> x in t
  {
    assert x in s <==> x in multiset(s);
  }

  // ---- One level: every pair ends as (minimum, maximum) of the directed rank ----

  ghost predicate PairOrdered<R>(s: seq<R>, t: seq<R>, i: int, k: nat, rank: R -> int, asc: bool)
    requires 0 <= i && i + k < |s| == |t|
  {
    var a, b := Dir(rank, asc, s[i]), Dir(rank, asc, s[i + k]);
    Dir(rank, asc, t[i]) == (if a <= b then a else b) && Dir(rank, asc, t[i + k]) == (if a <= b then b else a)
  }

  /** t is s after comparators (0, k) .. (m - 1, m - 1 + k). */
  ghost predicate PairsOrdered<R>(s: seq<R>, t: seq<R>, k: nat, m: nat, rank: R -> int, asc: bool)
    requires m <= k && m + k <= |s| == |t|
  {
    && (forall i :: 0 <= i < m ==> PairOrdered(s, t, i, k, rank, asc))
    && (forall i :: m <= i < k ==> t[i] == s[i])
    && (forall i :: m + k <= i < |s| ==> t[i] == s[i])
  }

  lemma {:induction false} LevelPairs<R>(s: seq<R>, k: nat, m: nat, rank: R -> int, asc: bool)
    requires m <= k && k > 0 && m + k <= |s|
    ensures PairsOrdered(s, Level(s, k, m, rank, asc), k, m, rank, asc)
  {
    if m > 0 {
      LevelPairs(s, k, m - 1, rank, asc);
      var u, t := Level(s, k, m - 1, rank, asc), Level(s, k, m, rank, asc);
      assert t == CompareExchange(u, m - 1, m - 1 + k, rank, asc);
      forall i | 0 <= i < m
        ensures PairOrdered(s, t, i, k, rank, asc)
      {
        if i < m - 1 {
          assert PairOrdered(s, u, i, k, rank, asc);
        }
      }
    }
  }

  // ---- The shapes a merge accepts, one threshold at a time ----

  predicate High<R>(rank: R -> int, asc: bool, c: int, x: R) {
    Dir(rank, asc, x) > c
  }

  /** The records whose height is h are exactly those at positions [p, q). */
  ghost predicate Interval<R>(s: seq<R>, c: int, rank: R -> int, asc: bool, h: bool, p: nat, q: nat) {
    && p <= q <= |s|
    && forall i :: 0 <= i < |s| ==> (High(rank, asc, c, s[i]) == h <==> p <= i < q)
  }

  /**
   Pad the sequence with +infinity up to a power of two: for threshold c it is then cyclically
   bitonic.  Without padding either kind of record may wrap around the end; with padding the
   high records reach around the end already, so the low ones must be an interval.
   */
  ghost predicate Mergeable<R>(s: seq<R>, c: int, rank: R -> int, asc: bool) {
    exists h: bool, p: nat, q: nat :: Interval(s, c, rank, asc, h, p, q) && (h ==> IsPow2(|s|))
  }

  /** Every record before position p is low and every record from p on is high. */
  ghost predicate SplitAt<R>(s: seq<R>, c: int, rank: R -> int, asc: bool, p: nat) {
    Interval(s, c, rank, asc, true, p, |s|)
  }

  lemma RecordsKeepHeight<R>(s: seq<R>, t: seq<R>, c: int, rank: R -> int, asc: bool, h: bool)
    requires multiset(s) == multiset(t)
    requires forall x :: x in s ==> High(rank, asc, c, x) == h
    ensures forall x :: x in t ==> High(rank, asc, c, x) == h
  {
    forall x | x in t
      ensures High(rank, asc, c, x) == h
    {
      SameRecords(s, t, x);
    }
  }

  /** A level takes the conjunction of the two heights into the first half, the disjunction into the second. */
  lemma HalfHeights<R>(s: seq<R>, c: int, rank: R -> int, asc: bool, i: nat)
    requires |s| >= 2 && i < PowerBelow(|s|)
    ensures var k := PowerBelow(|s|);
            var lo, hi := FirstHalf(s, rank, asc), SecondHalf(s, rank, asc);
            if i + k < |s| then
              && (High(rank, asc, c, lo[i]) <==> High(rank, asc, c, s[i]) && High(rank, asc, c, s[i + k]))
              && (High(rank, asc, c, hi[i]) <==> High(rank, asc, c, s[i]) || High(rank, asc, c, s[i + k]))
            else lo[i] == s[i]
  {
    var k := PowerBelow(|s|);
    LevelPairs(s, k, |s| - k, rank, asc);
    if i + k < |s| {
      assert PairOrdered(s, Level(s, k, |s| - k, rank, asc), i, k, rank, asc);
    }
  }

  /** What a level leaves: one half uniformly low (the first) or high (the second), the other mergeable again. */
  ghost predicate HalfClean<R>(s: seq<R>, c: int, rank: R -> int, asc: bool)
    requires |s| >= 2
  {
    var lo, hi := FirstHalf(s, rank, asc), SecondHalf(s, rank, asc);
    || (Interval(lo, c, rank, asc, false, 0, |lo|) && Mergeable(hi, c, rank, asc))
    || (Interval(hi, c, rank, asc, true, 0, |hi|) && Mergeable(lo, c, rank, asc))
  }

  /** The half-cleaner when the low records are the interval [p, q). */
  lemma CleanLowInterval<R>(s: seq<R>, c: int, rank: R -> int, asc: bool, p: nat, q: nat)
    requires |s| >= 2 && Interval(s, c, rank, asc, false, p, q)
    ensures HalfClean(s, c, rank, asc)
  {
    var k := PowerBelow(|s|);
    var lo, hi := FirstHalf(s, rank, asc), SecondHalf(s, rank, asc);
    forall i | 0 <= i < k
      ensures !High(rank, asc, c, lo[i]) <==> p <= i < q || (i + k < |s| && p <= i + k < q)
      ensures i + k < |s| ==> (!High(rank, asc, c, hi[i]) <==> p <= i < q && p <= i + k < q)
    {
      HalfHeights(s, c, rank, asc, i);
    }
    if q - p >= k {
      assert Interval(lo, c, rank, asc, false, 0, k);
      assert Interval(hi, c, rank, asc, false, p, q - k);
    } else {
      assert Interval(hi, c, rank, asc, true, 0, |hi|);
      if q <= k {
        assert Interval(lo, c, rank, asc, false, p, q);
      } else if p >= k {
        assert Interval(lo, c, rank, asc, false, p - k, q - k);
      } else {
        assert Interval(lo, c, rank, asc, true, q - k, p);
      }
    }
  }

  /** The half-cleaner when the high records are the interval [p, q) and there is no padding. */
  lemma CleanHighInterval<R>(s: seq<R>, c: int, rank: R -> int, asc: bool, p: nat, q: nat)
    requires |s| >= 2 && Interval(s, c, rank, asc, true, p, q) && IsPow2(|s|)
    ensures HalfClean(s, c, rank, asc)
  {
    var k := PowerBelow(|s|);
    PowerBelowOfPow2(|s|);
    var lo, hi := FirstHalf(s, rank, asc), SecondHalf(s, rank, asc);
    forall i | 0 <= i < k
      ensures High(rank, asc, c, lo[i]) <==> p <= i < q && p <= i + k < q
      ensures High(rank, asc, c, hi[i]) <==> p <= i < q || p <= i + k < q
    {
      HalfHeights(s, c, rank, asc, i);
    }
    if q - p >= k {
      assert Interval(hi, c, rank, asc, true, 0, k);
      assert Interval(lo, c, rank, asc, true, p, q - k);
    } else {
      assert Interval(lo, c, rank, asc, false, 0, k);
      if q <= k {
        assert Interval(hi, c, rank, asc, true, p, q);
      } else if p >= k {
        assert Interval(hi, c, rank, asc, true, p - k, q - k);
      } else {
        assert Interval(hi, c, rank, asc, false, q - k, p);
      }
    }
  }

  lemma UniformAfterMerge<R>(s: seq<R>, c: int, rank: R -> int, asc: bool, h: bool)
    requires Interval(s, c, rank, asc, h, 0, |s|)
    ensures Interval(Merge(s, rank, asc), c, rank, asc, h, 0, |s|)
  {
    MergeKeepsRecords(s, rank, asc);
    RecordsKeepHeight(s, Merge(s, rank, asc), c, rank, asc, h);
  }

  /** Merging a mergeable sequence separates low from high records. */
  lemma {:induction false} MergeSeparates<R>(s: seq<R>, c: int, rank: R -> int, asc: bool) returns (p: nat)
    requires Mergeable(s, c, rank, asc)
    ensures SplitAt(Merge(s, rank, asc), c, rank, asc, p)
    decreases |s|, 1
  {
    if |s| <= 1 {
      return if |s| == 1 && !High(rank, asc, c, s[0]) then 1 else 0;
    }
    var h: bool, x: nat, y: nat :| Interval(s, c, rank, asc, h, x, y) && (h ==> IsPow2(|s|));
    if h {
      CleanHighInterval(s, c, rank, asc, x, y);
    } else {
      CleanLowInterval(s, c, rank, asc, x, y);
    }
    p := MergeHalves(s, c, rank, asc);
  }

  lemma {:induction false} MergeHalves<R>(s: seq<R>, c: int, rank: R -> int, asc: bool) returns (p: nat)
    requires |s| >= 2 && HalfClean(s, c, rank, asc)
    ensures SplitAt(Merge(s, rank, asc), c, rank, asc, p)
    decreases |s|, 0
  {
    var lo, hi := FirstHalf(s, rank, asc), SecondHalf(s, rank, asc);
    if Interval(lo, c, rank, asc, false, 0, |lo|) && Mergeable(hi, c, rank, asc) {
      UniformAfterMerge(lo, c, rank, asc, false);
      p := MergeSeparates(hi, c, rank, asc);
      p := |lo| + p;
    } else {
      UniformAfterMerge(hi, c, rank, asc, true);
      p := MergeSeparates(lo, c, rank, asc);
    }
  }

  /** A fall followed by a rise is mergeable whatever its length. */
  lemma FallRiseMergeable<R>(a: seq<R>, b: seq<R>, c: int, rank: R -> int, asc: bool, p: nat, q: nat)
    requires SplitAt(a, -c - 1, rank, !asc, p) && SplitAt(b, c, rank, asc, q)
    ensures Mergeable(a + b, c, rank, asc)
  {
    assert forall i :: 0 <= i < |a| ==> High(rank, asc, c, a[i]) == !High(rank, !asc, -c - 1, a[i]);
    assert Interval(a + b, c, rank, asc, false, p, |a| + q);
  }

  lemma {:induction false} SortSeparates<R>(s: seq<R>, c: int, rank: R -> int, asc: bool) returns (p: nat)
    ensures SplitAt(Sort(s, rank, asc), c, rank, asc, p)
    decreases |s|
  {
    if |s| <= 1 {
      return if |s| == 1 && !High(rank, asc, c, s[0]) then 1 else 0;
    }
    var k := Half(|s|);
    var x := SortSeparates(s[..k], -c - 1, rank, !asc);
    var y := SortSeparates(s[k..], c, rank, asc);
    FallRiseMergeable(Sort(s[..k], rank, !asc), Sort(s[k..], rank, asc), c, rank, asc, x, y);
    p := MergeSeparates(Sort(s[..k], rank, !asc) + Sort(s[k..], rank, asc), c, rank, asc);
  }

  // ---- Main results ----

  ghost predicate Sorted<R>(s: seq<R>, rank: R -> int, asc: bool) {
    forall i, j :: 0 <= i < j < |s| ==> Dir(rank, asc, s[i]) <= Dir(rank, asc, s[j])
  }

  /** Sorted in a direction: the ranks never fall, or never rise. */
  lemma SortedMeans<R>(s: seq<R>, rank: R -> int, asc: bool)
    ensures Sorted(s, rank, asc) <==>
              forall i, j :: 0 <= i < j < |s| ==> if asc then rank(s[i]) <= rank(s[j]) else rank(s[i]) >= rank(s[j])
  {}

  ghost predicate Separated<R>(s: seq<R>, c: int, rank: R -> int, asc: bool) {
    exists p: nat :: SplitAt(s, c, rank, asc, p)
  }

  /** Separated at every threshold means sorted. */
  lemma SeparatedIsSorted<R>(s: seq<R>, rank: R -> int, asc: bool)
    requires forall c :: Separated(s, c, rank, asc)
    ensures Sorted(s, rank, asc)
  {
    forall i, j | 0 <= i < j < |s|
      ensures Dir(rank, asc, s[i]) <= Dir(rank, asc, s[j])
    {
      var c := Dir(rank, asc, s[i]) - 1;
      assert Separated(s, c, rank, asc);
      var p: nat :| SplitAt(s, c, rank, asc, p);
      assert High(rank, asc, c, s[i]);
      assert High(rank, asc, c, s[j]);
    }
  }

  /** A sorted sequence is separated at every threshold. */
  lemma {:induction false} SortedSplits<R>(s: seq<R>, c: int, rank: R -> int, asc: bool) returns (p: nat)
    requires Sorted(s, rank, asc)
    ensures SplitAt(s, c, rank, asc, p)
    decreases |s|
  {
    var n := |s|;
    if n == 0 || !High(rank, asc, c, s[n - 1]) {
      return n;
    }
    p := SortedSplits(s[..n - 1], c, rank, asc);
    assert s == s[..n - 1] + [s[n - 1]];
  }

  /** The network sorts every sequence, of any length, in either direction, moving whole records. */
  lemma SortCorrect<R>(s: seq<R>, rank: R -> int, asc: bool)
    ensures Sorted(Sort(s, rank, asc), rank, asc)
    ensures multiset(Sort(s, rank, asc)) == multiset(s)
  {
    forall c
      ensures Separated(Sort(s, rank, asc), c, rank, asc)
    {
      var p := SortSeparates(s, c, rank, asc);
    }
    SeparatedIsSorted(Sort(s, rank, asc), rank, asc);
    SortKeepsRecords(s, rank, asc);
  }

  /** Merging sorts every sequence that is cyclically bitonic once padded at the end, threshold by threshold. */
  lemma MergeSortsMergeable<R>(s: seq<R>, rank: R -> int, asc: bool)
    requires forall c :: Mergeable(s, c, rank, asc)
    ensures Sorted(Merge(s, rank, asc), rank, asc)
    ensures multiset(Merge(s, rank, asc)) == multiset(s)
  {
    forall c
      ensures Separated(Merge(s, rank, asc), c, rank, asc)
    {
      var p := MergeSeparates(s, c, rank, asc);
    }
    SeparatedIsSorted(Merge(s, rank, asc), rank, asc);
    MergeKeepsRecords(s, rank, asc);
  }

  /**
   A run sorted against the asked direction followed by one sorted along it: fall-then-rise for an
   ascending merge, rise-then-fall for a descending one.
   */
  lemma MergeCorrect<R>(a: seq<R>, b: seq<R>, rank: R -> int, asc: bool)
    requires Sorted(a, rank, !asc) && Sorted(b, rank, asc)
    ensures Sorted(Merge(a + b, rank, asc), rank, asc)
    ensures multiset(Merge(a + b, rank, asc)) == multiset(a) + multiset(b)
  {
    forall c
      ensures Mergeable(a + b, c, rank, asc)
    {
      var p := SortedSplits(a, -c - 1, rank, !asc);
      var q := SortedSplits(b, c, rank, asc);
      FallRiseMergeable(a, b, c, rank, asc, p, q);
    }
    MergeSortsMergeable(a + b, rank, asc);
  }
}
