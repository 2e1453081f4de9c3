/**
 The index pairs the network compares: a function of position and count alone, and how many there are.
 */
module NetworkCost {
  import opened Powers

  /** Comparators (low, low + k) .. (low + m - 1, low + m - 1 + k). */
  function ComparedInLevel(low: nat, k: nat, m: nat): (p: seq<(nat, nat)>)
    ensures |p| == m
  {
    if m == 0 then [] else ComparedInLevel(low, k, m - 1) + [(low + m - 1, low + m - 1 + k)]
  }

  function MergeSize(count: nat): nat {
    if count <= 1 then 0
    else var k := PowerBelow(count); count - k + MergeSize(k) + MergeSize(count - k)
  }

  function SortSize(count: nat): nat {
    if count <= 1 then 0
    else var k := Half(count); SortSize(k) + SortSize(count - k) + MergeSize(count)
  }

  function ComparedInMerge(low: nat, count: nat): seq<(nat, nat)>
    decreases count
  {
    if count <= 1 then []
    else
      var k := PowerBelow(count);
      ComparedInLevel(low, k, count - k) + ComparedInMerge(low, k) + ComparedInMerge(low + k, count - k)
  }

  function ComparedInSort(low: nat, count: nat): seq<(nat, nat)>
    decreases count
  {
    if count <= 1 then []
    else
      var k := Half(count);
      ComparedInSort(low, k) + ComparedInSort(low + k, count - k) + ComparedInMerge(low, count)
  }

  /** One unfolding of each recursion. */
  lemma ComparedInMergeStep(low: nat, count: nat)
    ensures ComparedInMerge(low, count) ==
            if count <= 1 then []
            else
              var k := PowerBelow(count);
              ComparedInLevel(low, k, count - k) + ComparedInMerge(low, k) + ComparedInMerge(low + k, count - k)
  {
    hide ComparedInLevel, PowerBelow;
  }

  lemma ComparedInSortStep(low: nat, count: nat)
    ensures ComparedInSort(low, count) ==
            if count <= 1 then []
            else
              var k := Half(count);
              ComparedInSort(low, k) + ComparedInSort(low + k, count - k) + ComparedInMerge(low, count)
  {
    hide ComparedInMerge, Half;
  }

  lemma ComparedInLevelStep(low: nat, k: nat, m: nat)
    ensures ComparedInLevel(low, k, 0) == []
    ensures ComparedInLevel(low, k, m + 1) == ComparedInLevel(low, k, m) + [(low + m, low + m + k)]
  {}

  lemma SizeSteps(count: nat)
    ensures MergeSize(count) ==
            if count <= 1 then 0
            else var k := PowerBelow(count); count - k + MergeSize(k) + MergeSize(count - k)
    ensures SortSize(count) ==
            if count <= 1 then 0
            else var k := Half(count); SortSize(k) + SortSize(count - k) + MergeSize(count)
  {
    hide Half, PowerBelow;
  }

  lemma {:induction false} ComparedInMergeSize(low: nat, count: nat)
    ensures |ComparedInMerge(low, count)| == MergeSize(count)
    decreases count
  {
    hide *;
    ComparedInMergeStep(low, count);
    SizeSteps(count);
    if count > 1 {
      var k := PowerBelow(count);
      ComparedInMergeSize(low, k);
      ComparedInMergeSize(low + k, count - k);
    }
  }

  lemma {:induction false} ComparedInSortSize(low: nat, count: nat)
    ensures |ComparedInSort(low, count)| == SortSize(count)
    decreases count
  {
    hide *;
    ComparedInSortStep(low, count);
    SizeSteps(count);
    if count > 1 {
      var k := Half(count);
      ComparedInSortSize(low, k);
      ComparedInSortSize(low + k, count - k);
      ComparedInMergeSize(low, count);
    }
  }

  // ---- Arithmetic of the two recurrences ----

  lemma MulMonotone(a: nat, b: nat, c: nat)
    requires b <= c
    ensures a * b <= a * c
  {}

  lemma Distribute(a: int, b: int, t: int)
    ensures a * t + b * t == (a + b) * t
  {}

  /** The bound of both parts, raised to a common factor t. */
  lemma Combine(n: nat, k: nat, x: nat, y: nat, t: nat)
    requires k <= n && x <= t && y <= t
    ensures k * x + (n - k) * y <= n * t
  {
    MulMonotone(k, x, t);
    MulMonotone(n - k, y, t);
    Distribute(k, n - k, t);
  }

  lemma MergeStep(n: nat, k: nat, a: nat, b: nat, la: nat, lb: nat, l: nat)
    requires k <= n <= 2 * k && la < l && lb < l
    requires 2 * a <= k * la && 2 * b <= (n - k) * lb
    ensures 2 * (n - k + a + b) <= n * l
  {
    Combine(n, k, la, lb, l - 1);
    Distribute(l - 1, 1, n);
  }

  /** l * (l + 1), summed up so that the bounds below stay linear. */
  function Triangle(l: nat): nat {
    if l == 0 then 0 else Triangle(l - 1) + 2 * l
  }

  lemma {:induction false} TriangleProduct(l: nat)
    ensures Triangle(l) == l * (l + 1)
  {
    if l > 0 {
      TriangleProduct(l - 1);
      Distribute(l - 1, 2, l);
    }
  }

  lemma {:induction false} TriangleMonotone(a: nat, b: nat)
    requires a <= b
    ensures Triangle(a) <= Triangle(b)
  {
    if a < b {
      TriangleMonotone(a, b - 1);
    }
  }

  /** Both parts of a split need at least one level less. */
  lemma LevelsDrop(n: nat, k: nat)
    requires n >= 2 && k <= PowerBelow(n)
    ensures CeilLog2(k) < CeilLog2(n)
  {
    Log2Bounds(n - 1);
    PowerBelowUnique(n, Log2(n - 1));
    CeilLog2Least(k, CeilLog2(n) - 1);
  }

  /** size comparisons respect the bound for a sort of n records in l levels. */
  ghost predicate SortFits(n: nat, l: nat, size: nat) {
    4 * size <= n * Triangle(l)
  }

  lemma SortFitsMore(n: nat, l: nat, m: nat, size: nat)
    requires SortFits(n, l, size) && l <= m
    ensures SortFits(n, m, size)
  {
    TriangleMonotone(l, m);
    MulMonotone(n, Triangle(l), Triangle(m));
  }

  lemma SortFitsSplit(n: nat, k: nat, l: nat, a: nat, b: nat, m: nat)
    requires k <= n && l > 0 && SortFits(k, l - 1, a) && SortFits(n - k, l - 1, b) && 2 * m <= n * l
    ensures SortFits(n, l, a + b + m)
  {
    Distribute(k, n - k, Triangle(l - 1));
    Distribute(Triangle(l - 1), 2 * l, n);
  }

  lemma {:induction false} MergeBound(count: nat)
    ensures 2 * MergeSize(count) <= count * CeilLog2(count)
  {
    if count > 1 {
      var k := PowerBelow(count);
      MergeBound(k);
      MergeBound(count - k);
      LevelsDrop(count, k);
      LevelsDrop(count, count - k);
      MergeStep(count, k, MergeSize(k), MergeSize(count - k), CeilLog2(k), CeilLog2(count - k), CeilLog2(count));
    }
  }

  lemma SortBoundStep(count: nat, a: nat, b: nat)
    requires count >= 2
    requires SortFits(Half(count), CeilLog2(Half(count)), a)
    requires SortFits(count - Half(count), CeilLog2(count - Half(count)), b)
    ensures SortFits(count, CeilLog2(count), a + b + MergeSize(count))
  {
    var k, l := Half(count), CeilLog2(count);
    MergeBound(count);
    LevelsDrop(count, k);
    LevelsDrop(count, count - k);
    SortFitsMore(k, CeilLog2(k), l - 1, a);
    SortFitsMore(count - k, CeilLog2(count - k), l - 1, b);
    SortFitsSplit(count, k, l, a, b, MergeSize(count));
  }

  lemma {:induction false} SortBound(count: nat)
    ensures SortFits(count, CeilLog2(count), SortSize(count))
  {
    if count > 1 {
      SortBound(Half(count));
      SortBound(count - Half(count));
      SortBoundStep(count, SortSize(Half(count)), SortSize(count - Half(count)));
    }
  }

  /** With L = ceil(log2 count), a sort makes S comparisons with 4 * S <= count * L * (L + 1). */
  lemma SortCost(low: nat, count: nat)
    ensures 4 * |ComparedInSort(low, count)| <= count * (CeilLog2(count) * (CeilLog2(count) + 1))
  {
    ComparedInSortSize(low, count);
    SortBound(count);
    TriangleProduct(CeilLog2(count));
    hide ComparedInSort, SortSize, CeilLog2;
  }
}
