/**
 The top-1 query: count the occurrences of each category per chunk, then merge the chunk results two
 by two.  A vector of categories and the parallel vector of frequencies are one vector of cells.
 */
module TopOne {
  import opened Compaction
  import opened Network
  import opened Reducer

  datatype Cell = Cell(category: Int32, frequency: Int32)

  const NULL_CELL: Cell := Cell(NONE, NONE)

  function Category(): Cell -> int {
    (c: Cell) => c.category
  }

  function EraseCategory(): Cell -> Cell {
    (c: Cell) => c.(category := NONE)
  }

  /** 32-bit addition with wrap-around. */
  function Add32(a: Int32, b: Int32): (r: Int32)
    ensures 0 <= a && 0 <= b && a + b < 0x8000_0000 ==> r == a + b
    ensures (r - (a + b)) % 0x1_0000_0000 == 0
  {
    var s := a + b;
    if s >= 0x8000_0000 then s - 0x1_0000_0000 else if s < -0x8000_0000 then s + 0x1_0000_0000 else s
  }

  // ---- Summing the frequencies of each run of equal categories ----

  /** What the cells before j in its run add up to. */
  function Carry(s: seq<Cell>, j: nat): Int32
    requires j < |s|
  {
    if j > 0 && s[j - 1].category == s[j].category then Add32(s[j - 1].frequency, Carry(s, j - 1)) else 0
  }

  function SummedCell(s: seq<Cell>, j: nat): Cell
    requires j < |s|
  {
    if j + 1 < |s| && s[j].category == s[j + 1].category then Cell(NONE, 0)
    else Cell(s[j].category, Add32(s[j].frequency, Carry(s, j)))
  }

  /** Each run replaced by its last cell carrying the run's sum, null cells before it. */
  function Summed(s: seq<Cell>): (r: seq<Cell>)
    ensures |r| == |s|
  {
    seq(|s|, j requires 0 <= j < |s| => SummedCell(s, j))
  }

  /** The categories of a chunk, each counted once. */
  function Ones(chunk: seq<Cell>): (r: seq<Cell>)
    ensures |r| == |chunk|
  {
    seq(|chunk|, i requires 0 <= i < |chunk| => Cell(chunk[i].category, 1))
  }

  /** The first pass: count is the length of the run up to j. */
  method CountRuns(cells: array<Cell>)
    requires cells.Length >= 2
    modifies cells
    ensures cells[..] == Summed(Ones(old(cells[..])))
  {
    ghost var s := Ones(cells[..]);
    var count: Int32 := 1;
    var condition := false;
    for j := 0 to cells.Length - 1
      invariant forall x :: 0 <= x < j ==> cells[x] == SummedCell(s, x)
      invariant forall x :: j <= x < cells.Length ==> cells[x].category == s[x].category
      invariant count == Add32(1, Carry(s, j))
      invariant j > 0 ==> condition == (s[j - 1].category == s[j].category)
    {
      condition := cells[j].category == cells[j + 1].category;
      cells[j] := if !condition then Cell(cells[j].category, count) else Cell(NONE, 0);
      count := if !condition then 1 else Add32(count, 1);
    }
    var last := cells.Length - 1;
    cells[last] := cells[last].(frequency := if !condition then 1 else count);
    assert cells[..] == Summed(s);
  }

  /** The merge pass: count is the carried sum of the run before j. */
  method SumRuns(cells: array<Cell>)
    requires cells.Length >= 2
    modifies cells
    ensures cells[..] == Summed(old(cells[..]))
  {
    ghost var s := cells[..];
    var count: Int32 := 0;
    var condition := false;
    for j := 0 to cells.Length - 1
      invariant forall x :: 0 <= x < j ==> cells[x] == SummedCell(s, x)
      invariant forall x :: j <= x < cells.Length ==> cells[x] == s[x]
      invariant count == Carry(s, j)
      invariant j > 0 ==> condition == (s[j - 1].category == s[j].category)
    {
      condition := cells[j].category == cells[j + 1].category;
      var frequency := cells[j].frequency;
      cells[j] := if !condition then Cell(cells[j].category, Add32(frequency, count)) else Cell(NONE, 0);
      count := if !condition then 0 else Add32(frequency, count);
    }
    var last := cells.Length - 1;
    var frequency := cells[last].frequency;
    cells[last] := cells[last].(frequency := if !condition then frequency else Add32(frequency, count));
    assert cells[..] == Summed(s);
  }

  // ---- The weight of a category ----

  function Weight(s: seq<Cell>, c: Int32): int {
    if s == [] then 0
    else Weight(s[..|s| - 1], c) + (if s[|s| - 1].category == c then s[|s| - 1].frequency else 0)
  }

  lemma {:induction false} WeightConcat(a: seq<Cell>, b: seq<Cell>, c: Int32)
    ensures Weight(a + b, c) == Weight(a, c) + Weight(b, c)
  {
    if b == [] {
      assert a + b == a;
    } else {
      var n := |b| - 1;
      assert (a + b)[..|a + b| - 1] == a + b[..n];
      WeightConcat(a, b[..n], c);
    }
  }

  /** Taking one cell out of a list. */
  lemma TakeOut(b: seq<Cell>, i: nat, c: Int32)
    requires i < |b|
    ensures multiset(b[..i] + b[i + 1..]) == multiset(b) - multiset{b[i]}
    ensures Weight(b, c) == Weight(b[..i] + b[i + 1..], c) + (if b[i].category == c then b[i].frequency else 0)
  {
    assert b == b[..i] + ([b[i]] + b[i + 1..]);
    WeightConcat(b[..i], [b[i]] + b[i + 1..], c);
    WeightConcat([b[i]], b[i + 1..], c);
    WeightConcat(b[..i], b[i + 1..], c);
    assert [b[i]][..0] == [];
    assert Weight([b[i]], c) == if b[i].category == c then b[i].frequency else 0;
  }

  lemma {:induction false} WeightOfRecords(a: seq<Cell>, b: seq<Cell>, c: Int32)
    requires multiset(a) == multiset(b)
    ensures Weight(a, c) == Weight(b, c)
  {
    if a == [] {
      assert |multiset(b)| == 0;
    } else {
      var n := |a| - 1;
      SameRecords(a, b, a[n]);
      var i :| 0 <= i < |b| && b[i] == a[n];
      assert a == a[..n] + [a[n]];
      TakeOut(b, i, c);
      WeightOfRecords(a[..n], b[..i] + b[i + 1..], c);
    }
  }

  /** Every cell with a category counts something. */
  ghost predicate Counted(s: seq<Cell>) {
    forall i :: 0 <= i < |s| && s[i].category != NONE ==> s[i].frequency > 0
  }

  lemma {:induction false} WeightGrows(s: seq<Cell>, c: Int32, i: nat, j: nat)
    requires i <= j <= |s| && Counted(s) && c != NONE
    ensures 0 <= Weight(s[..i], c) <= Weight(s[..j], c)
    decreases j
  {
    if i < j {
      WeightGrows(s, c, i, j - 1);
      assert s[..j][..j - 1] == s[..j - 1];
    } else if i > 0 {
      WeightGrows(s, c, i - 1, j - 1);
      assert s[..j][..j - 1] == s[..j - 1];
    }
  }

  lemma {:induction false} WeightAbsent(s: seq<Cell>, c: Int32)
    requires forall i :: 0 <= i < |s| ==> s[i].category != c
    ensures Weight(s, c) == 0
  {
    if s != [] {
      WeightAbsent(s[..|s| - 1], c);
    }
  }

  /** In a descending list the last cell of a run carries the whole weight of its category. */
  lemma {:induction false} RunWeight(s: seq<Cell>, j: nat)
    requires j < |s| && Sorted(s, Category(), false) && Counted(s) && s[j].category != NONE
    requires Weight(s, s[j].category) < 0x8000_0000
    ensures Weight(s[..j + 1], s[j].category) == s[j].frequency + Carry(s, j)
    ensures Carry(s, j) >= 0
  {
    var c := s[j].category;
    assert s[..j + 1][..j] == s[..j];
    WeightGrows(s, c, j, j);
    WeightGrows(s, c, j + 1, |s|);
    assert s[..|s|] == s;
    if j > 0 && s[j - 1].category == c {
      RunWeight(s, j - 1);
    } else {
      forall i | 0 <= i < j
        ensures s[..j][i].category != c
      {
        assert Dir(Category(), false, s[i]) <= Dir(Category(), false, s[j - 1]) <= Dir(Category(), false, s[j]);
      }
      WeightAbsent(s[..j], c);
    }
  }

  lemma LastCarriesAll(s: seq<Cell>, j: nat)
    requires j < |s| && Sorted(s, Category(), false) && Counted(s) && LastOfRun(s, Category(), j)
    requires Weight(s, s[j].category) < 0x8000_0000
    ensures Add32(s[j].frequency, Carry(s, j)) == Weight(s, s[j].category)
  {
    hide Weight, Carry, Counted, Sorted;
    var c := s[j].category;
    RunWeight(s, j);
    WeightConcat(s[..j + 1], s[j + 1..], c);
    assert s == s[..j + 1] + s[j + 1..];
    RunOver(s, j, s[j + 1..]);
    WeightAbsent(s[j + 1..], c);
  }

  /** After the last cell of a run its category does not occur again. */
  lemma RunOver(s: seq<Cell>, j: nat, rest: seq<Cell>)
    requires j < |s| && Sorted(s, Category(), false) && LastOfRun(s, Category(), j) && rest == s[j + 1..]
    ensures forall i :: 0 <= i < |rest| ==> rest[i].category != s[j].category
  {
    forall i | 0 <= i < |rest|
      ensures rest[i].category != s[j].category
    {
      assert Dir(Category(), false, s[j]) <= Dir(Category(), false, s[j + 1]);
      assert i > 0 ==> Dir(Category(), false, s[j + 1]) <= Dir(Category(), false, s[j + 1 + i]);
    }
  }

  // ---- Histograms ----

  /** Each category of m once, strictly descending, with its number of occurrences; then null cells only. */
  ghost predicate Histogram(r: seq<Cell>, m: multiset<Int32>) {
    exists k: nat :: IsHistogram(r, m, k)
  }

  ghost predicate Occurs(r: seq<Cell>, c: Int32) {
    exists i :: 0 <= i < |r| && r[i].category == c
  }

  ghost predicate IsHistogram(r: seq<Cell>, m: multiset<Int32>, k: nat) {
    && k <= |r|
    && (forall i, j :: 0 <= i < j < k ==> r[i].category > r[j].category)
    && (forall i :: 0 <= i < k ==> r[i].category != NONE && r[i].category in m && r[i].frequency == m[r[i].category])
    && (forall c :: c in m ==> Occurs(r[..k], c))
    && (forall i :: k <= i < |r| ==> r[i].category == NONE)
  }

  /** The weight of every category in s is its number of occurrences in m, within 32 bits. */
  ghost predicate Weighs(s: seq<Cell>, m: multiset<Int32>) {
    && Counted(s) && NONE !in m && |m| < 0x8000_0000
    && forall c: Int32 :: c != NONE ==> Weight(s, c) == m[c]
  }

  lemma {:induction false} SomeCellWeighs(s: seq<Cell>, c: Int32) returns (i: nat)
    requires Weight(s, c) != 0
    ensures i < |s| && s[i].category == c
  {
    var n := |s| - 1;
    if s[n].category == c {
      i := n;
    } else {
      i := SomeCellWeighs(s[..n], c);
    }
  }

  lemma OccurrencesBounded(m: multiset<Int32>, c: Int32)
    ensures m[c] <= |m|
  {
    assert m == (m - multiset{c}[c := m[c]]) + multiset{c}[c := m[c]];
  }

  lemma SummedKeepsLast(s: seq<Cell>)
    ensures KeepsLast(s, Summed(s), Category())
    ensures Marked(Summed(s), Category(), EraseCategory()) == Summed(s)
  {
    var m := Summed(s);
    forall i | 0 <= i < |s|
      ensures KeepsCell(s, m, Category(), i)
    {}
    hide KeepsLast, Carry;
    forall i | 0 <= i < |s|
      ensures Marked(m, Category(), EraseCategory())[i] == m[i]
    {
      assert m[i] == SummedCell(s, i);
      if i + 1 < |s| {
        assert m[i + 1] == SummedCell(s, i + 1);
      }
    }
  }

  /** A live cell of the summed list carries the whole count of its category. */
  lemma SummedCounts(s: seq<Cell>, m: multiset<Int32>, p: nat)
    requires Sorted(s, Category(), false) && Weighs(s, m) && p < |s| && LastOfRun(s, Category(), p)
    ensures Summed(s)[p].frequency == m[s[p].category] && s[p].category in m
  {
    OccurrencesBounded(m, s[p].category);
    LastCarriesAll(s, p);
    var c := s[p].category;
    WeightGrows(s, c, p, p);
    WeightGrows(s, c, p + 1, |s|);
    assert s[..|s|] == s && s[..p + 1][..p] == s[..p];
    hide Carry;
  }

  /** Compacting the summed list leaves a histogram. */
  lemma SummedCompacts(s: seq<Cell>, m: multiset<Int32>, r: seq<Cell>)
    requires Sorted(s, Category(), false) && Weighs(s, m) && IsCompacted(Summed(s), Live(Category()), r)
    ensures Histogram(r, m)
  {
    var l := LiveCells(Summed(s), Live(Category()));
    var k := |l|;
    SummedKeepsLast(s);
    hide LiveCells, Summed, Sorted, Marked, Weight;
    forall i: nat, j: nat | i < j < k
      ensures l[i].category > l[j].category
    {
      KeptDescend(s, Summed(s), Category(), i, j);
    }
    forall i: nat | i < k
      ensures l[i].category != NONE && l[i].category in m && l[i].frequency == m[l[i].category]
    {
      var p := KeptFrom(s, Summed(s), Category(), i);
      assert KeepsCell(s, Summed(s), Category(), p);
      SummedCounts(s, m, p);
    }
    assert r[..k] == l;
    forall c | c in m
      ensures Occurs(r[..k], c)
    {
      assert Weight(s, c) == m[c];
      var i := SomeCellWeighs(s, c);
      var x := KeptAll(s, Summed(s), Category(), i);
      assert r[..k][x].category == c;
    }
    assert IsHistogram(r, m, k);
  }

  /** Marks and compacts a summed list. */
  method Finish(cells: array<Cell>, ghost s: seq<Cell>, ghost m: multiset<Int32>)
    requires cells.Length >= 2 && cells[..] == Summed(s)
    requires Sorted(s, Category(), false) && Weighs(s, m)
    modifies cells
    ensures Histogram(cells[..], m)
  {
    SummedKeepsLast(s);
    hide Summed, Sorted, Weighs, Histogram, Marked, KeepsLast;
    var distance := ComputeDistanceMarkDuplicates(cells, Category(), EraseCategory());
    Compact(distance, cells, Live(Category()), NULL_CELL);
    SummedCompacts(s, m, cells[..]);
  }

  // ---- One chunk, one merge ----

  function Categories(s: seq<Cell>): (r: seq<Int32>)
    ensures |r| == |s|
  {
    seq(|s|, i requires 0 <= i < |s| => s[i].category)
  }

  ghost predicate InRange(m: multiset<Int32>, n: nat) {
    |m| < 0x8000_0000 && forall c :: c in m ==> 0 <= c < n
  }

  lemma {:induction false} OnesWeigh(s: seq<Cell>, c: Int32)
    ensures Weight(Ones(s), c) == multiset(Categories(s))[c]
  {
    if s != [] {
      var n := |s| - 1;
      OnesWeigh(s[..n], c);
      assert Ones(s)[..n] == Ones(s[..n]);
      assert Categories(s) == Categories(s[..n]) + [s[n].category];
    }
  }

  lemma CategoriesTakeOut(b: seq<Cell>, i: nat)
    requires i < |b|
    ensures multiset(Categories(b)) == multiset(Categories(b[..i] + b[i + 1..])) + multiset{b[i].category}
  {
    var x, y := Categories(b[..i]), Categories(b[i + 1..]);
    assert Categories(b) == x + [b[i].category] + y;
    assert Categories(b[..i] + b[i + 1..]) == x + y;
  }

  lemma {:induction false} SameCategories(a: seq<Cell>, b: seq<Cell>)
    requires multiset(a) == multiset(b)
    ensures multiset(Categories(a)) == multiset(Categories(b))
  {
    if a == [] {
      assert |multiset(b)| == 0;
    } else {
      var n := |a| - 1;
      SameRecords(a, b, a[n]);
      var i :| 0 <= i < |b| && b[i] == a[n];
      assert a == a[..n] + [a[n]] && a[..n] + a[n + 1..] == a[..n];
      TakeOut(b, i, 0);
      SameCategories(a[..n], b[..i] + b[i + 1..]);
      CategoriesTakeOut(a, n);
      CategoriesTakeOut(b, i);
      hide *;
    }
  }

  /** The histogram of a chunk of categories. */
  method CountChunk(chunk: seq<Cell>, n: nat) returns (r: seq<Cell>)
    requires |chunk| >= 2 && InRange(multiset(Categories(chunk)), n)
    ensures |r| == |chunk| && Histogram(r, multiset(Categories(chunk)))
  {
    var sorted := Sort(chunk, Category(), false);
    SortCorrect(chunk, Category(), false);
    ghost var m := multiset(Categories(chunk));
    OnesReady(chunk, sorted, n);
    hide Sort, Sorted, Weighs, Histogram, Ones, Summed, Categories;
    var cells := new Cell[|sorted|](i requires 0 <= i < |sorted| => sorted[i]);
    assert cells[..] == sorted;
    CountRuns(cells);
    Finish(cells, Ones(sorted), m);
    r := cells[..];
  }

  lemma OnesReady(chunk: seq<Cell>, sorted: seq<Cell>, n: nat)
    requires InRange(multiset(Categories(chunk)), n)
    requires Sorted(sorted, Category(), false) && multiset(sorted) == multiset(chunk)
    ensures Sorted(Ones(sorted), Category(), false) && Weighs(Ones(sorted), multiset(Categories(chunk)))
  {
    SameCategories(sorted, chunk);
    forall c: Int32
      ensures Weight(Ones(sorted), c) == multiset(Categories(chunk))[c]
    {
      OnesWeigh(sorted, c);
    }
    assert forall i :: 0 <= i < |sorted| ==> Ones(sorted)[i].category == sorted[i].category;
    forall i, j | 0 <= i < j < |sorted|
      ensures Dir(Category(), false, Ones(sorted)[i]) <= Dir(Category(), false, Ones(sorted)[j])
    {
      assert Dir(Category(), false, sorted[i]) <= Dir(Category(), false, sorted[j]);
    }
  }

  lemma {:induction false} WeightOfOnly(s: seq<Cell>, c: Int32, i: nat)
    requires i < |s| && s[i].category == c && forall j :: 0 <= j < |s| && s[j].category == c ==> j == i
    ensures Weight(s, c) == s[i].frequency
  {
    var n := |s| - 1;
    if i == n {
      WeightAbsent(s[..n], c);
    } else {
      WeightOfOnly(s[..n], c, i);
    }
  }

  lemma HistogramWeight(r: seq<Cell>, m: multiset<Int32>, k: nat, c: Int32)
    requires IsHistogram(r, m, k) && c != NONE
    ensures Weight(r, c) == m[c]
  {
    hide Weight;
    if c in m {
      var i :| 0 <= i < |r[..k]| && r[..k][i].category == c;
      assert r[i].category == c;
      WeightOfOnly(r, c, i);
    } else {
      WeightAbsent(r, c);
    }
  }

  /** A histogram is in descending order, and weighs what it counts. */
  lemma HistogramWeighs(r: seq<Cell>, m: multiset<Int32>, n: nat)
    requires Histogram(r, m) && InRange(m, n)
    ensures Sorted(r, Category(), false) && Weighs(r, m)
  {
    var k: nat :| IsHistogram(r, m, k);
    forall c: Int32 | c != NONE
      ensures Weight(r, c) == m[c]
    {
      HistogramWeight(r, m, k, c);
    }
    hide Weight;
  }

  /** Merging two histograms: reverse the first, merge descending, sum runs, mark, compact. */
  method MergeChunks(h1: seq<Cell>, h2: seq<Cell>, n: nat, ghost m1: multiset<Int32>, ghost m2: multiset<Int32>)
    returns (r: seq<Cell>)
    requires |h1| == |h2| >= 1 && Histogram(h1, m1) && Histogram(h2, m2)
    requires InRange(m1, n) && InRange(m2, n) && |m1| + |m2| < 0x8000_0000
    ensures |r| == |h1| + |h2| && Histogram(r, m1 + m2)
  {
    HistogramWeighs(h1, m1, n);
    HistogramWeighs(h2, m2, n);
    ReversedSorted(h1, Category(), false);
    ReversedRecords(h1);
    MergeCorrect(Reversed(h1), h2, Category(), false);
    var merged := Merge(Reversed(h1) + h2, Category(), false);
    MergedWeighs(h1, h2, merged, m1, m2);
    hide Merge, Sorted, Weighs, Histogram, Summed;
    var cells := new Cell[|merged|](i requires 0 <= i < |merged| => merged[i]);
    assert cells[..] == merged;
    SumRuns(cells);
    Finish(cells, merged, m1 + m2);
    r := cells[..];
  }

  lemma MergedWeighs(h1: seq<Cell>, h2: seq<Cell>, merged: seq<Cell>, m1: multiset<Int32>, m2: multiset<Int32>)
    requires Weighs(h1, m1) && Weighs(h2, m2) && multiset(merged) == multiset(h1) + multiset(h2)
    requires |m1| + |m2| < 0x8000_0000
    ensures Weighs(merged, m1 + m2)
  {
    assert multiset(merged) == multiset(h1 + h2);
    forall c: Int32 | c != NONE
      ensures Weight(merged, c) == (m1 + m2)[c]
    {
      WeightOfRecords(merged, h1 + h2, c);
      WeightConcat(h1, h2, c);
    }
    forall i | 0 <= i < |merged|
      ensures merged[i] in h1 || merged[i] in h2
    {
      SameRecords(merged, h1 + h2, merged[i]);
    }
    hide Weight;
  }

  /** A histogram keeps its meaning without null cells at the end. */
  lemma DropNulls(r: seq<Cell>, m: multiset<Int32>, k: nat, n: nat)
    requires IsHistogram(r, m, k) && k <= n <= |r|
    ensures IsHistogram(r[..n], m, k)
  {
    hide Occurs;
    assert r[..n][..k] == r[..k];
  }

  /** Categories in [0, n) leave nothing but null cells beyond the first n. */
  lemma OnlyNullsErased(r: seq<Cell>, m: multiset<Int32>, n: nat)
    requires Histogram(r, m) && InRange(m, n) && n <= |r|
    ensures forall i :: n <= i < |r| ==> r[i].category == NONE
    ensures Histogram(r[..n], m)
  {
    var k: nat :| IsHistogram(r, m, k);
    if k > 0 {
      DescendingFits(r, m, k, n, k - 1);
      assert r[k - 1].category in m;
    }
    DropNulls(r, m, k, n);
    hide Occurs;
  }

  lemma {:induction false} DescendingFits(r: seq<Cell>, m: multiset<Int32>, k: nat, n: nat, i: nat)
    requires i < k && IsHistogram(r, m, k) && InRange(m, n)
    ensures r[i].category + i < n
  {
    if i > 0 {
      DescendingFits(r, m, k, n, i - 1);
      assert r[i - 1].category > r[i].category;
    }
  }

  // ---- The whole query ----

  /** The chunk results stand one after the other: n cells with the histogram of each part in turn. */
  ghost predicate Blocks(cells: seq<Cell>, parts: seq<multiset<Int32>>, n: nat) {
    if parts == [] then cells == []
    else n <= |cells| && Histogram(cells[..n], parts[0]) && InRange(parts[0], n) && Blocks(cells[n..], parts[1..], n)
  }

  ghost function Total(parts: seq<multiset<Int32>>): multiset<Int32> {
    if parts == [] then multiset{} else parts[0] + Total(parts[1..])
  }

  lemma {:induction false} BlocksLength(cells: seq<Cell>, parts: seq<multiset<Int32>>, n: nat)
    requires Blocks(cells, parts, n)
    ensures |cells| == |parts| * n
  {
    hide Histogram, InRange;
    if parts != [] {
      BlocksLength(cells[n..], parts[1..], n);
      assert |parts| * n == (|parts| - 1) * n + n;
    }
  }

  lemma {:induction false} BlocksAppend(cells: seq<Cell>, parts: seq<multiset<Int32>>, n: nat, block: seq<Cell>,
          part: multiset<Int32>)
    requires Blocks(cells, parts, n) && |block| == n && Histogram(block, part) && InRange(part, n)
    ensures Blocks(cells + block, parts + [part], n)
    ensures Total(parts + [part]) == Total(parts) + part
  {
    hide Histogram, InRange;
    if parts == [] {
      assert (cells + block)[..n] == block && (cells + block)[n..] == [];
    } else {
      BlocksAppend(cells[n..], parts[1..], n, block, part);
      assert (cells + block)[n..] == cells[n..] + block && (cells + block)[..n] == cells[..n];
      assert (parts + [part])[1..] == parts[1..] + [part];
    }
  }

  lemma InRangePart(whole: multiset<Int32>, part: multiset<Int32>, other: multiset<Int32>, n: nat)
    requires InRange(whole, n) && whole == part + other
    ensures InRange(part, n) && InRange(other, n) && |part| + |other| == |whole|
  {
    assert |whole| == |part| + |other|;
    assert forall c :: c in part || c in other ==> c in whole;
  }

  lemma CutChunk(rest: seq<Cell>, size: nat, n: nat, whole: multiset<Int32>, total: multiset<Int32>)
    requires size <= |rest| && InRange(whole, n) && whole == total + multiset(Categories(rest))
    ensures InRange(multiset(Categories(rest[..size])), n)
    ensures multiset(Categories(rest)) == multiset(Categories(rest[..size])) + multiset(Categories(rest[size..]))
  {
    var x, y := multiset(Categories(rest[..size])), multiset(Categories(rest[size..]));
    assert Categories(rest) == Categories(rest[..size]) + Categories(rest[size..]);
    InRangePart(whole, x + y, total, n);
    InRangePart(x + y, x, y, n);
    hide InRange, Categories;
  }

  lemma ChunkSlices(cells: seq<Cell>, done: seq<Cell>, rest: seq<Cell>, start: nat, size: nat)
    requires cells == done + rest && start == |done| && size <= |rest|
    ensures start + size <= |cells| && cells[start..start + size] == rest[..size]
    ensures cells[..start] == done && cells[start + size..] == rest[size..]
  {}

  /** How many whole chunks there are. */
  function Chunks(count: nat, size: nat): nat
    requires size > 0
  {
    count / size
  }

  /** What is left over of the input. */
  function LeftOver(input: seq<Cell>, size: nat): (tail: seq<Cell>)
    requires size > 0
    ensures |tail| <= |input|
  {
    input[|input| - |input| % size..]
  }

  lemma WholeChunks(input: seq<Cell>, size: nat)
    requires size > 0
    ensures LeftOver(input, size) == [] <==> |input| % size == 0
    ensures LeftOver(input, size) == [] && input != [] ==> Chunks(|input|, size) > 0
  {}

  /** What remains of the input is k chunks and a tail. */
  ghost predicate Remains(input: seq<Cell>, rest: seq<Cell>, k: nat, size: nat, tail: nat) {
    |rest| == k * size + tail && |rest| <= |input| && rest == input[|input| - |rest|..]
  }

  lemma AllRemains(input: seq<Cell>, size: nat)
    requires size > 0
    ensures Remains(input, input, Chunks(|input|, size), size, |LeftOver(input, size)|)
    ensures LeftOver(input, size) == input[|input| - |LeftOver(input, size)|..]
  {}

  lemma OneChunkLess(input: seq<Cell>, rest: seq<Cell>, k: nat, size: nat, tail: nat)
    requires k > 0 && Remains(input, rest, k, size, tail)
    ensures size <= |rest| && Remains(input, rest[size..], k - 1, size, tail)
  {
    assert k * size == (k - 1) * size + size;
  }

  /** Where the first pass stands: the histograms of the chunks counted so far, then the uncounted rest. */
  ghost predicate FirstPass(whole: multiset<Int32>, n: nat, cells: seq<Cell>, done: seq<Cell>,
          parts: seq<multiset<Int32>>, rest: seq<Cell>) {
    cells == done + rest && Blocks(done, parts, n) && whole == Total(parts) + multiset(Categories(rest))
  }

  lemma FirstPassStarts(input: seq<Cell>, n: nat)
    ensures FirstPass(multiset(Categories(input)), n, input, [], [], input)
  {
    assert [] + input == input;
  }

  /** The next chunk stands where the code looks for it. */
  lemma FirstPassChunk(whole: multiset<Int32>, n: nat, cells: seq<Cell>, done: seq<Cell>,
          parts: seq<multiset<Int32>>, rest: seq<Cell>,
                       start: nat, size: nat)
    requires FirstPass(whole, n, cells, done, parts, rest) && InRange(whole, n)
    requires start == |parts| * n && size <= |rest|
    ensures start + size <= |cells| && cells[start..start + size] == rest[..size]
    ensures InRange(multiset(Categories(rest[..size])), n)
  {
    BlocksLength(done, parts, n);
    CutChunk(rest, size, n, whole, Total(parts));
    hide Blocks, Total, InRange, Categories;
    ChunkSlices(cells, done, rest, start, size);
  }

  /** Putting its histogram in its place. */
  lemma FirstPassStep(whole: multiset<Int32>, n: nat, cells: seq<Cell>, done: seq<Cell>,
          parts: seq<multiset<Int32>>, rest: seq<Cell>,
                      start: nat, size: nat, block: seq<Cell>)
    requires FirstPass(whole, n, cells, done, parts, rest) && InRange(whole, n)
    requires start == |parts| * n && size <= |rest| && start + size <= |cells|
    requires |block| == n && Histogram(block, multiset(Categories(rest[..size])))
    ensures FirstPass(whole, n, cells[..start] + block + cells[start + size..], done + block,
                      parts + [multiset(Categories(rest[..size]))], rest[size..])
  {
    BlocksLength(done, parts, n);
    CutChunk(rest, size, n, whole, Total(parts));
    BlocksAppend(done, parts, n, block, multiset(Categories(rest[..size])));
    hide Blocks, Total, InRange, Categories, Histogram;
    ChunkSlices(cells, done, rest, start, size);
    assert done + block + rest[size..] == (done + block) + rest[size..];
  }

  /** A histogram of n cells for each chunk, then the tail as it was; together they account for the whole. */
  ghost predicate HistogramPerChunk(cells: seq<Cell>, n: nat, chunks: nat, tail: seq<Cell>, whole: multiset<Int32>) {
    exists done: seq<Cell>, parts: seq<multiset<Int32>> ::
      |parts| == chunks && FirstPass(whole, n, cells, done, parts, tail)
  }

  lemma FirstPassEnds(input: seq<Cell>, n: nat, cells: seq<Cell>, done: seq<Cell>,
          parts: seq<multiset<Int32>>, rest: seq<Cell>, size: nat, tail: nat)
    requires FirstPass(multiset(Categories(input)), n, cells, done, parts, rest)
    requires tail <= |input| && Remains(input, rest, 0, size, tail)
    ensures HistogramPerChunk(cells, n, |parts|, input[|input| - tail..], multiset(Categories(input)))
  {
    hide FirstPass, Categories;
  }

  /**
   The first pass: every whole chunk is replaced, where it stands, by the first n cells of its histogram.
   What is left over of the input is not touched.
   */
  method CountAll(input: seq<Cell>, n: nat, chunkSize: nat) returns (cells: seq<Cell>)
    requires n >= 1 && chunkSize >= 2 && chunkSize >= n
    requires InRange(multiset(Categories(input)), n)
    ensures HistogramPerChunk(cells, n, Chunks(|input|, chunkSize), LeftOver(input, chunkSize),
                              multiset(Categories(input)))
  {
    hide *;
    cells := input;
    var chunks := Chunks(|input|, chunkSize);
    ghost var tail := |LeftOver(input, chunkSize)|;
    ghost var parts: seq<multiset<Int32>> := [];
    ghost var whole, done: seq<Cell>, rest := multiset(Categories(input)), [], input;
    FirstPassStarts(input, n);
    AllRemains(input, chunkSize);
    var i := 0;
    while i < chunks
      invariant 0 <= i <= chunks && |parts| == i && Remains(input, rest, chunks - i, chunkSize, tail)
      invariant FirstPass(whole, n, cells, done, parts, rest)
    {
      var start := i * n;
      OneChunkLess(input, rest, chunks - i, chunkSize, tail);
      FirstPassChunk(whole, n, cells, done, parts, rest, start, chunkSize);
      var counted := CountChunk(cells[start..start + chunkSize], n);
      ghost var part := multiset(Categories(rest[..chunkSize]));
      OnlyNullsErased(counted, part, n);
      FirstPassStep(whole, n, cells, done, parts, rest, start, chunkSize, counted[..n]);
      cells := cells[..start] + counted[..n] + cells[start + chunkSize..];
      done, parts, rest := done + counted[..n], parts + [part], rest[chunkSize..];
      i := i + 1;
    }
    FirstPassEnds(input, n, cells, done, parts, rest, chunkSize, tail);
  }

  /** The list has the expected length exactly when nothing is left over, and then it is one histogram per chunk. */
  lemma LengthTells(cells: seq<Cell>, n: nat, chunks: nat, tail: seq<Cell>, whole: multiset<Int32>)
    requires HistogramPerChunk(cells, n, chunks, tail, whole)
    ensures chunks * n == |cells| <==> tail == []
    ensures tail == [] ==> exists parts: seq<multiset<Int32>> ::
              |parts| == chunks && Blocks(cells, parts, n) && Total(parts) == whole
  {
    var done: seq<Cell>, parts: seq<multiset<Int32>> :|
      |parts| == chunks && FirstPass(whole, n, cells, done, parts, tail);
    BlocksLength(done, parts, n);
    hide Blocks, Total;
    if tail == [] {
      assert Categories(tail) == [] && cells == done;
    }
  }

  /** Replacing the first two blocks by their merge. */
  lemma BlocksMerged(cells: seq<Cell>, parts: seq<multiset<Int32>>, n: nat, merged: seq<Cell>, whole: multiset<Int32>)
    requires |parts| >= 2 && Blocks(cells, parts, n) && Total(parts) == whole && InRange(whole, n)
    requires |merged| == 2 * n && Histogram(merged, parts[0] + parts[1])
    ensures 2 * n <= |cells|
    ensures var p := [parts[0] + parts[1]] + parts[2..];
            Blocks(merged[..n] + cells[2 * n..], p, n) && Total(p) == whole
  {
    var m := parts[0] + parts[1];
    assert parts[1..][1..] == parts[2..] && cells[n..][n..] == cells[2 * n..];
    InRangePart(whole, m, Total(parts[2..]), n);
    OnlyNullsErased(merged, m, n);
    hide Histogram, InRange;
    var p, c := [m] + parts[2..], merged[..n] + cells[2 * n..];
    assert p[1..] == parts[2..] && c[n..] == cells[2 * n..] && c[..n] == merged[..n];
  }

  lemma FirstTwoBlocks(cells: seq<Cell>, parts: seq<multiset<Int32>>, n: nat, whole: multiset<Int32>)
    requires |parts| >= 2 && Blocks(cells, parts, n) && Total(parts) == whole && InRange(whole, n)
    ensures 2 * n <= |cells| && Histogram(cells[..n], parts[0]) && Histogram(cells[n..2 * n], parts[1])
    ensures InRange(parts[0], n) && InRange(parts[1], n) && |parts[0]| + |parts[1]| < 0x8000_0000
  {
    assert parts[1..][1..] == parts[2..] && cells[n..][..n] == cells[n..2 * n];
    InRangePart(whole, parts[0] + parts[1], Total(parts[2..]), n);
    assert |parts[0] + parts[1]| == |parts[0]| + |parts[1]|;
    hide Histogram;
  }

  /**
   The whole query: the first pass, then the merge tree, always merging the first two chunk results.
   It stops after the first pass exactly when the input is not made of whole chunks; otherwise it ends
   with the histogram of the whole input.
   */
  method CountCategories(input: seq<Cell>, n: nat, chunkSize: nat) returns (ok: bool, cells: seq<Cell>)
    requires n >= 1 && |input| > 0 && chunkSize >= 2 && chunkSize >= n
    requires InRange(multiset(Categories(input)), n)
    ensures ok <==> |input| % chunkSize == 0
    ensures ok ==> |cells| == n && Histogram(cells, multiset(Categories(input)))
  {
    hide *;
    ghost var whole := multiset(Categories(input));
    var chunks := Chunks(|input|, chunkSize);
    cells := CountAll(input, n, chunkSize);
    WholeChunks(input, chunkSize);
    LengthTells(cells, n, chunks, LeftOver(input, chunkSize), whole);
    ok := chunks * n == |cells|;
    if ok {
      ghost var parts: seq<multiset<Int32>> :|
        |parts| == chunks && Blocks(cells, parts, n) && Total(parts) == whole;
      cells := MergeAll(cells, n, chunks, parts, whole);
    }
  }

  /** The merge tree: the histograms of the chunks become that of the whole. */
  method MergeAll(histograms: seq<Cell>, n: nat, chunks: nat, ghost parts0: seq<multiset<Int32>>,
          ghost whole: multiset<Int32>)
    returns (cells: seq<Cell>)
    requires |parts0| == chunks > 0 && n >= 1
    requires Blocks(histograms, parts0, n) && Total(parts0) == whole && InRange(whole, n)
    ensures |cells| == n && Histogram(cells, whole)
  {
    hide *;
    cells := histograms;
    ghost var parts := parts0;
    for i := 0 to chunks - 1
      invariant |parts| == chunks - i && Blocks(cells, parts, n) && Total(parts) == whole
    {
      FirstTwoBlocks(cells, parts, n, whole);
      var merged := MergeChunks(cells[..n], cells[n..2 * n], n, parts[0], parts[1]);
      BlocksMerged(cells, parts, n, merged, whole);
      cells := merged[..n] + cells[2 * n..];
      parts := [parts[0] + parts[1]] + parts[2..];
    }
    LastBlock(cells, parts, n);
  }

  lemma LastBlock(cells: seq<Cell>, parts: seq<multiset<Int32>>, n: nat)
    requires |parts| == 1 && Blocks(cells, parts, n)
    ensures |cells| == n && Histogram(cells, Total(parts))
  {
    assert parts[1..] == [] && cells[n..] == [] && cells[..n] == cells;
    assert Total(parts[1..]) == multiset{} && Total(parts) == parts[0];
    hide Histogram, InRange;
  }
}
