/**
 The chunked, secret-shared bitonic sort.  Alice and Bob each hold an array of xor shares; whatever
 is compared is combined inside a circuit of bounded size and re-blinded with fresh randomness before
 it leaves it.  On the xor of the two arrays the procedures act as the unchunked network does.
 */
module SharedSort {
  import opened Powers
  import opened BitVectors
  import opened Network
  import opened NetworkInPlace
  import opened NetworkCost

  const KEY_BITS: nat := 256 + 32
  const DATA_BITS: nat := 256

  type KeyBits = b: Bits | |b| == KEY_BITS witness seq(KEY_BITS, _ => false)
  type DataBits = b: Bits | |b| == DATA_BITS witness seq(DATA_BITS, _ => false)

  /** The key (user and timestamp) and the data (payload) of an encounter, or a share of them. */
  datatype Share = Share(key: KeyBits, data: DataBits)

  function XorBits(a: Bits, b: Bits): (r: Bits)
    requires |a| == |b|
    ensures |r| == |a|
  {
    seq(|a|, i requires 0 <= i < |a| => a[i] != b[i])
  }

  function Xor(a: Share, b: Share): Share {
    Share(XorBits(a.key, b.key), XorBits(a.data, b.data))
  }

  /** Blinding twice with the same value undoes it. */
  lemma XorCancels(x: Share, r: Share)
    ensures Xor(Xor(x, r), r) == x
  {
    assert XorBits(XorBits(x.key, r.key), r.key) == x.key;
    assert XorBits(XorBits(x.data, r.data), r.data) == x.data;
  }

  /** The sequence two share arrays stand for. */
  function Combined(a: seq<Share>, b: seq<Share>): (s: seq<Share>)
    requires |a| == |b|
    ensures |s| == |a|
  {
    seq(|a|, i requires 0 <= i < |a| => Xor(a[i], b[i]))
  }

  /** A bit of what two shares stand for is set if and only if it is in exactly one of them. */
  lemma CombinedBits(a: seq<Share>, b: seq<Share>, i: nat)
    requires |a| == |b| && i < |a|
    ensures forall p :: 0 <= p < KEY_BITS ==> (Combined(a, b)[i].key[p] <==> a[i].key[p] != b[i].key[p])
    ensures forall p :: 0 <= p < DATA_BITS ==> (Combined(a, b)[i].data[p] <==> a[i].data[p] != b[i].data[p])
  {}

  /** Keys are compared as signed integers. */
  function KeyOrder(): Share -> int {
    (e: Share) => if e.key[KEY_BITS - 1] then Unsigned(e.key) - Pow2(KEY_BITS) else Unsigned(e.key)
  }

  /** a and b differ, and at their most significant differing bit a has 0 and b has 1. */
  ghost predicate BitsBelow(a: Bits, b: Bits)
    requires |a| == |b|
  {
    exists p :: 0 <= p < |a| && !a[p] && b[p] && a[p + 1..] == b[p + 1..]
  }

  /**
   a comes no later than b as a signed key: they are equal, or only a has the sign bit, or the sign bits
   agree and a has 0 at the most significant differing bit.
   */
  ghost predicate KeyUpTo(a: KeyBits, b: KeyBits) {
    || a == b
    || (a[KEY_BITS - 1] && !b[KEY_BITS - 1])
    || (a[KEY_BITS - 1] == b[KEY_BITS - 1] && BitsBelow(a, b))
  }

  lemma {:induction false} UnsignedBelow(a: Bits, b: Bits)
    requires |a| == |b|
    ensures Unsigned(a) < Unsigned(b) <==> BitsBelow(a, b)
    ensures Unsigned(a) == Unsigned(b) <==> a == b
  {
    if a != [] {
      UnsignedBelow(a[1..], b[1..]);
      BelowStep(a, b);
    }
  }

  lemma BelowStep(a: Bits, b: Bits)
    requires |a| == |b| > 0
    ensures BitsBelow(a, b) <==> BitsBelow(a[1..], b[1..]) || (a[1..] == b[1..] && !a[0] && b[0])
    ensures a == b <==> a[1..] == b[1..] && a[0] == b[0]
  {
    assert a == [a[0]] + a[1..] && b == [b[0]] + b[1..];
    assert forall p :: 0 <= p < |a| - 1 ==> a[1..][p] == a[p + 1] && a[1..][p + 1..] == a[p + 2..];
    assert forall p :: 0 <= p < |a| - 1 ==> b[1..][p] == b[p + 1] && b[1..][p + 1..] == b[p + 2..];
    if BitsBelow(a, b) {
      var p :| 0 <= p < |a| && !a[p] && b[p] && a[p + 1..] == b[p + 1..];
      if p > 0 {
        assert a[1..][p - 1 + 1..] == b[1..][p - 1 + 1..];
      }
    }
    if BitsBelow(a[1..], b[1..]) {
      var p :| 0 <= p < |a| - 1 && !a[1..][p] && b[1..][p] && a[1..][p + 1..] == b[1..][p + 1..];
      assert a[p + 1 + 1..] == b[p + 1 + 1..];
    }
  }

  /** The order is the signed comparison of the keys' bits. */
  lemma KeyOrderIs(x: Share, y: Share)
    ensures KeyOrder()(x) <= KeyOrder()(y) <==> KeyUpTo(x.key, y.key)
  {
    UnsignedBelow(x.key, y.key);
    hide Unsigned, Pow2, BitsBelow;
    SignedKey(x, y);
  }

  lemma SignedKey(x: Share, y: Share)
    ensures 0 <= Unsigned(x.key) < Pow2(KEY_BITS)
    ensures KeyOrder()(x) == if x.key[KEY_BITS - 1] then Unsigned(x.key) - Pow2(KEY_BITS) else Unsigned(x.key)
    ensures KeyOrder()(y) == if y.key[KEY_BITS - 1] then Unsigned(y.key) - Pow2(KEY_BITS) else Unsigned(y.key)
  {
    hide Unsigned, Pow2;
  }

  /** In each direction, earlier records come no later by their keys. */
  ghost predicate KeysInOrder(s: seq<Share>, asc: bool) {
    forall i, j :: 0 <= i < j < |s| ==> if asc then KeyUpTo(s[i].key, s[j].key) else KeyUpTo(s[j].key, s[i].key)
  }

  lemma SortedKeys(s: seq<Share>, asc: bool)
    requires Sorted(s, KeyOrder(), asc)
    ensures KeysInOrder(s, asc)
  {
    SortedMeans(s, KeyOrder(), asc);
    hide KeyUpTo, KeyOrder, Sorted;
    forall i, j | 0 <= i < j < |s|
      ensures if asc then KeyUpTo(s[i].key, s[j].key) else KeyUpTo(s[j].key, s[i].key)
    {
      KeyOrderIs(s[i], s[j]);
      KeyOrderIs(s[j], s[i]);
    }
  }

  // ---- A level, cell by cell, and a level in chunks ----

  function Earlier<R>(x: R, y: R, rank: R -> int, asc: bool): R {
    if asc == (rank(x) > rank(y)) then y else x
  }

  function Later<R>(x: R, y: R, rank: R -> int, asc: bool): R {
    if asc == (rank(x) > rank(y)) then x else y
  }

  /** What m comparators (low + i, low + i + k) leave at position p. */
  function LevelCell<R>(s: seq<R>, low: nat, k: nat, m: nat, rank: R -> int, asc: bool, p: nat): R
    requires m <= k && low + m + k <= |s| && p < |s|
  {
    if low <= p < low + m then Earlier(s[p], s[p + k], rank, asc)
    else if low + k <= p < low + k + m then Later(s[p - k], s[p], rank, asc)
    else s[p]
  }

  lemma {:induction false} LevelCells<R>(s: seq<R>, low: nat, k: nat, m: nat, rank: R -> int, asc: bool, p: nat)
    requires 0 < k && m <= k && low + m + k <= |s| && p < |s|
    ensures LevelAt(s, low, k, m, rank, asc)[p] == LevelCell(s, low, k, m, rank, asc, p)
  {
    if m > 0 {
      LevelCells(s, low, k, m - 1, rank, asc, p);
      LevelCells(s, low, k, m - 1, rank, asc, low + m - 1);
      LevelCells(s, low, k, m - 1, rank, asc, low + m - 1 + k);
    }
  }

  /** Doing a level in two parts is doing it at once. */
  lemma {:induction false} LevelInParts<R>(s: seq<R>, low: nat, k: nat, m: nat, n: nat, rank: R -> int, asc: bool)
    requires 0 < k && low + m + n + k <= |s|
    ensures LevelAt(LevelAt(s, low, k, m, rank, asc), low + m, k, n, rank, asc) == LevelAt(s, low, k, m + n, rank, asc)
    ensures ComparedInLevel(low, k, m) + ComparedInLevel(low + m, k, n) == ComparedInLevel(low, k, m + n)
  {
    if n > 0 {
      LevelInParts(s, low, k, m, n - 1, rank, asc);
      hide CompareExchange;
    }
  }

  // ---- In and out of a circuit ----

  method Combine(alice: array<Share>, bob: array<Share>, low: nat, count: nat) returns (values: seq<Share>)
    requires alice.Length == bob.Length && low + count <= alice.Length
    ensures values == Combined(alice[..], bob[..])[low..low + count]
  {
    values := [];
    for i := 0 to count
      invariant values == Combined(alice[..], bob[..])[low..low + i]
    {
      values := values + [Xor(alice[low + i], bob[low + i])];
    }
  }

  /** Bob draws fresh blinds; Alice learns the values only xored with them. */
  method Reblind(alice: array<Share>, bob: array<Share>, low: nat, values: seq<Share>)
    requires alice != bob && alice.Length == bob.Length && low + |values| <= alice.Length
    modifies alice, bob
    ensures var was := old(Combined(alice[..], bob[..]));
            Combined(alice[..], bob[..]) == Overwritten(was, low, values)
  {
    hide Xor;
    for i := 0 to |values|
      invariant forall p :: 0 <= p < alice.Length && !(low <= p < low + i) ==>
                  alice[p] == old(alice[p]) && bob[p] == old(bob[p])
      invariant forall j :: 0 <= j < i ==> Xor(alice[low + j], bob[low + j]) == values[j]
    {
      var blind: Share := *;
      XorCancels(values[i], blind);
      bob[low + i] := blind;
      alice[low + i] := Xor(values[i], blind);
    }
  }

  /** Inside the circuit: compare and conditionally swap lows[i] with highs[i], for all i. */
  method CompareSwap(lows: seq<Share>, highs: seq<Share>, asc: bool) returns (lo: seq<Share>, hi: seq<Share>)
    requires |lows| == |highs|
    ensures Swapped(lows, highs, lo, hi, KeyOrder(), asc)
  {
    lo, hi := lows, highs;
    hide KeyOrder;
    for i := 0 to |lows|
      invariant |lo| == |hi| == |lows|
      invariant forall j :: 0 <= j < i ==> lo[j] == Earlier(lows[j], highs[j], KeyOrder(), asc)
      invariant forall j :: 0 <= j < i ==> hi[j] == Later(lows[j], highs[j], KeyOrder(), asc)
      invariant forall j :: i <= j < |lows| ==> lo[j] == lows[j] && hi[j] == highs[j]
    {
      var swap := (KeyOrder()(lo[i]) > KeyOrder()(hi[i])) == asc;
      if swap {
        lo, hi := lo[i := hi[i]], hi[i := lo[i]];
      }
    }
  }

  /** lo and hi are the chunks lows and highs, compared and swapped. */
  ghost predicate Swapped<R(!new)>(lows: seq<R>, highs: seq<R>, lo: seq<R>, hi: seq<R>, rank: R -> int, asc: bool) {
    && |lows| == |highs| == |lo| == |hi|
    && (forall j :: 0 <= j < |lows| ==> lo[j] == Earlier(lows[j], highs[j], rank, asc))
    && (forall j :: 0 <= j < |lows| ==> hi[j] == Later(lows[j], highs[j], rank, asc))
  }

  lemma SwappedSizes<R(!new)>(lows: seq<R>, highs: seq<R>, lo: seq<R>, hi: seq<R>, rank: R -> int, asc: bool)
    requires Swapped(lows, highs, lo, hi, rank, asc)
    ensures |lows| == |highs| == |lo| == |hi|
  {}

  /** s with values written at position low. */
  ghost function Overwritten<R>(s: seq<R>, low: nat, values: seq<R>): (t: seq<R>)
    requires low + |values| <= |s|
    ensures |t| == |s|
  {
    s[..low] + values + s[low + |values|..]
  }

  lemma OverwrittenAt<R>(s: seq<R>, low: nat, values: seq<R>, p: nat)
    requires low + |values| <= |s| && p < |s|
    ensures Overwritten(s, low, values)[p] == if low <= p < low + |values| then values[p - low] else s[p]
  {}

  /** Writing the swapped chunks back is doing the level's comparators between them. */
  lemma SwappedIsLevel<R(!new)>(s: seq<R>, lower: nat, higher: nat, count: nat, lo: seq<R>, hi: seq<R>,
          rank: R -> int, asc: bool)
    requires lower < higher && lower + count <= higher && higher + count <= |s|
    requires Swapped(s[lower..lower + count], s[higher..higher + count], lo, hi, rank, asc)
    ensures Overwritten(Overwritten(s, lower, lo), higher, hi) == LevelAt(s, lower, higher - lower, count, rank, asc)
  {
    var one := Overwritten(s, lower, lo);
    var now, level := Overwritten(one, higher, hi), LevelAt(s, lower, higher - lower, count, rank, asc);
    forall p | 0 <= p < |s|
      ensures now[p] == level[p]
    {
      OverwrittenAt(s, lower, lo, p);
      OverwrittenAt(one, higher, hi, p);
      LevelCells(s, lower, higher - lower, count, rank, asc, p);
      SwappedAt(s, lower, higher, count, lo, hi, rank, asc, p);
      hide Earlier, Later, Overwritten, Swapped, LevelAt;
    }
  }

  lemma SwappedAt<R(!new)>(s: seq<R>, lower: nat, higher: nat, count: nat, lo: seq<R>, hi: seq<R>, rank: R -> int,
          asc: bool, p: nat)
    requires lower + count <= higher && higher + count <= |s|
    requires Swapped(s[lower..lower + count], s[higher..higher + count], lo, hi, rank, asc)
    ensures lower <= p < lower + count ==> lo[p - lower] == Earlier(s[p], s[p + higher - lower], rank, asc)
    ensures higher <= p < higher + count ==> hi[p - higher] == Later(s[p - (higher - lower)], s[p], rank, asc)
  {
    hide Earlier, Later;
  }

  /** mergeChunks2PC(): comparators (lower + i, higher + i) for all i below count. */
  method MergeChunks(alice: array<Share>, bob: array<Share>, lower: nat, higher: nat, count: nat, asc: bool)
    requires alice != bob && alice.Length == bob.Length
    requires lower < higher && lower + count <= higher && higher + count <= alice.Length
    modifies alice, bob
    ensures Combined(alice[..], bob[..])
         == LevelAt(old(Combined(alice[..], bob[..])), lower, higher - lower, count, KeyOrder(), asc)
  {
    hide *;
    ghost var was := Combined(alice[..], bob[..]);
    var lows := Combine(alice, bob, lower, count);
    var highs := Combine(alice, bob, higher, count);
    var lo, hi := CompareSwap(lows, highs, asc);
    SwappedSizes(lows, highs, lo, hi, KeyOrder(), asc);
    SwappedIsLevel(was, lower, higher, count, lo, hi, KeyOrder(), asc);
    Reblind(alice, bob, lower, lo);
    Reblind(alice, bob, higher, hi);
  }

  // ---- The merge ----

  /** emp's own network over a slice that fits one circuit. */
  method MergeInCircuit(alice: array<Share>, bob: array<Share>, low: nat, count: nat, asc: bool)
    requires alice != bob && alice.Length == bob.Length && low + count <= alice.Length
    modifies alice, bob
    ensures Combined(alice[..], bob[..]) == MergeAt(old(Combined(alice[..], bob[..])), low, count, KeyOrder(), asc)
  {
    hide *;
    ghost var was := Combined(alice[..], bob[..]);
    var values := Combine(alice, bob, low, count);
    MergeOverwrites(was, low, count, KeyOrder(), asc);
    Reblind(alice, bob, low, Merge(values, KeyOrder(), asc));
  }

  lemma MergeOverwrites<R>(s: seq<R>, low: nat, count: nat, rank: R -> int, asc: bool)
    requires low + count <= |s|
    ensures MergeAt(s, low, count, rank, asc) == Overwritten(s, low, Merge(s[low..low + count], rank, asc))
  {
    hide Merge, MergeAt;
    MergeAtIsMerge(s[..low], s[low..low + count], s[low + count..], rank, asc);
    assert s[..low] + s[low..low + count] + s[low + count..] == s;
  }

  /**
   bitonic2PCMerge(): on the combined sequence, the unchunked merge; between the chunks of one level
   every comparator of the level is done exactly once.
   */
  method Merge2PC(alice: array<Share>, bob: array<Share>, perCircuit: nat, low: nat, count: nat, asc: bool)
    returns (ghost pairs: seq<(nat, nat)>)
    requires alice != bob && alice.Length == bob.Length && low + count <= alice.Length
    requires perCircuit >= 2 && count <= Pow2(32)
    modifies alice, bob
    ensures Combined(alice[..], bob[..]) == MergeAt(old(Combined(alice[..], bob[..])), low, count, KeyOrder(), asc)
    ensures pairs == ComparedInMerge(low, count)
    decreases count
  {
    hide *;
    ghost var was := Combined(alice[..], bob[..]);
    if count > perCircuit {
      var k := ShiftedSplit(count);
      ShiftedSplitIsPowerBelow(count);
      pairs := LevelInChunks(alice, bob, ChunkSize(perCircuit), low, count, k, asc);
      MergeAtStep(was, low, count, KeyOrder(), asc);
      ComparedInMergeStep(low, count);
      ghost var first := Merge2PC(alice, bob, perCircuit, low, k, asc);
      ghost var second := Merge2PC(alice, bob, perCircuit, low + k, count - k, asc);
      pairs := pairs + first + second;
    } else {
      MergeAtStep(was, low, count, KeyOrder(), asc);
      if count > 1 {
        MergeInCircuit(alice, bob, low, count, asc);
      }
      pairs := ComparedInMerge(low, count);
    }
  }

  /** Comparators of one level done per chunk. */
  function ChunkSize(perCircuit: nat): (half: nat)
    ensures half > 0 <==> perCircuit >= 2
  {
    perCircuit / 2
  }

  function Offset(chunk: nat, half: nat): nat {
    chunk * half
  }

  lemma OffsetStep(chunk: nat, half: nat)
    ensures Offset(0, half) == 0 && Offset(chunk + 1, half) == Offset(chunk, half) + half
  {}

  /** Below two encounters per circuit the loop over the chunks never ends: its guard holds for every chunk. */
  lemma ChunksEndExactly(perCircuit: nat, count: nat, k: nat)
    requires k < count
    ensures (exists chunk: nat :: !(k + Offset(chunk, ChunkSize(perCircuit)) < count)) <==> perCircuit >= 2
  {
    var half := ChunkSize(perCircuit);
    hide ChunkSize;
    if half > 0 {
      OffsetGrows(count, half);
      assert !(k + Offset(count, half) < count);
    } else {
      forall chunk: nat
        ensures k + Offset(chunk, half) < count
      {
        OffsetStays(chunk, half);
      }
    }
  }

  lemma OffsetGrows(chunk: nat, half: nat)
    requires half > 0
    ensures Offset(chunk, half) >= chunk
  {
    assert chunk * half >= chunk * 1;
  }

  lemma OffsetStays(chunk: nat, half: nat)
    requires half == 0
    ensures Offset(chunk, half) == 0
  {}

  /** The loop over the chunks of one level. */
  method LevelInChunks(alice: array<Share>, bob: array<Share>, half: nat, low: nat, count: nat, k: nat, asc: bool)
    returns (ghost pairs: seq<(nat, nat)>)
    requires alice != bob && alice.Length == bob.Length && low + count <= alice.Length
    requires half > 0 && 0 < k < count <= 2 * k
    modifies alice, bob
    ensures Combined(alice[..], bob[..])
         == LevelAt(old(Combined(alice[..], bob[..])), low, k, count - k, KeyOrder(), asc)
    ensures pairs == ComparedInLevel(low, k, count - k)
  {
    hide *;
    ghost var was := Combined(alice[..], bob[..]);
    LevelAtZero(was, low, k, KeyOrder(), asc);
    ComparedInLevelStep(low, k, 0);
    OffsetStep(0, half);
    var chunk := 0;
    ghost var done := 0;
    pairs := [];
    while k + Offset(chunk, half) < count
      invariant done == (if Offset(chunk, half) < count - k then Offset(chunk, half) else count - k)
      invariant Combined(alice[..], bob[..]) == LevelAt(was, low, k, done, KeyOrder(), asc)
      invariant pairs == ComparedInLevel(low, k, done)
      decreases count - k - done
    {
      var start := Offset(chunk, half);
      var size := if count - k - start > half then half else count - k - start;
      MergeChunks(alice, bob, low + start, low + k + start, size, asc);
      LevelInParts(was, low, k, start, size, KeyOrder(), asc);
      pairs := pairs + ComparedInLevel(low + start, k, size);
      OffsetStep(chunk, half);
      chunk, done := chunk + 1, done + size;
    }
  }

  // ---- The sort ----

  /** What bitonic2PCSort does to the combined sequence: it splits at the highest power of two below the count. */
  function ChunkedSort<R>(s: seq<R>, perCircuit: nat, rank: R -> int, asc: bool): (t: seq<R>)
    ensures |t| == |s|
    decreases |s|
  {
    if |s| <= perCircuit || |s| <= 1 then Sort(s, rank, asc)
    else
      var k := PowerBelow(|s|);
      Merge(ChunkedSort(s[..k], perCircuit, rank, !asc) + ChunkedSort(s[k..], perCircuit, rank, asc), rank, asc)
  }

  /** Wherever the circuit boundary lies, the chunked sort sorts and keeps the records. */
  lemma {:induction false} ChunkedSortCorrect<R>(s: seq<R>, perCircuit: nat, rank: R -> int, asc: bool)
    ensures Sorted(ChunkedSort(s, perCircuit, rank, asc), rank, asc)
    ensures multiset(ChunkedSort(s, perCircuit, rank, asc)) == multiset(s)
    decreases |s|
  {
    hide Sorted, Sort, Merge, PowerBelow;
    SortCorrect(s, rank, asc);
    if |s| > perCircuit && |s| > 1 {
      var k := PowerBelow(|s|);
      ChunkedSortCorrect(s[..k], perCircuit, rank, !asc);
      ChunkedSortCorrect(s[k..], perCircuit, rank, asc);
      MergeCorrect(ChunkedSort(s[..k], perCircuit, rank, !asc), ChunkedSort(s[k..], perCircuit, rank, asc), rank, asc);
      assert s == s[..k] + s[k..];
    }
  }

  lemma ChunkedSortStep<R>(s: seq<R>, perCircuit: nat, rank: R -> int, asc: bool)
    ensures ChunkedSort(s, perCircuit, rank, asc) ==
            if |s| <= perCircuit || |s| <= 1 then Sort(s, rank, asc)
            else
              var k := PowerBelow(|s|);
              Merge(ChunkedSort(s[..k], perCircuit, rank, !asc) + ChunkedSort(s[k..], perCircuit, rank, asc), rank, asc)
  {
    hide Sort, Merge, PowerBelow;
  }

  /** Sorting the two parts of a slice in place and merging them sorts the slice. */
  lemma ChunkedSortInPlace<R>(s: seq<R>, low: nat, count: nat, k: nat, perCircuit: nat, rank: R -> int, asc: bool)
    requires low + count <= |s| && count > perCircuit && count > 1 && k == PowerBelow(count)
    ensures var one := Overwritten(s, low, ChunkedSort(s[low..low + k], perCircuit, rank, !asc));
            var two := Overwritten(one, low + k, ChunkedSort(one[low + k..low + count], perCircuit, rank, asc));
            MergeAt(two, low, count, rank, asc)
            == Overwritten(s, low, ChunkedSort(s[low..low + count], perCircuit, rank, asc))
  {
    hide *;
    var slice := s[low..low + count];
    ChunkedSortStep(slice, perCircuit, rank, asc);
    var x, y := ChunkedSort(slice[..k], perCircuit, rank, !asc), ChunkedSort(slice[k..], perCircuit, rank, asc);
    assert s[low..low + k] == slice[..k] && s[low + k..low + count] == slice[k..];
    TwoOverwrites(s, low, x, y, Merge(x + y, rank, asc));
    MergeOverwrites(Overwritten(Overwritten(s, low, x), low + k, y), low, count, rank, asc);
  }

  lemma TwoOverwrites<R>(s: seq<R>, low: nat, x: seq<R>, y: seq<R>, v: seq<R>)
    requires low + |x| + |y| <= |s| && |v| == |x| + |y|
    ensures var one := Overwritten(s, low, x);
            var two := Overwritten(one, low + |x|, y);
            && one[low + |x|..low + |x| + |y|] == s[low + |x|..low + |x| + |y|]
            && two[low..low + (|x| + |y|)] == x + y
            && Overwritten(two, low, v) == Overwritten(s, low, v)
  {}

  /** bitonic2PCSort() on the combined sequence. */
  method BitonicSort2PC(alice: array<Share>, bob: array<Share>, perCircuit: nat, low: nat, count: nat, asc: bool)
    requires alice != bob && alice.Length == bob.Length && low + count <= alice.Length
    requires (perCircuit >= 2 || count <= perCircuit) && count <= Pow2(32)
    modifies alice, bob
    ensures var was := old(Combined(alice[..], bob[..]));
            Combined(alice[..], bob[..])
            == Overwritten(was, low, ChunkedSort(was[low..low + count], perCircuit, KeyOrder(), asc))
    decreases count
  {
    hide *;
    ghost var was := Combined(alice[..], bob[..]);
    if count > perCircuit {
      var k := ShiftedSplit(count);
      ShiftedSplitIsPowerBelow(count);
      ChunkedSortInPlace(was, low, count, k, perCircuit, KeyOrder(), asc);
      BitonicSort2PC(alice, bob, perCircuit, low, k, !asc);
      BitonicSort2PC(alice, bob, perCircuit, low + k, count - k, asc);
      ghost var pairs := Merge2PC(alice, bob, perCircuit, low, count, asc);
    } else {
      ChunkedSortStep(was[low..low + count], perCircuit, KeyOrder(), asc);
      var values := Combine(alice, bob, low, count);
      if count > 1 {
        Reblind(alice, bob, low, Sort(values, KeyOrder(), asc));
      } else {
        ShortSort(was, low, count, KeyOrder(), asc);
      }
    }
  }

  lemma ShortSort<R>(s: seq<R>, low: nat, count: nat, rank: R -> int, asc: bool)
    requires low + count <= |s| && count <= 1
    ensures Overwritten(s, low, Sort(s[low..low + count], rank, asc)) == s
  {}

  /**
   sort2PC(): for every circuit size of at least two, what the shares stand for afterwards is sorted,
   and it is a rearrangement of the whole records they stood for before.
   */
  method Sort2PC(alice: array<Share>, bob: array<Share>, count: nat, perCircuit: nat, asc: bool)
    requires alice != bob && alice.Length == bob.Length && count <= alice.Length
    requires (perCircuit >= 2 || count <= perCircuit) && count <= Pow2(32)
    modifies alice, bob
    ensures var was, now := old(Combined(alice[..], bob[..])), Combined(alice[..], bob[..]);
            && Sorted(now[..count], KeyOrder(), asc) && multiset(now[..count]) == multiset(was[..count])
            && now[count..] == was[count..]
    ensures KeysInOrder(Combined(alice[..], bob[..])[..count], asc)
  {
    hide *;
    ghost var was := Combined(alice[..], bob[..]);
    ChunkedSortCorrect(was[..count], perCircuit, KeyOrder(), asc);
    OverwrittenPrefix(was, ChunkedSort(was[..count], perCircuit, KeyOrder(), asc));
    assert was[0..0 + count] == was[..count];
    BitonicSort2PC(alice, bob, perCircuit, 0, count, asc);
    SortedKeys(Combined(alice[..], bob[..])[..count], asc);
  }

  lemma OverwrittenPrefix<R>(s: seq<R>, values: seq<R>)
    requires |values| <= |s|
    ensures var t := Overwritten(s, 0, values); |t| == |s| && t[..|values|] == values && t[|values|..] == s[|values|..]
  {}
}
