/**
 The in-place bitonic sort of storable path encounters: masked xor-swaps on 256-bit vectors, and a
 recursive network over a slice of the array.  Each method is proved against Network.
 */
module ShuffleSort {
  import opened Powers
  import opened HashOrder
  import opened Network
  import opened NetworkCost
  import opened NetworkInPlace

  /** A lookup key and 64 encrypted bytes, all as 256-bit vectors. */
  datatype StorableEncounter = StorableEncounter(key: Vec256, low: Vec256, high: Vec256)

  function KeyRank(): StorableEncounter -> int {
    (e: StorableEncounter) => Rank(e.key)
  }

  // ---- Masked xor-swap ----

  /** x xor (mask and y), lane by lane, with the same mask byte in every lane. */
  function MaskedXor(x: Vec256, mask: bv8, y: Vec256): Vec256 {
    seq(LANES, i requires 0 <= i < LANES => x[i] ^ (mask & y[i]))
  }

  lemma XorSwapByte(x: bv8, y: bv8)
    ensures var x1 := x ^ (0xFF & y); var y1 := y ^ (0xFF & x1); y1 == x && x1 ^ (0xFF & y1) == y
    ensures x ^ (0 & y) == x
  {}

  /** The three-step masked swap exchanges two vectors under the all-ones mask and keeps them under zero. */
  lemma XorSwap(x: Vec256, y: Vec256, mask: bv8)
    requires mask == 0 || mask == 0xFF
    ensures var x1 := MaskedXor(x, mask, y);
            var y1 := MaskedXor(y, mask, x1);
            var x2 := MaskedXor(x1, mask, y1);
            if mask == 0xFF then x2 == y && y1 == x else x2 == x && y1 == y
  {
    var x1 := MaskedXor(x, mask, y);
    var y1 := MaskedXor(y, mask, x1);
    var x2 := MaskedXor(x1, mask, y1);
    forall i | 0 <= i < LANES
      ensures if mask == 0xFF then x2[i] == y[i] && y1[i] == x[i] else x2[i] == x[i] && y1[i] == y[i]
    {
      XorSwapByte(x[i], y[i]);
    }
  }

  method CompareAndSwap(a: array<StorableEncounter>, i: nat, j: nat, asc: bool)
    requires i < j < a.Length
    modifies a
    ensures a[..] == CompareExchange(old(a[..]), i, j, KeyRank(), asc)
  {
    var swap := asc == CompareHash(a[i].key, a[j].key);
    CompareHashIsRank(a[i].key, a[j].key);
    var mask: bv8 := if swap then 0xFF else 0;
    XorSwap(a[i].key, a[j].key, mask);
    XorSwap(a[i].low, a[j].low, mask);
    XorSwap(a[i].high, a[j].high, mask);

    a[i] := a[i].(key := MaskedXor(a[i].key, mask, a[j].key));
    a[j] := a[j].(key := MaskedXor(a[j].key, mask, a[i].key));
    a[i] := a[i].(key := MaskedXor(a[i].key, mask, a[j].key));

    a[i] := a[i].(low := MaskedXor(a[i].low, mask, a[j].low));
    a[j] := a[j].(low := MaskedXor(a[j].low, mask, a[i].low));
    a[i] := a[i].(low := MaskedXor(a[i].low, mask, a[j].low));

    a[i] := a[i].(high := MaskedXor(a[i].high, mask, a[j].high));
    a[j] := a[j].(high := MaskedXor(a[j].high, mask, a[i].high));
    a[i] := a[i].(high := MaskedXor(a[i].high, mask, a[j].high));
  }

  // ---- The network on a slice of the array ----

  /** Runs the merge network on a[low..low+count), returning the index pairs it compared, in order. */
  method BitonicMerge(a: array<StorableEncounter>, low: nat, count: nat, asc: bool)
    returns (ghost pairs: seq<(nat, nat)>)
    requires low + count <= a.Length && count <= Pow2(32)
    modifies a
    ensures a[..] == MergeAt(old(a[..]), low, count, KeyRank(), asc)
    ensures pairs == ComparedInMerge(low, count)
    decreases count
  {
    hide *;
    pairs := [];
    ComparedInMergeStep(low, count);
    MergeAtStep(a[..], low, count, KeyRank(), asc);
    if count > 1 {
      var k := ShiftedSplit(count);
      ShiftedSplitIsPowerBelow(count);
      LevelAtZero(a[..], low, k, KeyRank(), asc);
      ComparedInLevelStep(low, k, 0);
      var i := low;
      while i < low + count - k
        invariant low <= i <= low + count - k
        invariant a[..] == LevelAt(old(a[..]), low, k, i - low, KeyRank(), asc)
        invariant pairs == ComparedInLevel(low, k, i - low)
      {
        ComparedInLevelStep(low, k, i - low);
        LevelAtStep(old(a[..]), low, k, i - low, KeyRank(), asc);
        CompareAndSwap(a, i, i + k, asc);
        pairs := pairs + [(i, i + k)];
        i := i + 1;
      }
      ghost var first := BitonicMerge(a, low, k, asc);
      ghost var second := BitonicMerge(a, low + k, count - k, asc);
      pairs := pairs + first + second;
    }
  }

  /** Sorts a[low..low+count) with the network, returning the index pairs it compared, in order. */
  method BitonicSort(a: array<StorableEncounter>, low: nat, count: nat, asc: bool)
    returns (ghost pairs: seq<(nat, nat)>)
    requires low + count <= a.Length && count <= Pow2(32)
    modifies a
    ensures a[..] == SortAt(old(a[..]), low, count, KeyRank(), asc)
    ensures pairs == ComparedInSort(low, count)
    decreases count
  {
    hide *;
    pairs := [];
    ComparedInSortStep(low, count);
    SortAtStep(a[..], low, count, KeyRank(), asc);
    if count > 1 {
      var k := count / 2;
      ghost var first := BitonicSort(a, low, k, !asc);
      ghost var second := BitonicSort(a, low + k, count - k, asc);
      ghost var last := BitonicMerge(a, low, count, asc);
      pairs := first + second + last;
    }
  }

  /** In the direction given, no key is followed by one that should come before it. */
  ghost predicate KeysInOrder(s: seq<StorableEncounter>, asc: bool) {
    forall i, j :: 0 <= i < j < |s| ==> if asc then !LexGreater(s[i].key, s[j].key) else !LexGreater(s[j].key, s[i].key)
  }

  lemma SortedKeys(s: seq<StorableEncounter>, asc: bool)
    requires Sorted(s, KeyRank(), asc)
    ensures KeysInOrder(s, asc)
  {
    SortedMeans(s, KeyRank(), asc);
    hide Sorted, LexGreater, Rank;
    forall i, j | 0 <= i < j < |s|
      ensures if asc then !LexGreater(s[i].key, s[j].key) else !LexGreater(s[j].key, s[i].key)
    {
      LexIsRank(s[i].key, s[j].key);
      LexIsRank(s[j].key, s[i].key);
    }
  }

  /** sort(): the whole prefix of the given size, sorted by key, records kept whole. */
  method SortEncounters(a: array<StorableEncounter>, size: nat, asc: bool)
    requires size <= a.Length && size <= Pow2(32)
    modifies a
    ensures Sorted(a[..size], KeyRank(), asc) && KeysInOrder(a[..size], asc)
    ensures multiset(a[..size]) == multiset(old(a[..size]))
    ensures a[..size] == Sort(old(a[..size]), KeyRank(), asc)
    ensures a[size..] == old(a[size..])
  {
    hide *;
    ghost var s, rest := a[..size], a[size..];
    assert a[..] == s + rest;
    ghost var pairs := BitonicSort(a, 0, size, asc);
    SortedPrefix(s, rest, asc, a[..]);
    assert a[..][..size] == a[..size] && a[..][size..] == a[size..];
  }

  /** The network on a prefix sorts it and leaves the rest alone. */
  lemma SortedPrefix(s: seq<StorableEncounter>, rest: seq<StorableEncounter>, asc: bool, t: seq<StorableEncounter>)
    requires t == SortAt(s + rest, 0, |s|, KeyRank(), asc)
    ensures |t| == |s| + |rest| && t[..|s|] == Sort(s, KeyRank(), asc) && t[|s|..] == rest
    ensures multiset(t[..|s|]) == multiset(s)
    ensures Sorted(t[..|s|], KeyRank(), asc) && KeysInOrder(t[..|s|], asc)
  {
    hide *;
    SortCorrect(s, KeyRank(), asc);
    SortAtIsSort([], s, rest, KeyRank(), asc);
    assert [] + s + rest == s + rest;
    SortedKeys(Sort(s, KeyRank(), asc), asc);
  }
}
