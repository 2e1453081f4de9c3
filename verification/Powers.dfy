/**
 Powers of two, the integer logarithm, and the "highest power of two below n" that the
 sorting networks split on.
 */
module Powers {

  function Pow2(n: nat): (p: nat)
    ensures p > 0
  {
    if n == 0 then 1 else 2 * Pow2(n - 1)
  }

  /** floor(n / 2); recursive, so that proofs about halving unfold it only on demand. */
  function Half(n: nat): (h: nat)
    ensures 2 * h <= n <= 2 * h + 1
  {
    if n < 2 then 0 else 1 + Half(n - 2)
  }

  /** The unsigned value of bits, least significant first. */
  function Unsigned(bits: seq<bool>): (v: nat)
    ensures v < Pow2(|bits|)
  {
    if bits == [] then 0 else (if bits[0] then 1 else 0) + 2 * Unsigned(bits[1..])
  }

  /** floor(log2(n)) */
  function Log2(n: nat): nat
    requires n > 0
  {
    if n == 1 then 0 else 1 + Log2(Half(n))
  }

  /** ceil(log2(n)), with 0 for n <= 1. */
  function CeilLog2(n: nat): nat {
    if n <= 1 then 0 else 1 + Log2(n - 1)
  }

  lemma {:induction false} Log2Bounds(n: nat)
    requires n > 0
    ensures Pow2(Log2(n)) <= n < Pow2(Log2(n) + 1)
  {
    if n > 1 {
      Log2Bounds(Half(n));
    }
  }

  lemma {:induction false} Pow2Order(m: nat, n: nat)
    ensures m <= n <==> Pow2(m) <= Pow2(n)
    ensures m < n <==> Pow2(m) < Pow2(n)
    decreases m + n
  {
    if m > 0 && n > 0 {
      Pow2Order(m - 1, n - 1);
    }
  }

  /** The logarithm is pinned down by its two bounds. */
  lemma Log2Unique(n: nat, e: nat)
    requires Pow2(e) <= n < Pow2(e + 1)
    ensures n > 0 && Log2(n) == e
  {
    Log2Bounds(n);
    Pow2Order(Log2(n), e + 1);
    Pow2Order(e, Log2(n) + 1);
  }

  /** CeilLog2(n) is the least exponent whose power reaches n. */
  lemma CeilLog2Least(n: nat, e: nat)
    ensures n <= Pow2(e) <==> CeilLog2(n) <= e
  {
    if n > 1 {
      Log2Bounds(n - 1);
      Pow2Order(Log2(n - 1) + 1, e);
      Pow2Order(Log2(n - 1), e);
    }
  }

  ghost predicate IsPow2(n: nat) {
    exists e: nat :: Pow2(e) == n
  }

  /** Doubles k until it reaches the highest power of two strictly below n. */
  function DoubleBelow(n: nat, k: nat): (r: nat)
    requires 1 <= k < n && IsPow2(k)
    ensures 1 <= r < n <= 2 * r && IsPow2(r)
    decreases n - k
  {
    if 2 * k >= n then k else Pow2Double(k); DoubleBelow(n, 2 * k)
  }

  lemma Pow2Double(k: nat)
    requires IsPow2(k)
    ensures IsPow2(2 * k)
  {
    var e: nat :| Pow2(e) == k;
    assert Pow2(e + 1) == 2 * k;
  }

  /** The split point of the merge networks: the highest power of two strictly below n. */
  function PowerBelow(n: nat): (k: nat)
    requires n >= 2
    ensures 1 <= k < n <= 2 * k && IsPow2(k)
  {
    assert Pow2(0) == 1;
    DoubleBelow(n, 1)
  }

  lemma PowerBelowUnique(n: nat, e: nat)
    requires n >= 2 && Pow2(e) < n <= 2 * Pow2(e)
    ensures PowerBelow(n) == Pow2(e)
  {
    var f: nat :| Pow2(f) == PowerBelow(n);
    Pow2Order(e, f + 1);
    Pow2Order(f, e + 1);
  }

  /** If n is itself a power of two, the split is exactly in half. */
  lemma PowerBelowOfPow2(n: nat)
    requires n >= 2 && IsPow2(n)
    ensures n == 2 * PowerBelow(n)
  {
    var e: nat :| Pow2(e) == n;
    PowerBelowUnique(n, e - 1);
  }

  /** lzcnt on a word of the given width: the number of leading zero bits. */
  function LeadingZeros(x: nat, width: nat): (z: nat)
    requires x < Pow2(width)
    ensures z <= width
  {
    if width == 0 || x >= Pow2(width - 1) then 0 else 1 + LeadingZeros(x, width - 1)
  }

  lemma {:induction false} LeadingZerosValue(x: nat, width: nat)
    requires x < Pow2(width)
    ensures if x == 0 then LeadingZeros(x, width) == width
            else LeadingZeros(x, width) == width - 1 - Log2(x)
  {
    if width == 0 || x >= Pow2(width - 1) {
      if width > 0 {
        Log2Unique(x, width - 1);
      }
    } else {
      LeadingZerosValue(x, width - 1);
    }
  }

  /** x >> n on an unsigned word. */
  function ShiftRight(x: nat, n: nat): nat {
    if n == 0 then x else Half(ShiftRight(x, n - 1))
  }

  lemma {:induction false} ShiftPow2(a: nat, b: nat)
    requires b <= a
    ensures ShiftRight(Pow2(a), b) == Pow2(a - b)
  {
    if b > 0 {
      ShiftPow2(a, b - 1);
    }
  }

  lemma {:induction false} Pow2Sum(a: nat, b: nat)
    ensures Pow2(a + b) == Pow2(a) * Pow2(b)
  {
    if b > 0 {
      Pow2Sum(a, b - 1);
    }
  }

  lemma Pow2Of32()
    ensures Pow2(31) == 0x8000_0000 && Pow2(32) == 0x1_0000_0000
  {
    assert Pow2(4) == 16;
    Pow2Sum(4, 4);
    Pow2Sum(8, 8);
    Pow2Sum(16, 16);
  }

  /** 2^31 shifted right by lzcnt(n - 1), as both sorting networks of the repository compute their split. */
  function ShiftedSplit(n: nat): nat
    requires 2 <= n <= Pow2(32)
  {
    ShiftRight(Pow2(31), LeadingZeros(n - 1, 32))
  }

  lemma ShiftedSplitIs(n: nat)
    requires 2 <= n <= Pow2(32)
    ensures ShiftedSplit(n) == ShiftRight(Pow2(31), LeadingZeros(n - 1, 32))
  {
    hide Pow2, ShiftRight, LeadingZeros;
  }

  lemma DoublePow2(e: nat)
    ensures Pow2(e + 1) == 2 * Pow2(e)
  {}

  /** For every count that fits the 32-bit cast the shift computes the highest power of two below it. */
  lemma ShiftedSplitIsPowerBelow(n: nat)
    requires 2 <= n <= Pow2(32)
    ensures ShiftedSplit(n) == PowerBelow(n)
    ensures ShiftedSplit(n) < n <= 2 * ShiftedSplit(n)
  {
    hide Pow2, Log2, LeadingZeros, ShiftRight, PowerBelow;
    ShiftedSplitIs(n);
    LeadingZerosValue(n - 1, 32);
    Log2Bounds(n - 1);
    DoublePow2(Log2(n - 1));
    Pow2Order(Log2(n - 1), 32);
    PowerBelowUnique(n, Log2(n - 1));
    ShiftPow2(31, LeadingZeros(n - 1, 32));
  }
}
