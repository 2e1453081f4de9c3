/** Unsigned integers as bits, least significant first, and their wrapping addition. */
module Integers {
  import opened Powers
  import opened BitVectors

  /** The n low bits of v. */
  function ToBits(v: nat, n: nat): (b: Bits)
    ensures |b| == n
    decreases n
  {
    if n == 0 then [] else [v - 2 * Half(v) == 1] + ToBits(Half(v), n - 1)
  }

  lemma {:induction false} UnsignedOfToBits(v: nat, n: nat)
    requires v < Pow2(n)
    ensures Unsigned(ToBits(v, n)) == v
    decreases n
  {
    if n > 0 {
      UnsignedOfToBits(Half(v), n - 1);
      assert ToBits(v, n)[1..] == ToBits(Half(v), n - 1);
      hide Half;
    }
  }

  lemma {:induction false} UnsignedInjective(a: Bits, b: Bits)
    requires |a| == |b| && Unsigned(a) == Unsigned(b)
    ensures a == b
  {
    if a != [] {
      assert a[0] == b[0];
      UnsignedInjective(a[1..], b[1..]);
      assert a == [a[0]] + a[1..] == [b[0]] + b[1..] == b;
    }
  }

  lemma {:induction false} UnsignedAppend(a: Bits, b: Bits)
    ensures Unsigned(a + b) == Unsigned(a) + Pow2(|a|) * Unsigned(b)
  {
    if a == [] {
      assert a + b == b;
    } else {
      UnsignedAppend(a[1..], b);
      assert (a + b)[1..] == a[1..] + b;
      UnsignedStep(a);
      UnsignedStep(a + b);
      DoubleProduct(Pow2(|a| - 1), Unsigned(b));
      assert Pow2(|a|) == 2 * Pow2(|a| - 1);
      hide Unsigned, Pow2;
    }
  }

  lemma UnsignedStep(a: Bits)
    requires a != []
    ensures Unsigned(a) == (if a[0] then 1 else 0) + 2 * Unsigned(a[1..])
  {}

  lemma DoubleProduct(p: nat, u: nat)
    ensures 2 * (p * u) == (2 * p) * u
  {}

  // ---- Counting nonces ----

  /** v + i, wrapped to p values; i is below p. */
  function Wrap(v: nat, i: nat, p: nat): (r: nat)
    requires v < p && i < p
    ensures r < p
  {
    if v + i < p then v + i else v + i - p
  }

  /** The nonce i steps on, as the in-circuit counter computes it: all bits take part in the carry. */
  function Advanced(nonce: Bits, i: nat): (r: Bits)
    requires i < Pow2(|nonce|)
    ensures |r| == |nonce|
  {
    ToBits(Wrap(Unsigned(nonce), i, Pow2(|nonce|)), |nonce|)
  }

  /** The nonce i steps on, as fill_dummies computes it: only the first n bits take part. */
  function AdvancedLow(nonce: Bits, n: nat, i: nat): (r: Bits)
    requires n <= |nonce| && i < Pow2(n)
    ensures |r| == |nonce|
  {
    Advanced(nonce[..n], i) + nonce[n..]
  }

  lemma AdvancedValue(nonce: Bits, i: nat)
    requires i < Pow2(|nonce|)
    ensures Unsigned(Advanced(nonce, i)) == Wrap(Unsigned(nonce), i, Pow2(|nonce|))
  {
    UnsignedOfToBits(Wrap(Unsigned(nonce), i, Pow2(|nonce|)), |nonce|);
    hide Unsigned, ToBits, Wrap;
  }

  lemma WrapOnce(v: nat, i: nat, p: nat)
    requires v < p && i + 1 < p
    ensures Wrap(Wrap(v, i, p), 1, p) == Wrap(v, i + 1, p)
  {}

  /** Stepping one more time. */
  lemma AdvanceOnce(nonce: Bits, i: nat)
    requires i + 1 < Pow2(|nonce|)
    ensures Advanced(Advanced(nonce, i), 1) == Advanced(nonce, i + 1)
  {
    AdvancedValue(nonce, i);
    AdvancedValue(Advanced(nonce, i), 1);
    AdvancedValue(nonce, i + 1);
    WrapOnce(Unsigned(nonce), i, Pow2(|nonce|));
    UnsignedInjective(Advanced(Advanced(nonce, i), 1), Advanced(nonce, i + 1));
    hide Unsigned, Pow2, Advanced, Wrap;
  }

  lemma AdvanceNone(nonce: Bits)
    ensures Advanced(nonce, 0) == nonce
  {
    AdvancedValue(nonce, 0);
    UnsignedInjective(Advanced(nonce, 0), nonce);
    hide Unsigned, Pow2, Advanced;
  }

  lemma AdvancedDistinct(nonce: Bits, i: nat, j: nat)
    requires i < Pow2(|nonce|) && j < Pow2(|nonce|) && i != j
    ensures Advanced(nonce, i) != Advanced(nonce, j)
  {
    AdvancedValue(nonce, i);
    AdvancedValue(nonce, j);
    hide Unsigned, Pow2, Advanced;
  }

  lemma AdvancedLowValue(nonce: Bits, n: nat, i: nat)
    requires n <= |nonce| && i < Pow2(n)
    ensures Unsigned(nonce) == Unsigned(nonce[..n]) + Pow2(n) * Unsigned(nonce[n..])
    ensures Unsigned(AdvancedLow(nonce, n, i))
            == Wrap(Unsigned(nonce[..n]), i, Pow2(n)) + Pow2(n) * Unsigned(nonce[n..])
  {
    assert nonce == nonce[..n] + nonce[n..];
    UnsignedAppend(nonce[..n], nonce[n..]);
    UnsignedAppend(Advanced(nonce[..n], i), nonce[n..]);
    AdvancedValue(nonce[..n], i);
    hide Unsigned, ToBits, Wrap, Pow2, Advanced;
  }

  /** Different step counts give different nonces. */
  lemma AdvancedLowDistinct(nonce: Bits, n: nat, i: nat, j: nat)
    requires n <= |nonce| && i < Pow2(n) && j < Pow2(n) && i != j
    ensures AdvancedLow(nonce, n, i) != AdvancedLow(nonce, n, j)
  {
    AdvancedLowValue(nonce, n, i);
    AdvancedLowValue(nonce, n, j);
    hide Unsigned, Pow2, AdvancedLow;
  }

  lemma Distributes(p: nat, high: nat, q: nat)
    requires high + 1 <= q
    ensures p * high + p <= p * q
  {
    assert p * (high + 1) <= p * q;
  }

  lemma Steps(p: nat, high: nat, q: nat)
    requires high < q && q >= 2
    ensures p * high + p <= p * q && (p * high + p == p * q || p * high + 2 * p <= p * q)
    ensures 2 * p <= p * q
  {
    Distributes(p, high, q);
    Distributes(p, 1, q);
    if high + 1 < q {
      Distributes(p, high + 1, q);
      assert p * (high + 1) == p * high + p;
    } else {
      assert high + 1 == q;
      assert p * (high + 1) == p * high + p;
    }
  }

  /** In numbers: h stands for the high word's share, pq for the whole range. */
  lemma CounterNumbers(low: nat, h: nat, p: nat, pq: nat, k: nat, c: nat)
    requires low < p && k < p && c <= p && 2 * p <= pq
    requires h + p == pq || h + 2 * p <= pq
    ensures low + h < pq && c < pq
    ensures Wrap(low, k, p) + h == Wrap(low + h, c, pq) <==> k == c && low + c < p
  {}

  /**
   A dummy key laid down by the low-word counter is the in-circuit counter's c-th nonce exactly when it
   is the c-th key and the low word has not wrapped.
   */
  lemma CounterReaches(nonce: Bits, n: nat, k: nat, c: nat)
    requires n < |nonce| && k < Pow2(n) && c <= Pow2(n)
    ensures c < Pow2(|nonce|)
    ensures AdvancedLow(nonce, n, k) == Advanced(nonce, c) <==> k == c && Unsigned(nonce[..n]) + c < Pow2(n)
  {
    hide Unsigned, Pow2, AdvancedLow, Advanced, Wrap;
    var h := HighShare(nonce, n, k);
    CounterNumbers(Unsigned(nonce[..n]), h, Pow2(n), Pow2(|nonce|), k, c);
    AdvancedValue(nonce, c);
    if Unsigned(AdvancedLow(nonce, n, k)) == Unsigned(Advanced(nonce, c)) {
      UnsignedInjective(AdvancedLow(nonce, n, k), Advanced(nonce, c));
    }
  }

  /** The high words' share of a nonce, which the low-word counter leaves alone. */
  lemma HighShare(nonce: Bits, n: nat, k: nat) returns (h: nat)
    requires n < |nonce| && k < Pow2(n)
    ensures Unsigned(nonce) == Unsigned(nonce[..n]) + h
    ensures Unsigned(AdvancedLow(nonce, n, k)) == Wrap(Unsigned(nonce[..n]), k, Pow2(n)) + h
    ensures 2 * Pow2(n) <= Pow2(|nonce|)
    ensures h + Pow2(n) == Pow2(|nonce|) || h + 2 * Pow2(n) <= Pow2(|nonce|)
  {
    hide Unsigned, Pow2, AdvancedLow, Wrap;
    Pow2Sum(n, |nonce| - n);
    MoreThanOne(|nonce| - n);
    Steps(Pow2(n), Unsigned(nonce[n..]), Pow2(|nonce| - n));
    AdvancedLowValue(nonce, n, k);
    h := Pow2(n) * Unsigned(nonce[n..]);
  }

  lemma MoreThanOne(n: nat)
    requires n > 0
    ensures Pow2(n) >= 2
  {}

  /** The two counters agree exactly as long as the low word does not wrap. */
  lemma CountersAgree(nonce: Bits, n: nat, i: nat)
    requires n < |nonce| && i < Pow2(n)
    ensures Pow2(n) < Pow2(|nonce|)
    ensures AdvancedLow(nonce, n, i) == Advanced(nonce, i) <==> Unsigned(nonce[..n]) + i < Pow2(n)
  {
    hide Unsigned, Pow2, AdvancedLow, Advanced;
    Pow2Order(n, |nonce|);
    CounterReaches(nonce, n, i, i);
  }
}
