/**
 Exactly for which numbers of hash functions the three-bit counter of the Bloom filter decides membership.
 */
module BloomCounter {
  import opened Powers
  import opened Bloom

  /** How many positions a hash value can take. */
  function Positions(c: Config): (p: nat)
    requires c.Valid()
    ensures p > 0
  {
    if c.size < Pow2(c.hashBits) then c.size else Pow2(c.hashBits)
  }

  /** The lookup's comparison is right for every filter and every value of the given number of bits. */
  ghost predicate Exact(c: Config, bits: nat)
    requires c.Valid()
  {
    forall f, v: nat :: Fits(c, f) && v < Pow2(bits) ==>
      (CountersEqual(Hits(c, f, v, c.hashes), c.hashes) <==> Present(c, f, v, c.hashes))
  }

  /** The same for the fused operation, whose answer is about the filter as it was before. */
  ghost predicate FusedExact(c: Config, bits: nat)
    requires c.Valid()
  {
    forall f, v: nat :: Fits(c, f) && v < Pow2(bits) ==>
      (CountersEqual(FusedHits(c, f, v, c.hashes), c.hashes) <==> Present(c, f, v, c.hashes))
  }

  // ---- Values with given hash groups ----

  /** The value whose groups of h bits are the given ones, lowest first. */
  function ValueOf(h: nat, groups: seq<nat>): nat {
    if groups == [] then 0 else groups[0] + Pow2(h) * ValueOf(h, groups[1..])
  }

  predicate FitGroups(h: nat, groups: seq<nat>) {
    forall i :: 0 <= i < |groups| ==> groups[i] < Pow2(h)
  }

  lemma DivideTwice(a: nat, b: nat, c: nat)
    requires b > 0 && c > 0
    ensures b * c > 0 && a / (b * c) == (a / b) / c
  {
    Positive(b, c);
    DivideParts(a, b, c, a / b, a % b, (a / b) / c, (a / b) % c);
  }

  lemma DivideParts(a: nat, b: nat, c: nat, x: nat, r: nat, q: nat, s: nat)
    requires b > 0 && c > 0 && a == b * x + r && r < b && x == c * q + s && s < c && b * c > 0
    ensures a / (b * c) == q
  {
    Expand(b, c, q, s);
    Remainders(b, c, s, r);
    assert a == (b * c) * q + (b * s + r);
    QuotientUnique(a, b * c, q, b * s + r);
  }

  lemma Positive(b: nat, c: nat)
    requires b > 0 && c > 0
    ensures b * c > 0
  {}

  lemma Expand(b: nat, c: nat, q: nat, s: nat)
    ensures b * (c * q + s) == (b * c) * q + b * s
  {}

  lemma Remainders(b: nat, c: nat, s: nat, r: nat)
    requires s < c && r < b
    ensures b * s + r < b * c
  {
    assert b * s + b == b * (s + 1) <= b * c;
  }

  lemma QuotientUnique(a: nat, b: nat, q: nat, r: nat)
    requires b > 0 && a == b * q + r && r < b
    ensures a / b == q && a % b == r
  {
    AtLeastOneMore(b, a / b, q);
    AtLeastOneMore(b, q, a / b);
  }

  lemma AtLeastOneMore(b: nat, x: int, q: int)
    ensures x < q ==> b * x + b <= b * q
  {
    if x < q {
      assert b * (x + 1) <= b * q;
    }
  }

  lemma Shifts(h: nat, i: nat)
    ensures Pow2((i + 1) * h) == Pow2(h) * Pow2(i * h)
  {
    Pow2Sum(h, i * h);
    assert (i + 1) * h == h + i * h;
    hide Pow2;
  }

  lemma {:induction false} GroupOf(h: nat, groups: seq<nat>, i: nat)
    requires FitGroups(h, groups) && i < |groups|
    ensures (ValueOf(h, groups) / Pow2(i * h)) % Pow2(h) == groups[i]
  {
    hide Pow2;
    var v, rest := ValueOf(h, groups), ValueOf(h, groups[1..]);
    QuotientUnique(v, Pow2(h), rest, groups[0]);
    if i == 0 {
      ShiftByNone(v);
      assert 0 * h == 0;
    } else {
      Shifts(h, i - 1);
      DivideTwice(v, Pow2(h), Pow2((i - 1) * h));
      GroupOf(h, groups[1..], i - 1);
    }
  }

  lemma ShiftByNone(v: nat)
    ensures Pow2(0) == 1 && v / Pow2(0) == v
  {}

  lemma {:induction false} ValueBounded(h: nat, groups: seq<nat>)
    requires FitGroups(h, groups)
    ensures ValueOf(h, groups) < Pow2(|groups| * h)
  {
    hide Pow2;
    if groups == [] {
      ShiftByNone(0);
      assert 0 * h == 0;
    } else {
      ValueBounded(h, groups[1..]);
      Shifts(h, |groups| - 1);
      Remainders(Pow2(h), Pow2((|groups| - 1) * h), ValueOf(h, groups[1..]), groups[0]);
    }
  }

  /** A value of enough bits can ask for any sequence of reachable positions. */
  lemma ValueFor(c: Config, groups: seq<nat>, bits: nat) returns (v: nat)
    requires c.Valid() && |groups| == c.hashes && c.hashes * c.hashBits <= bits
    requires forall i :: 0 <= i < |groups| ==> groups[i] < Positions(c)
    ensures v < Pow2(bits)
    ensures forall i :: 0 <= i < c.hashes ==> c.Hash(v, i) == groups[i]
  {
    hide Pow2;
    v := ValueOf(c.hashBits, groups);
    ValueBounded(c.hashBits, groups);
    Pow2Order(c.hashes * c.hashBits, bits);
    forall i | 0 <= i < c.hashes
      ensures c.Hash(v, i) == groups[i]
    {
      GroupOf(c.hashBits, groups, i);
      QuotientUnique(groups[i], c.size, 0, groups[i]);
      HashIs(c, v, i);
    }
    hide ValueOf;
  }

  lemma HashIs(c: Config, v: nat, i: nat)
    requires c.Valid()
    ensures c.Hash(v, i) == ((v / Pow2(i * c.hashBits)) % Pow2(c.hashBits)) % c.size
  {}

  lemma HashReaches(c: Config, v: nat, i: nat)
    requires c.Valid()
    ensures c.Hash(v, i) < Positions(c)
  {
    hide Pow2;
    HashIs(c, v, i);
    var g := (v / Pow2(i * c.hashBits)) % Pow2(c.hashBits);
    SmallRemainder(g, c.size);
  }

  lemma SmallRemainder(g: nat, size: nat)
    requires size > 0
    ensures g % size <= g && g % size < size
  {}

  // ---- Counting against the filter ----

  lemma {:induction false} HitsAre(c: Config, f: Filter, v: nat, n: nat, m: nat)
    requires Fits(c, f) && m <= n
    requires forall i :: 0 <= i < n ==> f[c.Hash(v, i)] == (i < m)
    ensures Hits(c, f, v, n) == m
  {
    hide Config.Hash;
    if m < n {
      HitsAre(c, f, v, n - 1, m);
    } else if n > 0 {
      AllHits(c, f, v, n);
    }
  }

  /** The positions of the value that the filter has not set. */
  ghost function Unset(c: Config, f: Filter, v: nat, n: nat): (s: set<nat>)
    requires Fits(c, f)
  {
    set i | 0 <= i < n && !f[c.Hash(v, i)] :: c.Hash(v, i)
  }

  lemma UnsetNext(c: Config, f: Filter, v: nat, n: nat)
    requires Fits(c, f)
    ensures var h := c.Hash(v, n);
            && Unset(c, f, v, n + 1) == Unset(c, f, v, n) + (if f[h] then {} else {h})
            && (h in Unset(c, f, v, n) <==> !f[h] && IsHash(c, v, n, h))
  {
    hide Config.Hash;
  }

  /** The fused count misses one hit for every different position that was not set. */
  lemma {:induction false} FusedMisses(c: Config, f: Filter, v: nat, n: nat)
    requires Fits(c, f)
    ensures FusedHits(c, f, v, n) + |Unset(c, f, v, n)| == n
  {
    hide Config.Hash, Unset;
    if n == 0 {
      NoneUnset(c, f, v);
    } else {
      FusedMisses(c, f, v, n - 1);
      UnsetNext(c, f, v, n - 1);
      CountOneMore(c, f, v, n - 1);
      var h, before := c.Hash(v, n - 1), Unset(c, f, v, n - 1);
      if !f[h] && !IsHash(c, v, n - 1, h) {
        assert |before + {h}| == |before| + 1;
      } else {
        assert Unset(c, f, v, n) == before;
      }
    }
  }

  lemma NoneUnset(c: Config, f: Filter, v: nat)
    requires Fits(c, f)
    ensures Unset(c, f, v, 0) == {}
  {}

  function FirstNats(n: nat): (s: set<nat>)
    ensures |s| == n && forall p :: p in s <==> 0 <= p < n
  {
    if n == 0 then {} else FirstNats(n - 1) + {n - 1}
  }

  lemma SubsetSize(s: set<nat>, t: set<nat>)
    requires s <= t
    ensures |s| <= |t|
  {
    assert t == s + (t - s);
  }

  lemma UnsetBounded(c: Config, f: Filter, v: nat, n: nat)
    requires Fits(c, f)
    ensures |Unset(c, f, v, n)| <= Positions(c) && |Unset(c, f, v, n)| <= n
    ensures Unset(c, f, v, n) == {} <==> Present(c, f, v, n)
  {
    hide Config.Hash, Positions;
    forall i | 0 <= i < n
      ensures c.Hash(v, i) < Positions(c)
    {
      HashReaches(c, v, i);
    }
    SubsetSize(Unset(c, f, v, n), FirstNats(Positions(c)));
    FusedMisses(c, f, v, n);
    if Unset(c, f, v, n) == {} {
      forall i | 0 <= i < n
        ensures f[c.Hash(v, i)]
      {
        assert c.Hash(v, i) !in Unset(c, f, v, n);
      }
    }
  }

  /** A count that misses u of n compares equal exactly when u is a multiple of eight. */
  lemma MissesCompare(n: nat, u: nat)
    requires u <= n
    ensures CountersEqual(n - u, n) <==> u % COUNTER_VALUES == 0
  {}

  // ---- The exact conditions ----

  /** Up to seven hash functions both operations are exact. */
  lemma SevenSuffice(c: Config, bits: nat)
    requires c.Valid() && c.hashes < COUNTER_VALUES
    ensures Exact(c, bits)
  {
    hide Config.Hash, Hits, Present, CountersEqual, Pow2;
    forall f, v: nat | Fits(c, f) && v < Pow2(bits)
      ensures CountersEqual(Hits(c, f, v, c.hashes), c.hashes) <==> Present(c, f, v, c.hashes)
    {
      AllHits(c, f, v, c.hashes);
      SmallCounters(Hits(c, f, v, c.hashes), c.hashes);
    }
  }

  lemma SmallCounters(count: nat, hashes: nat)
    requires count <= hashes < COUNTER_VALUES
    ensures CountersEqual(count, hashes) <==> count == hashes
  {}

  /** With one position to hash to, either every hash function hits or none does. */
  lemma OnePosition(c: Config, bits: nat)
    requires c.Valid() && Positions(c) == 1
    ensures Exact(c, bits) <==> c.hashes == 0 || c.hashes % COUNTER_VALUES != 0
  {
    hide Config.Hash, Hits, Pow2, Positions;
    var n := c.hashes;
    forall f, v: nat | Fits(c, f) && v < Pow2(bits)
      ensures Present(c, f, v, n) <==> n == 0 || f[0]
      ensures CountersEqual(Hits(c, f, v, n), n) <==> f[0] || n % COUNTER_VALUES == 0
    {
      OneOrNone(c, f, v);
    }
    var f := Empty(c);
    assert Fits(c, f) && !f[0] && 0 < Pow2(bits);
    assert CountersEqual(Hits(c, f, 0, n), n) <==> n % COUNTER_VALUES == 0;
  }

  lemma OneOrNone(c: Config, f: Filter, v: nat)
    requires Fits(c, f) && Positions(c) == 1
    ensures Present(c, f, v, c.hashes) <==> c.hashes == 0 || f[0]
    ensures CountersEqual(Hits(c, f, v, c.hashes), c.hashes) <==> f[0] || c.hashes % COUNTER_VALUES == 0
  {
    hide Config.Hash, Hits, Pow2, Positions, CountersEqual;
    forall i | 0 <= i < c.hashes
      ensures c.Hash(v, i) == 0
    {
      HashReaches(c, v, i);
    }
    assert c.hashes > 0 ==> c.Hash(v, 0) == 0;
    HitsAre(c, f, v, c.hashes, if f[0] then c.hashes else 0);
    MissesCompare(c.hashes, if f[0] then 0 else c.hashes);
  }

  /**
   From eight hash functions on, the value whose first groups are 0 and whose last eight are 1 is
   reported present by the filter that holds position 0 only.
   */
  lemma MoreThanSeven(c: Config, bits: nat)
    requires c.Valid() && Positions(c) >= 2 && c.hashes >= COUNTER_VALUES && c.hashes * c.hashBits <= bits
    ensures !Exact(c, bits)
  {
    hide Config.Hash, Hits, Pow2, Positions, CountersEqual;
    var n := c.hashes;
    var m := n - COUNTER_VALUES;
    var v := ValueFor(c, seq(n, i requires 0 <= i < n => if i < m then 0 else 1), bits);
    assert c.size >= 2 by { PositionsFit(c); }
    var f := seq(c.size, p requires 0 <= p < c.size => p == 0);
    assert Fits(c, f);
    HitsAre(c, f, v, n, m);
    MissesCompare(n, COUNTER_VALUES);
    assert !f[c.Hash(v, m)];
    assert CountersEqual(Hits(c, f, v, n), n) && !Present(c, f, v, n);
  }

  lemma PositionsFit(c: Config)
    requires c.Valid()
    ensures Positions(c) <= c.size
  {}

  /**
   Membership is decided for every filter and every value exactly up to seven hash functions; where all
   hash values coincide, exactly when the number of hash functions is not a positive multiple of eight.
   */
  lemma MembershipExactly(c: Config, bits: nat)
    requires c.Valid() && c.hashes * c.hashBits <= bits
    ensures Exact(c, bits) <==>
              if Positions(c) == 1 then c.hashes == 0 || c.hashes % COUNTER_VALUES != 0 else c.hashes <= 7
  {
    hide Exact, Positions, Config.Hash;
    if Positions(c) == 1 {
      OnePosition(c, bits);
    } else if c.hashes < COUNTER_VALUES {
      SevenSuffice(c, bits);
    } else {
      MoreThanSeven(c, bits);
    }
  }

  lemma FewPositions(c: Config, bits: nat)
    requires c.Valid() && (c.hashes <= 7 || Positions(c) <= 7)
    ensures FusedExact(c, bits)
  {
    hide Config.Hash, FusedHits, Pow2, Positions, CountersEqual, Unset, Present;
    forall f, v: nat | Fits(c, f) && v < Pow2(bits)
      ensures CountersEqual(FusedHits(c, f, v, c.hashes), c.hashes) <==> Present(c, f, v, c.hashes)
    {
      FusedMisses(c, f, v, c.hashes);
      UnsetBounded(c, f, v, c.hashes);
      MissesCompare(c.hashes, |Unset(c, f, v, c.hashes)|);
    }
  }

  /** A value that meets eight different positions of an empty filter is reported as already there. */
  lemma EightMissed(c: Config, bits: nat)
    requires c.Valid() && Positions(c) >= COUNTER_VALUES && c.hashes >= COUNTER_VALUES && c.hashes * c.hashBits <= bits
    ensures !FusedExact(c, bits)
  {
    hide Config.Hash, FusedHits, Pow2, Positions, CountersEqual, FirstNats;
    var n := c.hashes;
    var m := n - COUNTER_VALUES;
    var v := ValueFor(c, seq(n, i requires 0 <= i < n => if i < m then 0 else i - m), bits);
    var f := Empty(c);
    var eight := FirstNats(COUNTER_VALUES);
    forall p: nat | p < COUNTER_VALUES
      ensures p in Unset(c, f, v, n)
    {
      assert c.Hash(v, m + p) == p;
    }
    assert Unset(c, f, v, n) == eight;
    FusedMisses(c, f, v, n);
    MissesCompare(n, COUNTER_VALUES);
    assert !f[c.Hash(v, m)];
    assert CountersEqual(FusedHits(c, f, v, n), n) && !Present(c, f, v, n);
  }

  /** The fused operation goes wrong only where eight different positions can be missed at once. */
  lemma FusedExactly(c: Config, bits: nat)
    requires c.Valid() && c.hashes * c.hashBits <= bits
    ensures FusedExact(c, bits) <==> c.hashes <= 7 || Positions(c) <= 7
  {
    hide FusedExact, Positions, Config.Hash;
    if c.hashes <= 7 || Positions(c) <= 7 {
      FewPositions(c, bits);
    } else {
      EightMissed(c, bits);
    }
  }
}
