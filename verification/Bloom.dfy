/**
 The oblivious Bloom filter: every operation scans the whole filter once per hash function, and a
 lookup counts the set positions in a three-bit counter.
 */
module Bloom {
  import opened Powers

  const COUNTER_VALUES: nat := 8

  /** Number of hash functions, filter size and bits per hash value. */
  datatype Config = Config(hashes: nat, size: nat, hashBits: nat) {
    predicate Valid() { size > 0 }

    /** The i-th hash position: the i-th group of hashBits bits of the value, modulo the filter size. */
    function Hash(value: nat, i: nat): (p: nat)
      requires Valid()
      ensures p < size
    {
      ((value / Pow2(i * hashBits)) % Pow2(hashBits)) % size
    }
  }

  type Filter = seq<bool>

  predicate Fits(c: Config, f: Filter) {
    c.Valid() && |f| == c.size
  }

  /** The first n positions of the value are set. */
  ghost predicate Present(c: Config, f: Filter, value: nat, n: nat)
    requires Fits(c, f)
  {
    forall i :: 0 <= i < n ==> f[c.Hash(value, i)]
  }

  predicate IsHash(c: Config, value: nat, n: nat, p: nat)
    requires c.Valid()
  {
    exists i :: 0 <= i < n && c.Hash(value, i) == p
  }

  /** The filter with the first n positions of the value set as well. */
  function Marked(c: Config, f: Filter, value: nat, n: nat): (g: Filter)
    requires Fits(c, f)
    ensures Fits(c, g)
  {
    seq(|f|, p requires 0 <= p < |f| => f[p] || IsHash(c, value, n, p))
  }

  lemma MarkedNone(c: Config, f: Filter, value: nat)
    requires Fits(c, f)
    ensures Marked(c, f, value, 0) == f
  {}

  lemma MarkedOneMore(c: Config, f: Filter, value: nat, n: nat)
    requires Fits(c, f)
    ensures Marked(c, f, value, n + 1) == Marked(c, f, value, n)[c.Hash(value, n) := true]
  {
    hide Config.Hash;
    forall p | 0 <= p < |f|
      ensures IsHash(c, value, n + 1, p) <==> IsHash(c, value, n, p) || p == c.Hash(value, n)
    {}
  }

  // ---- Counting ----

  /** How many of the first n hash functions find their position set. */
  function Hits(c: Config, f: Filter, value: nat, n: nat): (h: nat)
    requires Fits(c, f)
    ensures h <= n
  {
    if n == 0 then 0 else Hits(c, f, value, n - 1) + if f[c.Hash(value, n - 1)] then 1 else 0
  }

  /** The same count when each position is set right after it was looked at. */
  function FusedHits(c: Config, f: Filter, value: nat, n: nat): (h: nat)
    requires Fits(c, f)
    ensures h <= n
  {
    if n == 0 then 0
    else FusedHits(c, f, value, n - 1) + if Marked(c, f, value, n - 1)[c.Hash(value, n - 1)] then 1 else 0
  }

  lemma CountNone(c: Config, f: Filter, value: nat)
    requires Fits(c, f)
    ensures FusedHits(c, f, value, 0) == 0 && Wrapped(0) == 0
  {}

  lemma CountOneMore(c: Config, f: Filter, value: nat, n: nat)
    requires Fits(c, f)
    ensures FusedHits(c, f, value, n + 1)
         == FusedHits(c, f, value, n) + if Marked(c, f, value, n)[c.Hash(value, n)] then 1 else 0
  {
    hide Config.Hash, Marked;
  }

  lemma {:induction false} AllHits(c: Config, f: Filter, value: nat, n: nat)
    requires Fits(c, f)
    ensures Hits(c, f, value, n) == n <==> Present(c, f, value, n)
  {
    hide Config.Hash;
    if n > 0 {
      AllHits(c, f, value, n - 1);
    }
  }

  /** Even where positions coincide, the fused count is full exactly when every position was set before. */
  lemma {:induction false} AllFusedHits(c: Config, f: Filter, value: nat, n: nat)
    requires Fits(c, f)
    ensures FusedHits(c, f, value, n) == n <==> Present(c, f, value, n)
  {
    hide Config.Hash;
    if n > 0 {
      AllFusedHits(c, f, value, n - 1);
      var p := c.Hash(value, n - 1);
      if Present(c, f, value, n - 1) && IsHash(c, value, n - 1, p) {
        var i :| 0 <= i < n - 1 && c.Hash(value, i) == p;
      }
    }
  }

  /** A three-bit counter comparison, as the circuit makes it. */
  predicate CountersEqual(count: nat, hashes: nat) {
    count % COUNTER_VALUES == hashes % COUNTER_VALUES
  }

  // ---- Runs ----

  datatype Op = Initialize | Insert(value: nat) | Contains(value: nat) | ContainsAndInsert(value: nat)

  function Empty(c: Config): (f: Filter)
    requires c.Valid()
    ensures Fits(c, f)
  {
    seq(c.size, _ => false)
  }

  /** The filter an operation leaves. */
  function After(c: Config, f: Filter, op: Op): (g: Filter)
    requires Fits(c, f)
    ensures Fits(c, g)
  {
    match op
    case Initialize => Empty(c)
    case Insert(v) => Marked(c, f, v, c.hashes)
    case Contains(_) => f
    case ContainsAndInsert(v) => Marked(c, f, v, c.hashes)
  }

  function AfterAll(c: Config, f: Filter, ops: seq<Op>): (g: Filter)
    requires Fits(c, f)
    ensures Fits(c, g)
  {
    if ops == [] then f else After(c, AfterAll(c, f, ops[..|ops| - 1]), ops[|ops| - 1])
  }

  /** The value was inserted, by either operation, and the filter not cleared since. */
  predicate Inserted(ops: seq<Op>, value: nat) {
    && ops != []
    && var last := ops[|ops| - 1];
       last != Initialize
       && (last == Insert(value) || last == ContainsAndInsert(value) || Inserted(ops[..|ops| - 1], value))
  }

  function InsertedBy(op: Op): set<nat> {
    match op
    case Insert(v) => {v}
    case ContainsAndInsert(v) => {v}
    case _ => {}
  }

  predicate Cleared(ops: seq<Op>) {
    exists k :: 0 <= k < |ops| && ops[k] == Initialize
  }

  /** Some value hashing to p was inserted, by either operation, and the filter not cleared since. */
  ghost predicate SetBy(c: Config, ops: seq<Op>, p: nat)
    requires c.Valid()
  {
    exists k, v: nat :: 0 <= k < |ops| && v in InsertedBy(ops[k]) && !Cleared(ops[k + 1..]) && IsHash(c, v, c.hashes, p)
  }

  lemma AfterOne(c: Config, f: Filter, op: Op, p: nat)
    requires Fits(c, f) && p < |f|
    ensures After(c, f, op)[p] <==>
              (f[p] && op != Initialize) || exists v: nat :: v in InsertedBy(op) && IsHash(c, v, c.hashes, p)
  {
    hide IsHash;
  }

  lemma ClearedSplit(ops: seq<Op>, k: nat)
    requires k < |ops|
    ensures Cleared(ops[k..]) <==> Cleared(ops[k..|ops| - 1]) || ops[|ops| - 1] == Initialize
  {
    var s, t := ops[k..], ops[k..|ops| - 1];
    assert s == t + [ops[|ops| - 1]];
    if Cleared(t) {
      var i :| 0 <= i < |t| && t[i] == Initialize;
      assert s[i] == Initialize;
    }
    if ops[|ops| - 1] == Initialize {
      assert s[|t|] == Initialize;
    }
  }

  lemma SetByLast(c: Config, ops: seq<Op>, p: nat)
    requires c.Valid() && ops != []
    ensures var before, last := ops[..|ops| - 1], ops[|ops| - 1];
            SetBy(c, ops, p) <==>
              (last != Initialize && SetBy(c, before, p))
              || exists v: nat :: v in InsertedBy(last) && IsHash(c, v, c.hashes, p)
  {
    hide IsHash, Cleared;
    var before, last := ops[..|ops| - 1], ops[|ops| - 1];
    NothingCleared(ops[|ops|..]);
    if SetBy(c, ops, p) {
      var k, v: nat :| 0 <= k < |ops| && v in InsertedBy(ops[k]) && !Cleared(ops[k + 1..]) && IsHash(c, v, c.hashes, p);
      if k < |before| {
        ClearedAfter(ops, k);
        assert before[k] == ops[k];
      }
    }
    if last != Initialize && SetBy(c, before, p) {
      var k, v: nat :| 0 <= k < |before| && v in InsertedBy(before[k]) && !Cleared(before[k + 1..])
                       && IsHash(c, v, c.hashes, p);
      ClearedAfter(ops, k);
      assert v in InsertedBy(ops[k]) && !Cleared(ops[k + 1..]);
    }
    if v: nat :| v in InsertedBy(last) && IsHash(c, v, c.hashes, p) {
      assert v in InsertedBy(ops[|ops| - 1]) && !Cleared(ops[|ops| - 1 + 1..]);
    }
  }

  lemma NothingCleared(ops: seq<Op>)
    requires ops == []
    ensures !Cleared(ops)
  {}

  lemma ClearedAfter(ops: seq<Op>, k: nat)
    requires k + 1 < |ops|
    ensures Cleared(ops[k + 1..]) <==> Cleared(ops[..|ops| - 1][k + 1..]) || ops[|ops| - 1] == Initialize
  {
    assert ops[..|ops| - 1][k + 1..] == ops[k + 1..|ops| - 1];
    ClearedSplit(ops, k + 1);
  }

  /**
   Over any run a position is set if and only if it was set at the start and the filter never cleared, or a
   value hashing to it was inserted and the filter not cleared since.
   */
  lemma {:induction false} SetExactly(c: Config, f: Filter, ops: seq<Op>, p: nat)
    requires Fits(c, f) && p < |f|
    ensures AfterAll(c, f, ops)[p] <==> (f[p] && !Cleared(ops)) || SetBy(c, ops, p)
  {
    if ops == [] {
      NothingCleared(ops);
    } else {
      var before, last := ops[..|ops| - 1], ops[|ops| - 1];
      SetExactly(c, f, before, p);
      SetByLast(c, ops, p);
      ClearedSplit(ops, 0);
      assert ops[0..] == ops && ops[0..|ops| - 1] == before;
      AfterOne(c, AfterAll(c, f, before), last, p);
      hide After, SetBy, Cleared, IsHash, InsertedBy;
    }
  }

  lemma MarkedPresent(c: Config, f: Filter, value: nat, n: nat, other: nat)
    requires Fits(c, f)
    ensures Present(c, Marked(c, f, value, n), value, n)
    ensures Present(c, f, other, n) ==> Present(c, Marked(c, f, value, n), other, n)
  {
    hide Config.Hash;
    forall i | 0 <= i < n
      ensures Marked(c, f, value, n)[c.Hash(value, i)]
    {
      assert IsHash(c, value, n, c.Hash(value, i));
    }
  }

  /** No false negatives: over any run, a value once inserted and not cleared is present. */
  lemma {:induction false} NoFalseNegatives(c: Config, f: Filter, ops: seq<Op>, value: nat)
    requires Fits(c, f) && Inserted(ops, value)
    ensures Present(c, AfterAll(c, f, ops), value, c.hashes)
  {
    var before, last := ops[..|ops| - 1], ops[|ops| - 1];
    var g := AfterAll(c, f, before);
    if Inserted(before, value) {
      NoFalseNegatives(c, f, before, value);
    }
    hide Config.Hash, Present, Marked;
    match last
    case Insert(v) => MarkedPresent(c, g, v, c.hashes, value);
    case ContainsAndInsert(v) => MarkedPresent(c, g, v, c.hashes, value);
    case _ =>
  }

  /** An empty filter seems to contain every value exactly when the number of hash functions is a multiple of eight. */
  lemma EmptySeemsFull(c: Config, value: nat)
    requires c.Valid() && c.hashes > 0
    ensures !Present(c, Empty(c), value, c.hashes)
    ensures CountersEqual(Hits(c, Empty(c), value, c.hashes), c.hashes) <==> c.hashes % COUNTER_VALUES == 0
  {
    hide Config.Hash;
    assert !Empty(c)[c.Hash(value, 0)];
    NoHits(c, value, c.hashes);
  }

  lemma {:induction false} NoHits(c: Config, value: nat, n: nat)
    requires c.Valid()
    ensures Hits(c, Empty(c), value, n) == 0
  {
    hide Config.Hash;
    if n > 0 {
      NoHits(c, value, n - 1);
    }
  }

  // ---- The filter object ----

  class BloomFilter {
    const config: Config
    var filter: array<bool>

    ghost predicate Valid()
      reads this, filter
    {
      Fits(config, filter[..])
    }

    constructor (config: Config)
      requires config.Valid()
      ensures Valid() && fresh(filter) && this.config == config
      ensures filter[..] == Empty(config)
    {
      this.config := config;
      filter := new bool[config.size](_ => false);
    }

    method Initialize()
      requires Valid()
      modifies filter
      ensures Valid() && filter[..] == After(config, old(filter[..]), Op.Initialize)
    {
      for i := 0 to filter.Length
        invariant forall p :: 0 <= p < i ==> !filter[p]
      {
        filter[i] := false;
      }
    }

    /** First all hash positions, then one scan that sets every position equal to one of them. */
    method Insert(value: nat)
      requires Valid()
      modifies filter
      ensures Valid() && filter[..] == After(config, old(filter[..]), Op.Insert(value))
    {
      ghost var was := filter[..];
      hide Config.Hash;
      var hashes: seq<nat> := [];
      for i := 0 to config.hashes
        invariant |hashes| == i && forall k :: 0 <= k < i ==> hashes[k] == config.Hash(value, k)
      {
        hashes := hashes + [config.Hash(value, i)];
      }
      for j := 0 to filter.Length
        invariant forall p :: 0 <= p < j ==> filter[p] == (was[p] || IsHash(config, value, config.hashes, p))
        invariant forall p :: j <= p < filter.Length ==> filter[p] == was[p]
      {
        var cond := false;
        for k := 0 to |hashes|
          invariant cond <==> IsHash(config, value, k, j)
        {
          cond := cond || j == hashes[k];
        }
        filter[j] := filter[j] || cond;
      }
    }

    method Contains(value: nat) returns (r: bool)
      requires Valid()
      ensures r <==> CountersEqual(Hits(config, filter[..], value, config.hashes), config.hashes)
      ensures Present(config, filter[..], value, config.hashes) ==> r
      ensures config.hashes < COUNTER_VALUES ==> (r <==> Present(config, filter[..], value, config.hashes))
    {
      hide Config.Hash, CountersEqual;
      var counter := 0;
      for i := 0 to config.hashes
        invariant counter == Wrapped(Hits(config, filter[..], value, i))
      {
        var hash := config.Hash(value, i);
        for j := 0 to filter.Length
          invariant counter == Wrapped(Hits(config, filter[..], value, i) + if hash < j && filter[hash] then 1 else 0)
        {
          WrapsOnce(Hits(config, filter[..], value, i));
          counter := Wrapped(counter + if j == hash && filter[j] then 1 else 0);
        }
      }
      r := counter == Wrapped(config.hashes);
      AllHits(config, filter[..], value, config.hashes);
      WrappedCompares(Hits(config, filter[..], value, config.hashes), config.hashes);
    }

    /** One scan over the filter: counts the bit at the hash position, then sets it. */
    method ScanAndSet(hash: nat, counter0: nat, ghost hits: nat) returns (counter: nat)
      requires Valid() && hash < config.size && counter0 == Wrapped(hits)
      modifies filter
      ensures Valid() && filter[..] == old(filter[..])[hash := true]
      ensures counter == Wrapped(hits + if old(filter[hash]) then 1 else 0)
    {
      hide Wrapped;
      ghost var before := filter[..];
      counter := counter0;
      WrapsOnce(hits);
      for j := 0 to filter.Length
        invariant filter[..] == if hash < j then before[hash := true] else before
        invariant counter == Wrapped(hits + if hash < j && before[hash] then 1 else 0)
      {
        counter := Wrapped(counter + if j == hash && filter[j] then 1 else 0);
        filter[j] := filter[j] || j == hash;
      }
    }

    /** The fused operation: the same scan counts a position and then sets it. */
    method ContainsAndInsert(value: nat) returns (r: bool)
      requires Valid()
      modifies filter
      ensures Valid() && filter[..] == After(config, old(filter[..]), Op.ContainsAndInsert(value))
      ensures r <==> CountersEqual(FusedHits(config, old(filter[..]), value, config.hashes), config.hashes)
      ensures Present(config, old(filter[..]), value, config.hashes) ==> r
      ensures config.hashes < COUNTER_VALUES ==> (r <==> Present(config, old(filter[..]), value, config.hashes))
    {
      hide Config.Hash, CountersEqual, Marked, Wrapped, FusedHits, Hits, Present;
      ghost var was := filter[..];
      MarkedNone(config, was, value);
      CountNone(config, was, value);
      var counter := 0;
      for i := 0 to config.hashes
        invariant filter[..] == Marked(config, was, value, i)
        invariant counter == Wrapped(FusedHits(config, was, value, i))
      {
        MarkedOneMore(config, was, value, i);
        CountOneMore(config, was, value, i);
        counter := ScanAndSet(config.Hash(value, i), counter, FusedHits(config, was, value, i));
      }
      r := counter == Wrapped(config.hashes);
      AllFusedHits(config, was, value, config.hashes);
      WrappedCompares(FusedHits(config, was, value, config.hashes), config.hashes);
    }
  }

  /** Addition in the three-bit counter. */
  function Wrapped(n: nat): nat {
    n % COUNTER_VALUES
  }

  lemma WrapsOnce(n: nat)
    ensures Wrapped(Wrapped(n)) == Wrapped(n) && Wrapped(Wrapped(n) + 1) == Wrapped(n + 1)
    ensures Wrapped(Wrapped(n + 1)) == Wrapped(n + 1)
  {
    var q, r := n / COUNTER_VALUES, n % COUNTER_VALUES;
    Remainder(n, q, r);
    Remainder(r, 0, r);
    if r + 1 < COUNTER_VALUES {
      Remainder(n + 1, q, r + 1);
      Remainder(r + 1, 0, r + 1);
    } else {
      Remainder(n + 1, q + 1, 0);
      Remainder(r + 1, 1, 0);
    }
    Remainder(Wrapped(n + 1), 0, Wrapped(n + 1));
  }

  lemma Remainder(n: nat, q: nat, r: nat)
    requires n == COUNTER_VALUES * q + r && r < COUNTER_VALUES
    ensures Wrapped(n) == r
  {}

  lemma WrappedCompares(count: nat, hashes: nat)
    requires count <= hashes
    ensures Wrapped(count) == Wrapped(hashes) <==> CountersEqual(count, hashes)
    ensures hashes < COUNTER_VALUES ==> (Wrapped(count) == Wrapped(hashes) <==> count == hashes)
  {}
}
