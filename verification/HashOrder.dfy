/**
 256-bit lookup keys as vectors of byte lanes, and the order two movemask words induce on them.
 Lane i is byte i of the vector; the comparison of two lanes is signed.
 */
module HashOrder {
  import opened Powers

  const LANES: nat := 32

  type Vec = seq<bv8>
  type Vec256 = v: Vec | |v| == LANES witness seq(LANES, _ => 0)

  function SignedByte(b: bv8): (v: int)
    ensures -128 <= v < 128
  {
    if b < 128 then b as int else b as int - 256
  }

  lemma SignedByteInjective(a: bv8, b: bv8)
    requires SignedByte(a) == SignedByte(b)
    ensures a == b
  {
    assert a as int == b as int;
    assert a == (a as int) as bv8 == (b as int) as bv8 == b;
  }

  /** cmpgt_epi8: one flag per lane. */
  function CompareGreater(x: Vec, y: Vec): seq<bool>
    requires |x| == |y|
  {
    seq(|x|, i requires 0 <= i < |x| => SignedByte(x[i]) > SignedByte(y[i]))
  }

  /** cmpeq_epi8: one flag per lane. */
  function CompareEqual(x: Vec, y: Vec): seq<bool>
    requires |x| == |y|
  {
    seq(|x|, i requires 0 <= i < |x| => x[i] == y[i])
  }

  /** Two movemask_epi8 words compared: bit i of each is the flag of lane i. */
  predicate CompareHash(x: Vec, y: Vec)
    requires |x| == |y|
  {
    Unsigned(CompareGreater(x, y)) > Unsigned(CompareGreater(y, x))
  }

  predicate CompareHashEq(x: Vec, y: Vec)
    requires |x| == |y|
  {
    Unsigned(CompareEqual(x, y)) == Pow2(|x|) - 1
  }

  // ---- What the two masks decide ----

  /** One byte exceeds another as a signed number: only the other has the top bit, or it exceeds it in value. */
  predicate LaneGreater(a: bv8, b: bv8) {
    if (a < 0x80) == (b < 0x80) then a > b else a < 0x80
  }

  /** A lane is read as the signed number of its byte. */
  lemma LaneSigned(a: bv8, b: bv8)
    ensures SignedByte(a) > SignedByte(b) <==> LaneGreater(a, b)
    ensures (SignedByte(a) - a as int) % 256 == 0
  {}

  /** x exceeds y at some lane and agrees with it on every more significant lane. */
  ghost predicate LexGreater(x: Vec, y: Vec)
    requires |x| == |y|
  {
    exists p :: 0 <= p < |x| && LaneGreater(x[p], y[p]) && x[p + 1..] == y[p + 1..]
  }

  /** The number whose base-256 digits, least significant lane first, are the lanes. */
  function Rank(x: Vec): int {
    if x == [] then 0 else SignedByte(x[0]) + 128 + 256 * Rank(x[1..])
  }

  lemma DigitsUnique(a: int, b: int, r: int, t: int)
    requires 0 <= a < 256 && 0 <= b < 256 && a + 256 * r == b + 256 * t
    ensures a == b && r == t
  {}

  lemma {:induction false} RankInjective(x: Vec, y: Vec)
    requires |x| == |y| && Rank(x) == Rank(y)
    ensures x == y
  {
    if x != [] {
      DigitsUnique(SignedByte(x[0]) + 128, SignedByte(y[0]) + 128, Rank(x[1..]), Rank(y[1..]));
      SignedByteInjective(x[0], y[0]);
      RankInjective(x[1..], y[1..]);
      assert x == [x[0]] + x[1..] == [y[0]] + y[1..] == y;
    }
  }

  /** The mask comparison is the comparison of ranks, for any number of lanes. */
  lemma {:induction false} CompareHashIsRank(x: Vec, y: Vec)
    requires |x| == |y|
    ensures CompareHash(x, y) <==> Rank(x) > Rank(y)
    ensures CompareHash(y, x) <==> Rank(y) > Rank(x)
  {
    if x != [] {
      CompareHashIsRank(x[1..], y[1..]);
      assert CompareGreater(x, y)[1..] == CompareGreater(x[1..], y[1..]);
      assert CompareGreater(y, x)[1..] == CompareGreater(y[1..], x[1..]);
    }
  }

  /** The top lanes decide; only where they agree does lane 0. */
  lemma LexStep(x: Vec, y: Vec)
    requires |x| == |y| > 0
    ensures LexGreater(x, y) <==> LexGreater(x[1..], y[1..]) || (x[1..] == y[1..] && LaneGreater(x[0], y[0]))
  {
    hide LaneGreater;
    assert forall p :: 0 <= p < |x| - 1 ==> x[1..][p] == x[p + 1] && x[1..][p + 1..] == x[p + 2..];
    assert forall p :: 0 <= p < |x| - 1 ==> y[1..][p] == y[p + 1] && y[1..][p + 1..] == y[p + 2..];
    if LexGreater(x, y) {
      var p :| 0 <= p < |x| && LaneGreater(x[p], y[p]) && x[p + 1..] == y[p + 1..];
      if p > 0 {
        assert x[1..][p - 1 + 1..] == y[1..][p - 1 + 1..];
      }
    }
    if LexGreater(x[1..], y[1..]) {
      var p :| 0 <= p < |x| - 1 && LaneGreater(x[1..][p], y[1..][p]) && x[1..][p + 1..] == y[1..][p + 1..];
      assert x[p + 1 + 1..] == y[p + 1 + 1..];
    }
  }

  lemma {:induction false} LexIsRank(x: Vec, y: Vec)
    requires |x| == |y|
    ensures LexGreater(x, y) <==> Rank(x) > Rank(y)
  {
    if x != [] {
      LaneSigned(x[0], y[0]);
      LexIsRank(x[1..], y[1..]);
      LexStep(x, y);
      hide SignedByte, LaneGreater, LexGreater;
      if Rank(x[1..]) == Rank(y[1..]) {
        RankInjective(x[1..], y[1..]);
      }
    }
  }

  lemma {:induction false} AllOnes(flags: seq<bool>)
    ensures Unsigned(flags) == Pow2(|flags|) - 1 <==> forall i :: 0 <= i < |flags| ==> flags[i]
  {
    if flags != [] {
      AllOnes(flags[1..]);
      assert flags == [flags[0]] + flags[1..];
    }
  }

  /** compareHash is most-significant-lane-first order on signed lanes; compareHashEq is its equality. */
  lemma CompareHashIsLex(x: Vec, y: Vec)
    requires |x| == |y|
    ensures CompareHash(x, y) <==> LexGreater(x, y)
    ensures CompareHashEq(x, y) <==> x == y
  {
    CompareHashIsRank(x, y);
    LexIsRank(x, y);
    var flags := CompareEqual(x, y);
    AllOnes(flags);
    if forall i :: 0 <= i < |flags| ==> flags[i] {
      forall i | 0 <= i < |x|
        ensures x[i] == y[i]
      {
        assert flags[i];
      }
    }
  }

  /** It is a strict total order. */
  lemma CompareHashTotalOrder(x: Vec, y: Vec, z: Vec)
    requires |x| == |y| == |z|
    ensures !CompareHash(x, x)
    ensures CompareHash(x, y) ==> !CompareHash(y, x)
    ensures CompareHash(x, y) || CompareHash(y, x) || CompareHashEq(x, y)
    ensures CompareHash(x, y) && CompareHash(y, z) ==> CompareHash(x, z)
  {
    CompareHashIsRank(x, x);
    CompareHashIsRank(x, y);
    CompareHashIsRank(y, z);
    CompareHashIsRank(x, z);
    CompareHashIsLex(x, y);
    if Rank(x) == Rank(y) {
      RankInjective(x, y);
    }
  }
}
