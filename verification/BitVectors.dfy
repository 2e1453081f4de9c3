/** Bytes as bits, least significant first, and 256-bit vectors as 256 bits. */
module BitVectors {
  import opened HashOrder

  type Bits = seq<bool>
  type Bits256 = b: Bits | |b| == 256 witness seq(256, _ => false)

  predicate Bit(x: bv8, mask: bv8) {
    x & mask != 0
  }

  function BitsOfByte(x: bv8): (b: Bits)
    ensures |b| == 8
  {
    [Bit(x, 1), Bit(x, 2), Bit(x, 4), Bit(x, 8), Bit(x, 16), Bit(x, 32), Bit(x, 64), Bit(x, 128)]
  }

  /** Bit i of a byte is the one of weight 2 to the i. */
  lemma BitWeights(x: bv8)
    ensures var b := BitsOfByte(x);
            && b[0] == ((x >> 0) & 1 == 1) && b[1] == ((x >> 1) & 1 == 1) && b[2] == ((x >> 2) & 1 == 1)
            && b[3] == ((x >> 3) & 1 == 1) && b[4] == ((x >> 4) & 1 == 1) && b[5] == ((x >> 5) & 1 == 1)
            && b[6] == ((x >> 6) & 1 == 1) && b[7] == ((x >> 7) & 1 == 1)
  {}

  function Pack(b0: bool, b1: bool, b2: bool, b3: bool, b4: bool, b5: bool, b6: bool, b7: bool): bv8 {
    (if b0 then 1 else 0) | (if b1 then 2 else 0) | (if b2 then 4 else 0) | (if b3 then 8 else 0)
    | (if b4 then 16 else 0) | (if b5 then 32 else 0) | (if b6 then 64 else 0) | (if b7 then 128 else 0)
  }

  function ByteOfBits(b: Bits): bv8
    requires |b| == 8
  {
    Pack(b[0], b[1], b[2], b[3], b[4], b[5], b[6], b[7])
  }

  lemma PackUnpacked(x: bv8)
    ensures Pack(Bit(x, 1), Bit(x, 2), Bit(x, 4), Bit(x, 8), Bit(x, 16), Bit(x, 32), Bit(x, 64), Bit(x, 128)) == x
  {}

  lemma UnpackPacked(b0: bool, b1: bool, b2: bool, b3: bool, b4: bool, b5: bool, b6: bool, b7: bool)
    ensures var x := Pack(b0, b1, b2, b3, b4, b5, b6, b7);
            && (Bit(x, 1) <==> b0) && (Bit(x, 2) <==> b1) && (Bit(x, 4) <==> b2) && (Bit(x, 8) <==> b3)
            && (Bit(x, 16) <==> b4) && (Bit(x, 32) <==> b5) && (Bit(x, 64) <==> b6) && (Bit(x, 128) <==> b7)
  {}

  lemma BitsToByte(x: bv8)
    ensures ByteOfBits(BitsOfByte(x)) == x
  {
    PackUnpacked(x);
    hide Pack, Bit;
  }

  lemma PackToBits(b0: bool, b1: bool, b2: bool, b3: bool, b4: bool, b5: bool, b6: bool, b7: bool)
    ensures BitsOfByte(Pack(b0, b1, b2, b3, b4, b5, b6, b7)) == [b0, b1, b2, b3, b4, b5, b6, b7]
  {
    UnpackPacked(b0, b1, b2, b3, b4, b5, b6, b7);
    hide Pack, Bit;
  }

  lemma EightBits(b: Bits)
    requires |b| == 8
    ensures b == [b[0], b[1], b[2], b[3], b[4], b[5], b[6], b[7]]
  {}

  lemma ByteToBits(b: Bits)
    requires |b| == 8
    ensures BitsOfByte(ByteOfBits(b)) == b
  {
    EightBits(b);
    PackToBits(b[0], b[1], b[2], b[3], b[4], b[5], b[6], b[7]);
    hide Pack, BitsOfByte;
  }

  function BitsOf(v: Vec): (b: Bits)
    ensures |b| == 8 * |v|
  {
    if v == [] then [] else BitsOfByte(v[0]) + BitsOf(v[1..])
  }

  function VecOf(b: Bits): (v: Vec)
    requires |b| % 8 == 0
    ensures 8 * |v| == |b|
  {
    if b == [] then [] else [ByteOfBits(b[..8])] + VecOf(b[8..])
  }

  lemma {:induction false} VecOfBitsOf(v: Vec)
    ensures VecOf(BitsOf(v)) == v
  {
    if v != [] {
      BitsToByte(v[0]);
      VecOfBitsOf(v[1..]);
      assert BitsOf(v)[..8] == BitsOfByte(v[0]) && BitsOf(v)[8..] == BitsOf(v[1..]);
      hide BitsOfByte, ByteOfBits;
    }
  }

  lemma {:induction false} BitsOfVecOf(b: Bits)
    requires |b| % 8 == 0
    ensures BitsOf(VecOf(b)) == b
  {
    if b != [] {
      ByteToBits(b[..8]);
      BitsOfVecOf(b[8..]);
      hide BitsOfByte, ByteOfBits;
      assert VecOf(b)[1..] == VecOf(b[8..]);
      assert b == b[..8] + b[8..];
    }
  }
}
