/**
 The payloads of the dual-execution equality check.  A garbled wire has a 128-bit label for each bit
 value; the two labels differ by the garbler's delta.  Only one 64-bit half of a label goes into a
 payload: word 0 of the label of a 0, word 1 of the label of a 1.
 */
module Payloads {

  type Word = bv64

  datatype Block = Block(word0: Word, word1: Word)

  function XorWords(a: Word, b: Word): Word {
    a ^ b
  }

  function XorBlocks(a: Block, b: Block): Block {
    Block(XorWords(a.word0, b.word0), XorWords(a.word1, b.word1))
  }

  /** One party's garbling of the output wires: their 0-labels, and delta. */
  datatype Garbling = Garbling(zeros: seq<Block>, delta: Block) {
    function Label(i: nat, value: bool): Block
      requires i < |zeros|
    {
      if value then XorBlocks(zeros[i], delta) else zeros[i]
    }

    /** What the evaluator holds after evaluating to v. */
    function Held(v: seq<bool>): (r: seq<Block>)
      requires |v| == |zeros|
      ensures |r| == |v|
    {
      seq(|v|, i requires 0 <= i < |v| => Label(i, v[i]))
    }

    /** The half that stands for a value on wire i. */
    function HalfLabel(i: nat, value: bool): Word
      requires i < |zeros|
    {
      if value then Label(i, true).word1 else Label(i, false).word0
    }

    /** W(v): the halves that stand for v. */
    function W(v: seq<bool>): (r: seq<Word>)
      requires |v| == |zeros|
      ensures |r| == |v|
    {
      seq(|v|, i requires 0 <= i < |v| => HalfLabel(i, v[i]))
    }

    /** The low half of the 0-label differs from the high half of the 1-label. */
    predicate Distinguishes(i: nat)
      requires i < |zeros|
    {
      HalfLabel(i, false) != HalfLabel(i, true)
    }
  }

  // ---- Labels and their application ----

  /** The xor of two words has the bits that exactly one of the two has. */
  lemma XorWordsIs(a: Word, b: Word)
    ensures XorWords(a, b) == (a | b) & !(a & b)
  {}

  lemma XorZero(a: Word)
    ensures XorWords(a, 0) == a && XorWords(a, a) == 0
  {}

  lemma XorUndone(a: Word, b: Word)
    ensures XorWords(a, XorWords(a, b)) == b
  {}

  lemma XorCommutes(a: Word, b: Word)
    ensures XorWords(a, b) == XorWords(b, a)
  {}

  lemma XorMoved(a: Word, b: Word, c: Word)
    ensures a == XorWords(b, c) <==> XorWords(a, b) == c
  {
    hide XorWords;
    XorCommutes(a, b);
    XorUndone(b, c);
    XorUndone(b, a);
  }

  /** The two labels of a wire differ by delta. */
  lemma LabelsDifferByDelta(g: Garbling, i: nat)
    requires i < |g.zeros|
    ensures XorBlocks(g.Label(i, false), g.Label(i, true)) == g.delta && g.Label(i, false) == g.zeros[i]
  {
    hide XorWords;
    XorUndone(g.zeros[i].word0, g.delta.word0);
    XorUndone(g.zeros[i].word1, g.delta.word1);
  }

  /** A wire distinguishes the bits unless the words of its zero label differ by delta's word 1. */
  lemma DistinguishesIs(g: Garbling, i: nat)
    requires i < |g.zeros|
    ensures !g.Distinguishes(i) <==> XorWords(g.zeros[i].word0, g.zeros[i].word1) == g.delta.word1
  {
    hide XorWords;
    XorMoved(g.zeros[i].word0, g.zeros[i].word1, g.delta.word1);
  }

  function Flat<T>(s: seq<seq<T>>): seq<T> {
    if s == [] then [] else s[0] + Flat(s[1..])
  }

  lemma {:induction false} FlatSplit<T>(s: seq<seq<T>>, n: nat)
    requires n < |s|
    ensures Flat(s[..n + 1]) == Flat(s[..n]) + s[n]
    ensures |Flat(s[..n + 1])| <= |Flat(s)|
  {
    if n == 0 {
      assert s[..1][1..] == [];
      assert Flat(s[..1]) == s[0] + Flat([]);
      assert s[..0] == [];
    } else {
      FlatSplit(s[1..], n - 1);
      assert s[..n + 1][1..] == s[1..][..n] && s[..n][1..] == s[1..][..n - 1];
    }
  }

  /** What the generator stores per wire: word 0 as it is, word 1 xored with delta's. */
  function Generated(zeros: seq<Block>, delta: Block): (r: seq<Block>)
    ensures |r| == |zeros|
  {
    seq(|zeros|, i requires 0 <= i < |zeros| => XorBlocks(zeros[i], Block(0, delta.word1)))
  }

  function Applied(labels: seq<Block>, v: seq<bool>): (r: seq<Word>)
    requires |v| == |labels|
    ensures |r| == |v|
  {
    seq(|v|, i requires 0 <= i < |v| => if v[i] then labels[i].word1 else labels[i].word0)
  }

  lemma GeneratedWords(zero: Block, delta: Block)
    ensures XorBlocks(zero, Block(0, delta.word1)).word0 == zero.word0
    ensures XorBlocks(zero, Block(0, delta.word1)).word1 == XorBlocks(zero, delta).word1
  {
    hide XorWords;
    XorZero(zero.word0);
  }

  /** Applying bools to the generator's blocks, or to the labels the evaluator holds for them, both give W. */
  lemma AppliedIsW(g: Garbling, v: seq<bool>)
    requires |v| == |g.zeros|
    ensures Applied(Generated(g.zeros, g.delta), v) == g.W(v)
    ensures Applied(g.Held(v), v) == g.W(v)
  {
    hide XorBlocks;
    forall i | 0 <= i < |v|
      ensures Applied(Generated(g.zeros, g.delta), v)[i] == g.W(v)[i]
    {
      GeneratedWords(g.zeros[i], g.delta);
    }
  }

  /** On a wire that distinguishes, the half label determines the value; on any other it says nothing. */
  lemma SameHalves(g: Garbling, u: seq<bool>, v: seq<bool>)
    requires |u| == |v| == |g.zeros|
    ensures g.W(u) == g.W(v) <==> forall i :: 0 <= i < |u| ==> u[i] == v[i] || !g.Distinguishes(i)
  {
    hide Garbling.HalfLabel;
    if g.W(u) == g.W(v) {
      forall i | 0 <= i < |u| && u[i] != v[i]
        ensures !g.Distinguishes(i)
      {
        assert g.W(u)[i] == g.W(v)[i];
      }
    }
  }

  /** get_labels() for the evaluator: all wire labels, integer after integer. */
  method GetLabels(input: seq<seq<Block>>, labels: array<Block>)
    requires |Flat(input)| <= labels.Length
    modifies labels
    ensures labels[..|Flat(input)|] == Flat(input)
  {
    var k := 0;
    assert input[..|input|] == input;
    for i := 0 to |input|
      invariant k == |Flat(input[..i])| <= labels.Length
      invariant labels[..k] == Flat(input[..i])
    {
      FlatSplit(input, i);
      for j := 0 to |input[i]|
        invariant k == |Flat(input[..i])| + j
        invariant labels[..k] == Flat(input[..i]) + input[i][..j]
      {
        labels[k] := input[i][j];
        k := k + 1;
      }
    }
  }

  /** get_labels() for the generator: clear delta's word 0, and xor what is left into every label. */
  method GetGeneratorLabels(input: seq<seq<Block>>, labels: array<Block>, delta: Block)
    requires |Flat(input)| <= labels.Length
    modifies labels
    ensures labels[..|Flat(input)|] == Generated(Flat(input), delta)
  {
    hide XorBlocks, XorWords, Flat, Generated;
    XorZero(delta.word0);
    var delta1 := Block(XorWords(delta.word0, delta.word0), delta.word1);
    assert delta1 == Block(0, delta.word1);
    NothingGenerated(input, delta);
    var k := 0;
    assert input[..|input|] == input;
    for i := 0 to |input|
      invariant k == |Flat(input[..i])| <= labels.Length
      invariant labels[..k] == Generated(Flat(input[..i]), delta)
    {
      FlatSplit(input, i);
      assert Flat(input[..i]) + input[i][..0] == Flat(input[..i]);
      for j := 0 to |input[i]|
        invariant k == |Flat(input[..i])| + j
        invariant labels[..k] == Generated(Flat(input[..i]) + input[i][..j], delta)
      {
        GeneratedNext(Flat(input[..i]) + input[i][..j], input[i][j], delta);
        assert Flat(input[..i]) + input[i][..j] + [input[i][j]] == Flat(input[..i]) + input[i][..j + 1];
        labels[k] := XorBlocks(input[i][j], delta1);
        k := k + 1;
      }
      assert input[i][..|input[i]|] == input[i];
    }
  }

  lemma NothingGenerated(input: seq<seq<Block>>, delta: Block)
    ensures Flat(input[..0]) == [] && Generated([], delta) == []
  {}

  lemma GeneratedNext(zeros: seq<Block>, zero: Block, delta: Block)
    ensures Generated(zeros + [zero], delta) == Generated(zeros, delta) + [XorBlocks(zero, Block(0, delta.word1))]
  {
    hide XorBlocks;
  }

  /** apply_labels() on blocks, written to output from position start on. */
  method ApplyLabels(output: array<Word>, start: nat, labels: seq<Block>, bools: seq<bool>)
    requires |bools| == |labels| && start + |labels| <= output.Length
    modifies output
    ensures output[..] == old(output[..start]) + Applied(labels, bools) + old(output[start + |labels|..])
  {
    for i := 0 to |labels|
      invariant output[..start] == old(output[..start])
      invariant output[start..start + i] == Applied(labels, bools)[..i]
      invariant output[start + i..] == old(output[start + i..])
    {
      output[start + i] := if bools[i] then labels[i].word1 else labels[i].word0;
    }
  }

  /** Blocks laid out word by word. */
  function Words(labels: seq<Block>): (r: seq<Word>)
    ensures |r| == 2 * |labels|
  {
    seq(2 * |labels|, i requires 0 <= i < 2 * |labels| =>
      if i % 2 == 0 then labels[i / 2].word0 else labels[i / 2].word1)
  }

  /** apply_labels() on labels laid out as words, with a second running index. */
  method ApplyWords(output: array<Word>, words: seq<Word>, bools: seq<bool>, ghost labels: seq<Block>)
    requires |bools| == |labels| <= output.Length && words == Words(labels)
    modifies output
    ensures output[..] == Applied(labels, bools) + old(output[|labels|..])
  {
    hide Words, Applied;
    var k := 0;
    for i := 0 to |bools|
      invariant k == 2 * i
      invariant forall p :: 0 <= p < i ==> output[p] == Applied(labels, bools)[p]
      invariant forall p :: i <= p < output.Length ==> output[p] == old(output[p])
    {
      WordsAt(labels, bools, i);
      output[i] := if bools[i] then words[k + 1] else words[k];
      k := k + 2;
    }
  }

  lemma WordsAt(labels: seq<Block>, bools: seq<bool>, i: nat)
    requires |bools| == |labels| && i < |labels|
    ensures Applied(labels, bools)[i] == if bools[i] then Words(labels)[2 * i + 1] else Words(labels)[2 * i]
  {}

  // ---- The two payloads ----

  /** What Alice hashes: W1(v2), from the labels she generated, then w2, from the labels she evaluated. */
  function AlicePayload(g1: Garbling, g2: Garbling, v2: seq<bool>): seq<Word>
    requires |v2| == |g1.zeros| == |g2.zeros|
  {
    Applied(Generated(g1.zeros, g1.delta), v2) + Applied(g2.Held(v2), v2)
  }

  /** What Bob hashes: w1, from the labels he evaluated, then W2(v1), from the labels he generated. */
  function BobPayload(g1: Garbling, g2: Garbling, v1: seq<bool>): seq<Word>
    requires |v1| == |g1.zeros| == |g2.zeros|
  {
    Applied(g1.Held(v1), v1) + Applied(Generated(g2.zeros, g2.delta), v1)
  }

  ghost predicate WiresAgree(g1: Garbling, g2: Garbling, v1: seq<bool>, v2: seq<bool>)
    requires |v1| == |v2| == |g1.zeros| == |g2.zeros|
  {
    forall i :: 0 <= i < |v1| ==> v1[i] == v2[i] || (!g1.Distinguishes(i) && !g2.Distinguishes(i))
  }

  /**
   The two payloads are equal exactly when on every wire the two executions gave the same bit, or
   neither garbling distinguishes the bits of that wire.
   */
  lemma PayloadsAgree(g1: Garbling, g2: Garbling, v1: seq<bool>, v2: seq<bool>)
    requires |v1| == |v2| == |g1.zeros| == |g2.zeros|
    ensures AlicePayload(g1, g2, v2) == BobPayload(g1, g2, v1) <==> WiresAgree(g1, g2, v1, v2)
  {
    AppliedIsW(g1, v1);
    AppliedIsW(g1, v2);
    AppliedIsW(g2, v1);
    AppliedIsW(g2, v2);
    SameHalves(g1, v1, v2);
    SameHalves(g2, v1, v2);
    hide Garbling.W, Garbling.Held, Garbling.Distinguishes, Applied, Generated;
    HalvesOfConcat(g1.W(v2), g2.W(v2), g1.W(v1), g2.W(v1));
  }

  lemma HalvesOfConcat(a: seq<Word>, b: seq<Word>, c: seq<Word>, d: seq<Word>)
    requires |a| == |c|
    ensures a + b == c + d <==> a == c && b == d
  {
    if a + b == c + d {
      assert a == (a + b)[..|a|] == (c + d)[..|c|] == c;
      assert b == (a + b)[|a|..] == (c + d)[|c|..] == d;
    }
  }

  /** When on every wire at least one garbling distinguishes, the check compares the two results. */
  lemma CheckComparesResults(g1: Garbling, g2: Garbling, v1: seq<bool>, v2: seq<bool>)
    requires |v1| == |v2| == |g1.zeros| == |g2.zeros|
    requires forall i :: 0 <= i < |v1| ==> g1.Distinguishes(i) || g2.Distinguishes(i)
    ensures AlicePayload(g1, g2, v2) == BobPayload(g1, g2, v1) <==> v1 == v2
  {
    PayloadsAgree(g1, g2, v1, v2);
  }

  /** Payload assembly in the checker process: which half comes first depends on the role. */
  method AssemblePayload(isGarbler: bool, garblerLabels: seq<Block>, nonGarblerLabels: seq<Block>,
          nonGarblerBools: seq<bool>,
                         hashMe: array<Word>)
    requires |garblerLabels| == |nonGarblerLabels| == |nonGarblerBools| && 2 * |nonGarblerBools| <= hashMe.Length
    modifies hashMe
    ensures var big, little := Applied(garblerLabels, nonGarblerBools), Applied(nonGarblerLabels, nonGarblerBools);
            hashMe[..2 * |nonGarblerBools|] == if isGarbler then big + little else little + big
  {
    var n := |nonGarblerBools|;
    hide Applied;
    if isGarbler {
      ApplyLabels(hashMe, 0, garblerLabels, nonGarblerBools);
      ApplyLabels(hashMe, n, nonGarblerLabels, nonGarblerBools);
    } else {
      ApplyLabels(hashMe, n, garblerLabels, nonGarblerBools);
      ApplyLabels(hashMe, 0, nonGarblerLabels, nonGarblerBools);
    }
  }

  /** sha3_256 over a payload. */
  type Digest = seq<Word> -> seq<bool>

  /** One dual-execution check over n wires: both sides assemble and hash, and the joint step compares. */
  method Check(digest: Digest, g1: Garbling, g2: Garbling, v1: seq<bool>, v2: seq<bool>) returns (equal: bool)
    requires |v1| == |v2| == |g1.zeros| == |g2.zeros|
    ensures WiresAgree(g1, g2, v1, v2) ==> equal
    ensures var a, b := AlicePayload(g1, g2, v2), BobPayload(g1, g2, v1);
            && (equal <==> digest(a) == digest(b))
            && ((digest(a) == digest(b) ==> a == b) ==> (equal <==> WiresAgree(g1, g2, v1, v2)))
  {
    var n := |v1|;
    var alice, bob := new Word[2 * n], new Word[2 * n];
    AssemblePayload(true, Generated(g1.zeros, g1.delta), g2.Held(v2), v2, alice);
    AssemblePayload(false, Generated(g2.zeros, g2.delta), g1.Held(v1), v1, bob);
    hide Garbling.Held, Garbling.Distinguishes, Applied, Generated;
    PayloadsAgree(g1, g2, v1, v2);
    equal := digest(alice[..2 * n]) == digest(bob[..2 * n]);
  }

  // ---- The reducer's layout ----

  /** The evaluator hands over word i and word i + 1 for wire i; past is what lies behind the last word. */
  function Doubled(w: seq<Word>, past: Word): (s: seq<Word>)
    ensures |s| == 2 * |w|
  {
    seq(2 * |w|, i requires 0 <= i < 2 * |w| =>
      if i % 2 == 0 then w[i / 2] else if i / 2 + 1 < |w| then w[i / 2 + 1] else past)
  }

  /** The evaluator's buffer: two words per wire. */
  method HandOver(w: seq<Word>, past: Word) returns (s: array<Word>)
    ensures fresh(s) && s[..] == Doubled(w, past)
  {
    s := new Word[2 * |w|];
    for i := 0 to |w|
      invariant s[..2 * i] == Doubled(w, past)[..2 * i]
    {
      s[2 * i] := w[i];
      s[2 * i + 1] := if i + 1 < |w| then w[i + 1] else past;
    }
  }

  /**
   The in-place squeeze before hashing keeps every label and never reads what it has already
   overwritten; what lay behind the last word is dropped.
   */
  method Squeeze(s: array<Word>, ghost w: seq<Word>, ghost past: Word)
    requires s[..] == Doubled(w, past)
    modifies s
    ensures s[..|w|] == w
  {
    var n := s.Length / 2;
    for i := 0 to n
      invariant s[..i] == w[..i]
      invariant forall k :: i <= k < s.Length ==> s[k] == Doubled(w, past)[k]
    {
      s[i] := s[2 * i];
    }
  }

  /** equality_check(): the generator hashes w2 then W1(v2), the evaluator W2(v1) then w1. */
  method ConcatenatePayload(first: array<Word>, second: array<Word>, n: nat) returns (payload: seq<Word>)
    requires n <= first.Length && n <= second.Length
    ensures payload == first[..n] + second[..n]
  {
    var concat := new Word[2 * n];
    var k := 0;
    for i := 0 to n
      invariant k == i
      invariant concat[..k] == first[..i]
    {
      concat[k] := first[i];
      k := k + 1;
    }
    for i := 0 to n
      invariant k == n + i
      invariant concat[..n] == first[..n]
      invariant concat[n..k] == second[..i]
    {
      concat[k] := second[i];
      k := k + 1;
    }
    payload := concat[..];
    assert payload == concat[..n] + concat[n..];
  }

  /** What the reducer's parent generator hashes. */
  function ReducerAlicePayload(g1: Garbling, g2: Garbling, v2: seq<bool>): seq<Word>
    requires |v2| == |g1.zeros| == |g2.zeros|
  {
    Applied(g2.Held(v2), v2) + Applied(Generated(g1.zeros, g1.delta), v2)
  }

  /** What the reducer's parent evaluator hashes. */
  function ReducerBobPayload(g1: Garbling, g2: Garbling, v1: seq<bool>): seq<Word>
    requires |v1| == |g1.zeros| == |g2.zeros|
  {
    Applied(Generated(g2.zeros, g2.delta), v1) + Applied(g1.Held(v1), v1)
  }

  lemma ReducerPayloadsAre(g1: Garbling, g2: Garbling, v1: seq<bool>, v2: seq<bool>)
    requires |v1| == |v2| == |g1.zeros| == |g2.zeros|
    ensures ReducerAlicePayload(g1, g2, v2) == Applied(g2.Held(v2), v2) + Applied(Generated(g1.zeros, g1.delta), v2)
    ensures ReducerBobPayload(g1, g2, v1) == Applied(Generated(g2.zeros, g2.delta), v1) + Applied(g1.Held(v1), v1)
  {
    hide Applied, Generated, Garbling.Held;
  }

  lemma ReducerPayloadsAgree(g1: Garbling, g2: Garbling, v1: seq<bool>, v2: seq<bool>)
    requires |v1| == |v2| == |g1.zeros| == |g2.zeros|
    ensures ReducerAlicePayload(g1, g2, v2) == ReducerBobPayload(g1, g2, v1) <==> WiresAgree(g1, g2, v1, v2)
  {
    AppliedIsW(g1, v1);
    AppliedIsW(g1, v2);
    AppliedIsW(g2, v1);
    AppliedIsW(g2, v2);
    SameHalves(g1, v1, v2);
    SameHalves(g2, v1, v2);
    hide Garbling.W, Garbling.Held, Garbling.Distinguishes, Applied, Generated;
    HalvesOfConcat(g2.W(v2), g1.W(v2), g2.W(v1), g1.W(v1));
  }

  /** The reducer's check, from the shared buffers of both parents, compares what the direct one compares. */
  method ReducerCheck(digest: Digest, g1: Garbling, g2: Garbling, v1: seq<bool>, v2: seq<bool>, pastAlice: Word,
          pastBob: Word) returns (equal: bool)
    requires |v1| == |v2| == |g1.zeros| == |g2.zeros|
    ensures WiresAgree(g1, g2, v1, v2) ==> equal
    ensures var a, b := ReducerAlicePayload(g1, g2, v2), ReducerBobPayload(g1, g2, v1);
            && (equal <==> digest(a) == digest(b))
            && ((digest(a) == digest(b) ==> a == b) ==> (equal <==> WiresAgree(g1, g2, v1, v2)))
  {
    hide *;
    var n := |v1|;
    ReducerPayloadsAgree(g1, g2, v1, v2);
    var w1, w2 := Applied(g1.Held(v1), v1), Applied(g2.Held(v2), v2);
    var bigAlice, bigBob := new Word[n], new Word[n];
    ApplyWords(bigAlice, Words(Generated(g1.zeros, g1.delta)), v2, Generated(g1.zeros, g1.delta));
    ApplyWords(bigBob, Words(Generated(g2.zeros, g2.delta)), v1, Generated(g2.zeros, g2.delta));
    var littleAlice := HandOver(w2, pastAlice);
    var littleBob := HandOver(w1, pastBob);
    Squeeze(littleAlice, w2, pastAlice);
    Squeeze(littleBob, w1, pastBob);
    var alice := ConcatenatePayload(littleAlice, bigAlice, n);
    var bob := ConcatenatePayload(bigBob, littleBob, n);
    ReducerPayloadsAre(g1, g2, v1, v2);
    equal := digest(alice) == digest(bob);
  }
}
