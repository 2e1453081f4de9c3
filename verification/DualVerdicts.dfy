/**
 The equality checks of both machines together.  In a round machine Alice hands her checker the labels
 she generated and the labels and bools she evaluated; machine Bob does the same with the roles exchanged.
 */
module DualVerdicts {
  import opened Payloads
  import opened Revealer

  /**
   One reveal on both machines: the two garblings of the revealed wires, the bits each execution yields on
   them, and the value output once decrypted.
   */
  datatype DualRound = DualRound(g1: Garbling, g2: Garbling, v1: seq<bool>, v2: seq<bool>, side: RevealSide,
                                value: seq<bool>) {
    predicate Valid() {
      |v1| == |v2| == |g1.zeros| == |g2.zeros|
    }

    /** The payload of the round on one machine. */
    function Payload(alice: bool): seq<Word>
      requires Valid()
    {
      if alice then AlicePayload(g1, g2, v2) else BobPayload(g1, g2, v1)
    }

    /** What the processes of one machine do in the round. */
    function On(alice: bool): Round
      requires Valid()
    {
      var visible := side == Both || side == if alice then Left else Right;
      if alice then Round(side, |v2|, visible, Generated(g1.zeros, g1.delta), g2.Held(v2), v2, value)
      else Round(side, |v1|, visible, Generated(g2.zeros, g2.delta), g1.Held(v1), v1, value)
    }
  }

  predicate AllValid(rounds: seq<DualRound>) {
    forall r :: 0 <= r < |rounds| ==> rounds[r].Valid()
  }

  /** The checker's assembly of what was handed over. */
  function Assembled(alice: bool, garblerLabels: seq<Block>, labels: seq<Block>, bools: seq<bool>): seq<Word>
    requires |garblerLabels| == |labels| == |bools|
  {
    var big, little := Applied(garblerLabels, bools), Applied(labels, bools);
    if alice then big + little else little + big
  }

  /** The joint step of a machine: its assembled payload's digest against the digest the other machine puts in. */
  predicate JointCheck(digest: Digest, rounds: seq<DualRound>, alice: bool, r: nat, bits: nat,
          garblerLabels: seq<Block>, labels: seq<Block>, bools: seq<bool>)
    requires AllValid(rounds)
  {
    && r < |rounds| && |garblerLabels| == |labels| == |bools| == bits
    && digest(Assembled(alice, garblerLabels, labels, bools)) == digest(rounds[r].Payload(!alice))
  }

  function MachinePlan(digest: Digest, rounds: seq<DualRound>, alice: bool): Plan
    requires AllValid(rounds)
  {
    Plan(seq(|rounds|, r requires 0 <= r < |rounds| => rounds[r].On(alice)),
         (r: nat, bits: nat, garblerLabels: seq<Block>, labels: seq<Block>, bools: seq<bool>) =>
           JointCheck(digest, rounds, alice, r, bits, garblerLabels, labels, bools))
  }

  /** What a machine's processes hand over in a round assembles to its payload of the round. */
  lemma HandsOverPayload(round: DualRound, alice: bool)
    requires round.Valid()
    ensures var d := round.On(alice);
            && |d.garblerLabels| == |d.labels| == |d.bools| == d.bits
            && Assembled(alice, d.garblerLabels, d.labels, d.bools) == round.Payload(alice)
  {
    hide Applied, Generated, Garbling.Held;
  }

  lemma PlannedVerdict(digest: Digest, rounds: seq<DualRound>, alice: bool, r: nat)
    requires AllValid(rounds) && r < |rounds|
    ensures var plan := MachinePlan(digest, rounds, alice);
            && plan.Size() == |rounds|
            && (plan.VerdictOf(r) <==> digest(rounds[r].Payload(alice)) == digest(rounds[r].Payload(!alice)))
  {
    HandsOverPayload(rounds[r], alice);
    hide DualRound.Payload, Assembled, DualRound.On;
  }

  /**
   The check is about what was handed over: it passes if and only if that has the round's size and its two
   halves, in the machine's order, have the digest that the other machine puts in.
   */
  lemma CheckUsesHandOver(digest: Digest, rounds: seq<DualRound>, alice: bool, r: nat, bits: nat,
          garblerLabels: seq<Block>, labels: seq<Block>, bools: seq<bool>)
    requires AllValid(rounds) && r < |rounds| && |garblerLabels| == |labels| == |bools| == bits
    ensures MachinePlan(digest, rounds, alice).check(r, bits, garblerLabels, labels, bools) <==>
              if alice then
                digest(Applied(garblerLabels, bools) + Applied(labels, bools))
                == digest(BobPayload(rounds[r].g1, rounds[r].g2, rounds[r].v1))
              else
                digest(Applied(labels, bools) + Applied(garblerLabels, bools))
                == digest(AlicePayload(rounds[r].g1, rounds[r].g2, rounds[r].v2))
  {
    hide Applied, AlicePayload, BobPayload;
  }

  /** The verdict of a round is about the two executions' results. */
  lemma VerdictMeans(digest: Digest, rounds: seq<DualRound>, alice: bool, r: nat)
    requires AllValid(rounds) && r < |rounds|
    ensures var d, verdict := rounds[r], MachinePlan(digest, rounds, alice).VerdictOf(r);
            && (WiresAgree(d.g1, d.g2, d.v1, d.v2) ==> verdict)
            && ((digest(d.Payload(true)) == digest(d.Payload(false)) ==> d.Payload(true) == d.Payload(false)) ==>
                  (verdict <==> WiresAgree(d.g1, d.g2, d.v1, d.v2)))
  {
    PlannedVerdict(digest, rounds, alice, r);
    PayloadsAgree(rounds[r].g1, rounds[r].g2, rounds[r].v1, rounds[r].v2);
    hide AlicePayload, BobPayload, WiresAgree, MachinePlan;
  }

  /**
   On either machine, over every interleaving of its three processes: every verdict a process receives in
   a round says whether, on every wire of that round, the two executions gave the same bit or neither
   garbling distinguishes the bits; so the processes of both machines receive the same verdict.
   */
  lemma VerdictsCompareResults(digest: Digest, rounds: seq<DualRound>, alice: bool, s: System, r: nat)
    requires AllValid(rounds) && Reachable(MachinePlan(digest, rounds, alice), s)
    requires r < |rounds|
    requires var a, b := rounds[r].Payload(true), rounds[r].Payload(false); digest(a) == digest(b) ==> a == b
    ensures var d := rounds[r];
            && (r < |s.g.verdicts| ==> (s.g.verdicts[r] <==> WiresAgree(d.g1, d.g2, d.v1, d.v2)))
            && (r < |s.n.verdicts| ==> (s.n.verdicts[r] <==> WiresAgree(d.g1, d.g2, d.v1, d.v2)))
  {
    hide *;
    VerdictsCorrect(MachinePlan(digest, rounds, alice), s, r);
    VerdictMeans(digest, rounds, alice, r);
  }

  // ---- Who is shown what ----

  /** A round is for a machine if it is revealed to both, or to that machine's side: Alice is left, Bob right. */
  predicate IsFor(side: RevealSide, alice: bool) {
    match side
    case Both => true
    case Left => alice
    case Right => !alice
  }

  /** The values of the rounds that are for a machine, in order. */
  function ValuesFor(rounds: seq<DualRound>, alice: bool): seq<seq<bool>> {
    if rounds == [] then []
    else
      var last := rounds[|rounds| - 1];
      ValuesFor(rounds[..|rounds| - 1], alice) + if IsFor(last.side, alice) then [last.value] else []
  }

  lemma {:induction false} PlannedOutputs(digest: Digest, rounds: seq<DualRound>, alice: bool, r: nat)
    requires AllValid(rounds) && r <= |rounds|
    ensures r <= MachinePlan(digest, rounds, alice).Size()
    ensures MachinePlan(digest, rounds, alice).Outputs(r) == ValuesFor(rounds[..r], alice)
  {
    if r > 0 {
      PlannedOutputs(digest, rounds, alice, r - 1);
      assert rounds[..r][..r - 1] == rounds[..r - 1];
    }
  }

  lemma PlannedRound(digest: Digest, rounds: seq<DualRound>, alice: bool, r: nat)
    requires AllValid(rounds) && r < |rounds|
    ensures var plan := MachinePlan(digest, rounds, alice);
            && (plan.Visible(r) <==> IsFor(rounds[r].side, alice))
            && plan.RequestOf(r) == Request(true, rounds[r].side, |rounds[r].v1|)
            && plan.rounds[r].value == rounds[r].value
  {}

  /** What a process of a machine has output is what its rounds so far reveal to that machine. */
  ghost predicate OutputsSoFar(rounds: seq<DualRound>, alice: bool, p: DualEx) {
    && p.round <= |rounds|
    && (p.outputs == ValuesFor(rounds[..p.round], alice)
        || (p.round < |rounds| && IsFor(rounds[p.round].side, alice)
            && p.outputs == ValuesFor(rounds[..p.round], alice) + [rounds[p.round].value]))
    && (p.stopped ==> p.outputs == ValuesFor(rounds, alice))
  }

  /**
   On either machine, in every reachable state, both processes have output exactly the values, in order, of
   the rounds so far that are for that machine; a round for the other side adds nothing.  Once stopped,
   they have output those of all rounds.
   */
  lemma RevealsReachTheirSide(digest: Digest, rounds: seq<DualRound>, alice: bool, s: System)
    requires AllValid(rounds) && Reachable(MachinePlan(digest, rounds, alice), s)
    ensures OutputsSoFar(rounds, alice, s.g) && OutputsSoFar(rounds, alice, s.n)
  {
    var plan := MachinePlan(digest, rounds, alice);
    InvReachable(plan, s);
    ProcessOutputs(digest, rounds, alice, s.g);
    ProcessOutputs(digest, rounds, alice, s.n);
    hide *;
  }

  lemma ProcessOutputs(digest: Digest, rounds: seq<DualRound>, alice: bool, p: DualEx)
    requires AllValid(rounds) && DualExInv(MachinePlan(digest, rounds, alice), p)
    ensures OutputsSoFar(rounds, alice, p)
  {
    PlannedOutputs(digest, rounds, alice, p.round);
    if p.round < |rounds| {
      PlannedRound(digest, rounds, alice, p.round);
    }
    assert rounds[..|rounds|] == rounds;
    hide MachinePlan, ValuesFor, Counts, HandedOver, IsFor;
  }

  /**
   The i-th request either process hands its checker asks for round i, with its side and number of bits;
   after the last round it asks for nothing more.
   */
  lemma RequestsNameTheRound(digest: Digest, rounds: seq<DualRound>, alice: bool, s: System, i: nat)
    requires AllValid(rounds) && Reachable(MachinePlan(digest, rounds, alice), s)
    ensures i < |s.g.left[GARBLER_WANTS]| ==> i <= |rounds| && Asks(rounds, i, s.g.left[GARBLER_WANTS][i])
    ensures i < |s.n.left[NON_GARBLER_WANTS]| ==> i <= |rounds| && Asks(rounds, i, s.n.left[NON_GARBLER_WANTS][i])
  {
    InvReachable(MachinePlan(digest, rounds, alice), s);
    if i < |s.g.left[GARBLER_WANTS]| {
      ProcessAsks(digest, rounds, alice, s.g, GARBLER_WANTS, i);
    }
    if i < |s.n.left[NON_GARBLER_WANTS]| {
      ProcessAsks(digest, rounds, alice, s.n, NON_GARBLER_WANTS, i);
    }
    hide MachinePlan, Asks;
  }

  ghost predicate Asks(rounds: seq<DualRound>, i: nat, m: Message)
    requires i <= |rounds|
  {
    && m.Request? && (m.want <==> i < |rounds|)
    && (i < |rounds| ==> m.side == rounds[i].side && m.bits == |rounds[i].v1|)
  }

  lemma ProcessAsks(digest: Digest, rounds: seq<DualRound>, alice: bool, p: DualEx, ch: Channel, i: nat)
    requires AllValid(rounds) && DualExInv(MachinePlan(digest, rounds, alice), p)
    requires ch == Wants(p.garbler) && i < |p.left[ch]|
    ensures i <= |rounds| && Asks(rounds, i, p.left[ch][i])
  {
    var plan := MachinePlan(digest, rounds, alice);
    assert |p.left[ch]| == Entered(plan, p, ch) && p.left[ch][i] == MessageAt(plan, p.garbler, ch, i);
    if i < |rounds| {
      PlannedRound(digest, rounds, alice, i);
    }
    hide MachinePlan, Received;
  }
}
