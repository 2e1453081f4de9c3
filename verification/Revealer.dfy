/**
 The reveal / equality-check protocol of one machine: a garbler, a non-garbler and a checker that
 meet only in swaps of swappable RAM.  A swap is used through what SwappableRam proves of it: a
 process leaves its n-th swap on a channel once its partner has entered its own n-th, and takes
 with it what the partner left there.
 */
module Revealer {
  import opened Payloads

  datatype RevealSide = Both | Left | Right

  /** Everything a process can leave in a patch. */
  datatype Message =
    | Request(want: bool, side: RevealSide, bits: nat)
    | Labels(labels: seq<Block>)
    | Bools(bools: seq<bool>)
    | Verdict(equal: bool)
    | Value(value: seq<bool>)
    | Stale

  /** The swappable patches, numbered in the order every process visits them within a round. */
  type Channel = c: nat | c < 8

  const REVEALED_VALUE: Channel := 0
  const GARBLER_WANTS: Channel := 1
  const NON_GARBLER_WANTS: Channel := 2
  const GARBLER_LABELS: Channel := 3
  const NON_GARBLER_LABELS: Channel := 4
  const NON_GARBLER_BOOLS: Channel := 5
  const GARBLER_RESULT: Channel := 6
  const NON_GARBLER_RESULT: Channel := 7

  /** What one process has left in each channel, swap by swap. */
  type Ledger = l: seq<seq<Message>> | |l| == 8 witness [[], [], [], [], [], [], [], []]

  const EMPTY_LEDGER: Ledger := [[], [], [], [], [], [], [], []]

  function Leave(l: Ledger, ch: Channel, m: Message): Ledger {
    l[ch := l[ch] + [m]]
  }

  /** One reveal: to whom, how many bits, whether this machine outputs it, and what the circuit yields. */
  datatype Round = Round(side: RevealSide, bits: nat, visible: bool,
                         garblerLabels: seq<Block>, labels: seq<Block>, bools: seq<bool>, value: seq<bool>)

  /**
   The rounds both processes run before stopping, and the equality check of a round: a function of
   what this machine hands over (the peer's input to the joint check is part of the function).
   */
  datatype Plan = Plan(rounds: seq<Round>, check: (nat, nat, seq<Block>, seq<Block>, seq<bool>) -> bool) {
    function Size(): nat { |rounds| }

    predicate Visible(r: nat) { r < |rounds| && rounds[r].visible }

    function RequestOf(r: nat): Message {
      if r < |rounds| then Request(true, rounds[r].side, rounds[r].bits) else Request(false, Both, 0)
    }

    function VerdictOf(r: nat): bool {
      r < |rounds| && var d := rounds[r]; check(r, d.bits, d.garblerLabels, d.labels, d.bools)
    }

    /** The values this machine outputs in the first r rounds. */
    function Outputs(r: nat): seq<seq<bool>>
      requires r <= |rounds|
    {
      if r == 0 then [] else Outputs(r - 1) + (if rounds[r - 1].visible then [rounds[r - 1].value] else [])
    }
  }

  // ---- The two DualEx processes ----

  /** stage is the next swap to make, or the one it is in when inside. */
  datatype DualEx = DualEx(garbler: bool, round: nat, stage: Channel, inside: bool, stopped: bool, refused: bool,
                           readyToRequest: bool, checkInProgress: bool,
                           left: Ledger, verdicts: seq<bool>, outputs: seq<seq<bool>>)

  function Wants(garbler: bool): Channel { if garbler then GARBLER_WANTS else NON_GARBLER_WANTS }

  function Result(garbler: bool): Channel { if garbler then GARBLER_RESULT else NON_GARBLER_RESULT }

  function FirstStage(plan: Plan, garbler: bool, r: nat): Channel {
    if plan.Visible(r) then REVEALED_VALUE else Wants(garbler)
  }

  function Start(plan: Plan, garbler: bool): DualEx {
    DualEx(garbler, 0, FirstStage(plan, garbler, 0), false, false, false, true, false, EMPTY_LEDGER, [], [])
  }

  /** What a DualEx process leaves in a channel in round r. */
  function MessageAt(plan: Plan, garbler: bool, ch: Channel, r: nat): Message {
    if ch == GARBLER_WANTS || ch == NON_GARBLER_WANTS then plan.RequestOf(r)
    else if r >= plan.Size() then Stale
    else if ch == GARBLER_LABELS then Labels(plan.rounds[r].garblerLabels)
    else if ch == NON_GARBLER_LABELS then Labels(plan.rounds[r].labels)
    else if ch == NON_GARBLER_BOOLS then Bools(plan.rounds[r].bools)
    else if ch == REVEALED_VALUE && !garbler then Value(plan.rounds[r].value)
    else Stale
  }

  /**
   Entering a swap.  request_eq_check and stop_eq_checker refuse unless ready, and
   get_eq_check_results refuses unless a check is in progress; a refused process goes no further.
   */
  function EnterSwap(plan: Plan, p: DualEx): DualEx {
    var left := Leave(p.left, p.stage, MessageAt(plan, p.garbler, p.stage, p.round));
    if p.stage == Wants(p.garbler) then
      if !p.readyToRequest then p.(refused := true)
      else p.(inside := true, left := left, readyToRequest := false,
              checkInProgress := p.checkInProgress && p.round < plan.Size())
    else if p.stage == Result(p.garbler) && !p.checkInProgress then p.(refused := true)
    else if p.stage == REVEALED_VALUE && !p.garbler && p.round < plan.Size() then
      p.(inside := true, left := left, outputs := p.outputs + [plan.rounds[p.round].value])
    else p.(inside := true, left := left)
  }

  /** Leaving a swap with what the partner left there. */
  function LeaveSwap(plan: Plan, p: DualEx, m: Message): DualEx {
    var q := p.(inside := false);
    if p.stage == REVEALED_VALUE then
      q.(stage := Wants(p.garbler),
         outputs := if p.garbler then p.outputs + [if m.Value? then m.value else []] else p.outputs)
    else if p.stage == Wants(p.garbler) then
      if p.round >= plan.Size() then q.(stopped := true)
      else q.(stage := if p.garbler then GARBLER_LABELS else NON_GARBLER_LABELS)
    else if p.stage == NON_GARBLER_LABELS then q.(stage := NON_GARBLER_BOOLS)
    else if p.stage == GARBLER_LABELS || p.stage == NON_GARBLER_BOOLS then
      q.(stage := Result(p.garbler), checkInProgress := true)
    else
      q.(round := p.round + 1, stage := FirstStage(plan, p.garbler, p.round + 1), checkInProgress := false,
         readyToRequest := true, verdicts := p.verdicts + [m.Verdict? && m.equal])
  }

  // ---- The checker ----

  datatype Checker = Checker(round: nat, stage: Channel, inside: bool, exited: bool,
                             garblerRequest: Message, nonGarblerRequest: Message,
                             garblerLabels: Message, labels: Message, bools: Message, left: Ledger)

  function StartChecker(): Checker {
    Checker(0, GARBLER_WANTS, false, false, Stale, Stale, Stale, Stale, Stale, EMPTY_LEDGER)
  }

  /** The equality check on what has been collected in this round. */
  function Conclude(plan: Plan, c: Checker): Message {
    match (c.garblerRequest, c.garblerLabels, c.labels, c.bools)
    case (Request(_, _, bits), Labels(w), Labels(v), Bools(b)) => Verdict(plan.check(c.round, bits, w, v, b))
    case _ => Stale
  }

  /** A verdict rests on a request, both label arrays and the bools, and is the check of exactly these. */
  lemma ConcludesOnCollected(plan: Plan, c: Checker)
    ensures Conclude(plan, c).Verdict? <==>
              c.garblerRequest.Request? && c.garblerLabels.Labels? && c.labels.Labels? && c.bools.Bools?
    ensures Conclude(plan, c).Verdict? ==>
              Conclude(plan, c).equal
              == plan.check(c.round, c.garblerRequest.bits, c.garblerLabels.labels, c.labels.labels, c.bools.bools)
  {}

  function EnterChecker(plan: Plan, c: Checker): Checker {
    var m := if c.stage >= GARBLER_RESULT then Conclude(plan, c) else Stale;
    c.(inside := true, left := Leave(c.left, c.stage, m))
  }

  predicate WantsReveal(m: Message) {
    m.Request? && m.want
  }

  function LeaveChecker(c: Checker, m: Message): Checker {
    var d := c.(inside := false);
    if c.stage == GARBLER_WANTS then d.(garblerRequest := m, stage := NON_GARBLER_WANTS)
    else if c.stage == NON_GARBLER_WANTS then
      if WantsReveal(c.garblerRequest) && WantsReveal(m) then d.(nonGarblerRequest := m, stage := GARBLER_LABELS)
      else d.(nonGarblerRequest := m, exited := true)
    else if c.stage == GARBLER_LABELS then d.(garblerLabels := m, stage := NON_GARBLER_LABELS)
    else if c.stage == NON_GARBLER_LABELS then d.(labels := m, stage := NON_GARBLER_BOOLS)
    else if c.stage == NON_GARBLER_BOOLS then d.(bools := m, stage := GARBLER_RESULT)
    else if c.stage == GARBLER_RESULT then d.(stage := NON_GARBLER_RESULT)
    else d.(round := c.round + 1, stage := GARBLER_WANTS)
  }

  // ---- The three together ----

  datatype Who = Garbler | NonGarbler | EqChecker

  datatype System = System(g: DualEx, n: DualEx, c: Checker)

  datatype Event = Enter(who: Who) | Exit(who: Who)

  /** What the partner of a channel has left there. */
  function PartnerLeft(s: System, who: Who, ch: Channel): seq<Message> {
    if ch == REVEALED_VALUE then (if who == Garbler then s.n.left else s.g.left)[ch]
    else if who != EqChecker then s.c.left[ch]
    else if Uses(true, ch) then s.g.left[ch]
    else s.n.left[ch]
  }

  predicate Running(p: DualEx) {
    !p.stopped && !p.refused
  }

  predicate Enabled(s: System, e: Event) {
    match e
    case Enter(Garbler) => Running(s.g) && !s.g.inside
    case Enter(NonGarbler) => Running(s.n) && !s.n.inside
    case Enter(EqChecker) => !s.c.exited && !s.c.inside
    case Exit(Garbler) => s.g.inside && |s.g.left[s.g.stage]| <= |PartnerLeft(s, Garbler, s.g.stage)|
    case Exit(NonGarbler) => s.n.inside && |s.n.left[s.n.stage]| <= |PartnerLeft(s, NonGarbler, s.n.stage)|
    case Exit(EqChecker) => s.c.inside && |s.c.left[s.c.stage]| <= |PartnerLeft(s, EqChecker, s.c.stage)|
  }

  /** The message a process finds on completing its latest swap. */
  function Found(mine: seq<Message>, partner: seq<Message>): Message {
    if 0 < |mine| <= |partner| then partner[|mine| - 1] else Stale
  }

  function Next(plan: Plan, s: System, e: Event): System
    requires Enabled(s, e)
  {
    match e
    case Enter(Garbler) => s.(g := EnterSwap(plan, s.g))
    case Enter(NonGarbler) => s.(n := EnterSwap(plan, s.n))
    case Enter(EqChecker) => s.(c := EnterChecker(plan, s.c))
    case Exit(Garbler) =>
      s.(g := LeaveSwap(plan, s.g, Found(s.g.left[s.g.stage], PartnerLeft(s, Garbler, s.g.stage))))
    case Exit(NonGarbler) =>
      s.(n := LeaveSwap(plan, s.n, Found(s.n.left[s.n.stage], PartnerLeft(s, NonGarbler, s.n.stage))))
    case Exit(EqChecker) =>
      s.(c := LeaveChecker(s.c, Found(s.c.left[s.c.stage], PartnerLeft(s, EqChecker, s.c.stage))))
  }

  ghost predicate IsRun(plan: Plan, run: seq<System>, events: seq<Event>) {
    && |run| == |events| + 1
    && run[0] == System(Start(plan, true), Start(plan, false), StartChecker())
    && forall i :: 0 <= i < |events| ==> Enabled(run[i], events[i]) && run[i + 1] == Next(plan, run[i], events[i])
  }

  ghost predicate Reachable(plan: Plan, s: System) {
    exists run: seq<System>, events: seq<Event> :: IsRun(plan, run, events) && run[|events|] == s
  }

  // ---- The invariant ----

  /** Has the process already entered this channel in its current round? */
  predicate Passed(stage: Channel, inside: bool, finished: bool, ch: Channel) {
    ch < stage || (ch == stage && (inside || finished))
  }

  function Times(round: nat, passed: bool): nat {
    if passed then round + 1 else round
  }

  predicate Uses(garbler: bool, ch: Channel) {
    if ch == REVEALED_VALUE then true
    else if ch == GARBLER_WANTS || ch == GARBLER_LABELS || ch == GARBLER_RESULT then garbler
    else !garbler
  }

  /** Position and flags agree; in particular no guard has refused. */
  predicate Position(plan: Plan, p: DualEx) {
    && !p.refused && p.round <= plan.Size() && Uses(p.garbler, p.stage)
    && (p.stage == REVEALED_VALUE ==> plan.Visible(p.round))
    && (p.round == plan.Size() ==> p.stage == Wants(p.garbler))
    && (p.stopped ==> p.round == plan.Size() && !p.inside)
    && (p.readyToRequest <==> !p.stopped && (p.stage == REVEALED_VALUE || (p.stage == Wants(p.garbler) && !p.inside)))
    && (p.checkInProgress <==> p.stage == Result(p.garbler))
  }

  /** How often a DualEx process has entered a channel. */
  function Entered(plan: Plan, p: DualEx, ch: Channel): nat
    requires Position(plan, p)
  {
    var passed := Passed(p.stage, p.inside, p.stopped, ch);
    if ch == REVEALED_VALUE then |plan.Outputs(p.round)| + (if plan.Visible(p.round) && passed then 1 else 0)
    else Times(p.round, passed)
  }

  ghost predicate Counts(plan: Plan, p: DualEx)
    requires Position(plan, p)
  {
    forall ch: Channel :: Uses(p.garbler, ch) ==> |p.left[ch]| == Entered(plan, p, ch)
  }

  /** What the process has handed over is what the plan says. */
  ghost predicate HandedOver(plan: Plan, p: DualEx) {
    && (forall ch: Channel, i :: Uses(p.garbler, ch) && ch != REVEALED_VALUE && 0 <= i < |p.left[ch]|
                        ==> p.left[ch][i] == MessageAt(plan, p.garbler, ch, i))
    && (!p.garbler ==> |p.left[REVEALED_VALUE]| == |p.outputs|
                       && forall i :: 0 <= i < |p.outputs| ==> p.left[REVEALED_VALUE][i] == Value(p.outputs[i]))
  }

  /** What the process has received is what the plan says. */
  ghost predicate Received(plan: Plan, p: DualEx)
    requires Position(plan, p)
  {
    && |p.verdicts| == p.round
    && (forall i :: 0 <= i < p.round ==> p.verdicts[i] == plan.VerdictOf(i))
    && p.outputs == plan.Outputs(p.round) +
         (if plan.Visible(p.round) && Passed(p.stage, p.inside && !p.garbler, false, REVEALED_VALUE)
          then [plan.rounds[p.round].value] else [])
  }

  ghost predicate DualExInv(plan: Plan, p: DualEx) {
    Position(plan, p) && Counts(plan, p) && HandedOver(plan, p) && Received(plan, p)
  }

  ghost predicate CheckerControl(plan: Plan, c: Checker) {
    && c.round <= plan.Size() && c.stage != REVEALED_VALUE
    && (c.round == plan.Size() ==> c.stage <= NON_GARBLER_WANTS)
    && (c.exited ==> c.round == plan.Size() && c.stage == NON_GARBLER_WANTS && !c.inside)
    && (forall ch: Channel :: ch != REVEALED_VALUE ==>
          |c.left[ch]| == Times(c.round, Passed(c.stage, c.inside, c.exited, ch)))
  }

  ghost predicate CheckerData(plan: Plan, c: Checker)
    requires CheckerControl(plan, c)
  {
    && (c.stage > 1 ==> c.garblerRequest == plan.RequestOf(c.round))
    && (c.stage > 3 ==> c.garblerLabels == MessageAt(plan, true, GARBLER_LABELS, c.round))
    && (c.stage > 4 ==> c.labels == MessageAt(plan, false, NON_GARBLER_LABELS, c.round))
    && (c.stage > 5 ==> c.bools == MessageAt(plan, false, NON_GARBLER_BOOLS, c.round))
    && (forall ch: Channel, i :: GARBLER_RESULT <= ch < 8 && 0 <= i < |c.left[ch]|
                        ==> c.left[ch][i] == Verdict(plan.VerdictOf(i)))
  }

  function Completed(left: Ledger, stage: Channel, inside: bool, ch: Channel): int {
    |left[ch]| - (if inside && stage == ch then 1 else 0)
  }

  /** Neither partner of a channel has completed a swap there that the other has not entered. */
  ghost predicate Met(s: System, ch: Channel) {
    if ch == REVEALED_VALUE then
      && Completed(s.g.left, s.g.stage, s.g.inside, ch) <= |s.n.left[ch]|
      && Completed(s.n.left, s.n.stage, s.n.inside, ch) <= |s.g.left[ch]|
    else if Uses(true, ch) then
      && Completed(s.g.left, s.g.stage, s.g.inside, ch) <= |s.c.left[ch]|
      && Completed(s.c.left, s.c.stage, s.c.inside, ch) <= |s.g.left[ch]|
    else
      && Completed(s.n.left, s.n.stage, s.n.inside, ch) <= |s.c.left[ch]|
      && Completed(s.c.left, s.c.stage, s.c.inside, ch) <= |s.n.left[ch]|
  }

  ghost predicate Rendezvous(s: System) {
    forall ch: Channel :: Met(s, ch)
  }

  ghost predicate Inv(plan: Plan, s: System) {
    && s.g.garbler && !s.n.garbler
    && DualExInv(plan, s.g) && DualExInv(plan, s.n)
    && CheckerControl(plan, s.c) && CheckerData(plan, s.c)
    && Rendezvous(s)
  }

  lemma MetAtStart(plan: Plan)
    ensures var s := System(Start(plan, true), Start(plan, false), StartChecker());
            Rendezvous(s) && HandedOver(plan, s.g) && HandedOver(plan, s.n)
  {
    hide Plan.Outputs;
  }

  lemma InvStart(plan: Plan)
    ensures Inv(plan, System(Start(plan, true), Start(plan, false), StartChecker()))
  {
    hide Rendezvous, HandedOver;
    assert plan.Outputs(0) == [];
    MetAtStart(plan);
  }

  // ---- Each process keeps its part ----

  lemma EnterKeepsPosition(plan: Plan, p: DualEx)
    requires Position(plan, p) && Running(p) && !p.inside
    ensures var q := EnterSwap(plan, p);
            && Position(plan, q) && q.inside
            && q.left == Leave(p.left, p.stage, MessageAt(plan, p.garbler, p.stage, p.round))
            && q == p.(inside := true, left := q.left, readyToRequest := q.readyToRequest, outputs := q.outputs)
  {}

  lemma EnterKeepsCounts(plan: Plan, p: DualEx)
    requires Position(plan, p) && Counts(plan, p) && Running(p) && !p.inside && Position(plan, EnterSwap(plan, p))
    ensures Counts(plan, EnterSwap(plan, p))
  {
    EnterKeepsPosition(plan, p);
    var q := EnterSwap(plan, p);
    hide EnterSwap, Position, MessageAt;
    forall ch: Channel | Uses(p.garbler, ch)
      ensures |q.left[ch]| == Entered(plan, q, ch)
    {
      assert |p.left[ch]| == Entered(plan, p, ch);
    }
  }

  lemma EnterKeepsHandedOver(plan: Plan, p: DualEx)
    requires Position(plan, p) && Counts(plan, p) && HandedOver(plan, p) && Running(p) && !p.inside
    ensures HandedOver(plan, EnterSwap(plan, p))
  {
    assert |p.left[p.stage]| == Entered(plan, p, p.stage);
    assert p.stage != REVEALED_VALUE ==> |p.left[p.stage]| == p.round;
    hide Entered, Counts;
  }

  lemma EnterKeepsInv(plan: Plan, p: DualEx)
    requires DualExInv(plan, p) && Running(p) && !p.inside
    ensures var q := EnterSwap(plan, p); q.garbler == p.garbler && DualExInv(plan, q) && q.inside
  {
    EnterKeepsPosition(plan, p);
    EnterKeepsCounts(plan, p);
    EnterKeepsHandedOver(plan, p);
    hide Counts, HandedOver;
  }

  /** Leaving a swap moves on to the next channel without changing how often any channel was entered. */
  lemma LeaveKeepsCount(plan: Plan, p: DualEx, m: Message, ch: Channel)
    requires Position(plan, p) && p.inside && Uses(p.garbler, ch)
    ensures Position(plan, LeaveSwap(plan, p, m))
    ensures Entered(plan, LeaveSwap(plan, p, m), ch) == Entered(plan, p, ch)
  {}

  /** The message a DualEx process expects on leaving the swap it is in. */
  ghost predicate Expected(plan: Plan, p: DualEx, m: Message) {
    && (p.stage == REVEALED_VALUE && p.garbler && p.round < plan.Size() ==> m == Value(plan.rounds[p.round].value))
    && (p.stage == Result(p.garbler) ==> m == Verdict(plan.VerdictOf(p.round)))
  }

  lemma LeaveKeepsCounts(plan: Plan, p: DualEx, m: Message)
    requires Position(plan, p) && Counts(plan, p) && p.inside
    ensures var q := LeaveSwap(plan, p, m);
            q.left == p.left && q.garbler == p.garbler && Position(plan, q) && Counts(plan, q)
  {
    var q := LeaveSwap(plan, p, m);
    forall ch: Channel | Uses(p.garbler, ch)
      ensures Position(plan, q) && Entered(plan, q, ch) == Entered(plan, p, ch)
    {
      LeaveKeepsCount(plan, p, m, ch);
    }
    hide Entered;
  }

  lemma LeaveKeepsReceived(plan: Plan, p: DualEx, m: Message)
    requires Position(plan, p) && p.inside && Received(plan, p) && Expected(plan, p, m)
    requires Position(plan, LeaveSwap(plan, p, m))
    ensures Received(plan, LeaveSwap(plan, p, m))
  {
    if p.stage == Result(p.garbler) {
      assert plan.Outputs(p.round + 1)
          == plan.Outputs(p.round) + (if plan.Visible(p.round) then [plan.rounds[p.round].value] else []);
    }
  }

  lemma LeaveKeepsInv(plan: Plan, p: DualEx, m: Message)
    requires DualExInv(plan, p) && p.inside && Expected(plan, p, m)
    ensures var q := LeaveSwap(plan, p, m); q.garbler == p.garbler && DualExInv(plan, q)
  {
    LeaveKeepsCounts(plan, p, m);
    LeaveKeepsReceived(plan, p, m);
    assert HandedOver(plan, LeaveSwap(plan, p, m)) by {
      hide Counts, Received, MessageAt;
    }
  }

  lemma EnterKeepsChecker(plan: Plan, c: Checker)
    requires CheckerControl(plan, c) && CheckerData(plan, c) && !c.exited && !c.inside
    ensures var d := EnterChecker(plan, c); CheckerControl(plan, d) && CheckerData(plan, d)
  {}

  /** The message the checker expects on leaving the swap it is in. */
  ghost predicate CheckerExpected(plan: Plan, c: Checker, m: Message) {
    c.stage < 6 ==> m == MessageAt(plan, Uses(true, c.stage), c.stage, c.round)
  }

  lemma LeaveKeepsChecker(plan: Plan, c: Checker, m: Message)
    requires CheckerControl(plan, c) && CheckerData(plan, c) && c.inside && CheckerExpected(plan, c, m)
    ensures var d := LeaveChecker(c, m); CheckerControl(plan, d) && CheckerData(plan, d)
  {}

  // ---- What each process finds when it leaves ----

  lemma GarblerFinds(plan: Plan, s: System)
    requires Inv(plan, s) && Enabled(s, Exit(Garbler))
    ensures Expected(plan, s.g, Found(s.g.left[s.g.stage], PartnerLeft(s, Garbler, s.g.stage)))
  {
    var p := s.g;
    assert |p.left[p.stage]| == Entered(plan, p, p.stage);
    if p.stage == REVEALED_VALUE {
      GarblerReveals(plan, s);
    } else {
      hide HandedOver, Received, Counts;
    }
  }

  /** The garbler's reveal of a round meets the non-garbler's of the same round. */
  lemma GarblerReveals(plan: Plan, s: System)
    requires Inv(plan, s) && Enabled(s, Exit(Garbler)) && s.g.stage == REVEALED_VALUE
    ensures Found(s.g.left[REVEALED_VALUE], s.n.left[REVEALED_VALUE]) == Value(plan.rounds[s.g.round].value)
  {
    var r, q := s.g.round, s.n.round;
    assert |s.g.left[REVEALED_VALUE]| == |plan.Outputs(r)| + 1;
    OutputsPrefix(plan, if q < r then q + 1 else r, r);
    OutputsPrefix(plan, r + 1, if q > r then q else r + 1);
    assert plan.Outputs(r + 1) <= s.n.outputs;
  }

  lemma {:induction false} OutputsPrefix(plan: Plan, q: nat, r: nat)
    requires q <= r <= plan.Size()
    ensures plan.Outputs(q) <= plan.Outputs(r)
    decreases r
  {
    if q < r {
      OutputsPrefix(plan, q, r - 1);
    }
  }

  lemma NonGarblerFinds(plan: Plan, s: System)
    requires Inv(plan, s) && Enabled(s, Exit(NonGarbler))
    ensures Expected(plan, s.n, Found(s.n.left[s.n.stage], PartnerLeft(s, NonGarbler, s.n.stage)))
  {}

  lemma CheckerFinds(plan: Plan, s: System)
    requires Inv(plan, s) && Enabled(s, Exit(EqChecker))
    ensures CheckerExpected(plan, s.c, Found(s.c.left[s.c.stage], PartnerLeft(s, EqChecker, s.c.stage)))
  {}

  /** Entering completes nothing; leaving completes the swap in hand; nothing left is ever taken back. */
  lemma EnterCompletes(plan: Plan, p: DualEx, ch: Channel)
    requires Position(plan, p) && Running(p) && !p.inside
    ensures var q := EnterSwap(plan, p);
            && |q.left[ch]| >= |p.left[ch]|
            && Completed(q.left, q.stage, q.inside, ch) == Completed(p.left, p.stage, p.inside, ch)
  {
    EnterKeepsPosition(plan, p);
    hide EnterSwap;
  }

  lemma LeaveCompletes(plan: Plan, p: DualEx, m: Message, ch: Channel)
    requires Position(plan, p) && p.inside
    ensures var q := LeaveSwap(plan, p, m);
            && q.left == p.left
            && Completed(q.left, q.stage, q.inside, ch)
            == (if ch == p.stage then |p.left[ch]| else Completed(p.left, p.stage, p.inside, ch))
  {}

  lemma EnterCompletesChecker(plan: Plan, c: Checker, ch: Channel)
    requires !c.inside
    ensures var d := EnterChecker(plan, c);
            && |d.left[ch]| >= |c.left[ch]|
            && Completed(d.left, d.stage, d.inside, ch) == Completed(c.left, c.stage, c.inside, ch)
  {}

  lemma LeaveCompletesChecker(c: Checker, m: Message, ch: Channel)
    requires c.inside
    ensures var d := LeaveChecker(c, m);
            && d.left == c.left
            && Completed(d.left, d.stage, d.inside, ch)
            == (if ch == c.stage then |c.left[ch]| else Completed(c.left, c.stage, c.inside, ch))
  {}

  lemma RendezvousEnter(plan: Plan, s: System, who: Who)
    requires Inv(plan, s) && Enabled(s, Enter(who))
    ensures Rendezvous(Next(plan, s, Enter(who)))
  {
    forall ch: Channel
      ensures Met(Next(plan, s, Enter(who)), ch)
    {
      assert Met(s, ch);
      match who {
        case Garbler => EnterCompletes(plan, s.g, ch);
        case NonGarbler => EnterCompletes(plan, s.n, ch);
        case EqChecker => EnterCompletesChecker(plan, s.c, ch);
      }
      hide Completed, EnterSwap, EnterChecker, DualExInv, CheckerControl, CheckerData;
    }
  }

  lemma RendezvousExit(plan: Plan, s: System, who: Who)
    requires Inv(plan, s) && Enabled(s, Exit(who))
    ensures Rendezvous(Next(plan, s, Exit(who)))
  {
    forall ch: Channel
      ensures Met(Next(plan, s, Exit(who)), ch)
    {
      assert Met(s, ch);
      match who {
        case Garbler => LeaveCompletes(plan, s.g, Found(s.g.left[s.g.stage], PartnerLeft(s, Garbler, s.g.stage)), ch);
        case NonGarbler =>
        LeaveCompletes(plan, s.n, Found(s.n.left[s.n.stage], PartnerLeft(s, NonGarbler, s.n.stage)), ch);
        case EqChecker =>
        LeaveCompletesChecker(s.c, Found(s.c.left[s.c.stage], PartnerLeft(s, EqChecker, s.c.stage)), ch);
      }
      hide Completed, LeaveSwap, LeaveChecker, Found, DualExInv, CheckerData;
    }
  }

  lemma InvNext(plan: Plan, s: System, e: Event)
    requires Inv(plan, s) && Enabled(s, e)
    ensures Inv(plan, Next(plan, s, e))
  {
    match e {
      case Enter(who) =>
        RendezvousEnter(plan, s, who);
        match who {
          case Garbler => EnterKeepsInv(plan, s.g);
          case NonGarbler => EnterKeepsInv(plan, s.n);
          case EqChecker => EnterKeepsChecker(plan, s.c);
        }
      case Exit(who) =>
        RendezvousExit(plan, s, who);
        match who {
          case Garbler => GarblerFinds(plan, s);
            LeaveKeepsInv(plan, s.g, Found(s.g.left[s.g.stage], PartnerLeft(s, Garbler, s.g.stage)));
          case NonGarbler => NonGarblerFinds(plan, s);
            LeaveKeepsInv(plan, s.n, Found(s.n.left[s.n.stage], PartnerLeft(s, NonGarbler, s.n.stage)));
          case EqChecker => CheckerFinds(plan, s);
            LeaveKeepsChecker(plan, s.c, Found(s.c.left[s.c.stage], PartnerLeft(s, EqChecker, s.c.stage)));
        }
    }
    hide DualExInv, CheckerControl, CheckerData, Rendezvous, EnterSwap, LeaveSwap, EnterChecker, LeaveChecker, Found,
        PartnerLeft;
  }

  lemma {:induction false} InvAlongRun(plan: Plan, run: seq<System>, events: seq<Event>, i: nat)
    requires IsRun(plan, run, events) && i < |run|
    ensures Inv(plan, run[i])
  {
    hide Inv, Enabled, Next, Start, StartChecker;
    if i == 0 {
      InvStart(plan);
    } else {
      InvAlongRun(plan, run, events, i - 1);
      InvNext(plan, run[i - 1], events[i - 1]);
    }
  }

  lemma InvReachable(plan: Plan, s: System)
    requires Reachable(plan, s)
    ensures Inv(plan, s)
  {
    var run: seq<System>, events: seq<Event> :| IsRun(plan, run, events) && run[|events|] == s;
    InvAlongRun(plan, run, events, |events|);
  }

  // ---- What the protocol promises, over every interleaving of the three processes ----

  /** Each verdict collected in round i is the one computed from what was handed over in round i. */
  lemma VerdictsCorrect(plan: Plan, s: System, i: nat)
    requires Reachable(plan, s)
    ensures i < |s.g.verdicts| ==> i < plan.Size() && s.g.verdicts[i] == plan.VerdictOf(i)
    ensures i < |s.n.verdicts| ==> i < plan.Size() && s.n.verdicts[i] == plan.VerdictOf(i)
  {
    InvReachable(plan, s);
  }

  /** No guard refuses, and no process has requested again before collecting its verdict. */
  lemma RequestsWaitForVerdicts(plan: Plan, s: System)
    requires Reachable(plan, s)
    ensures !s.g.refused && |s.g.verdicts| <= |s.g.left[GARBLER_WANTS]| <= |s.g.verdicts| + 1
    ensures !s.n.refused && |s.n.verdicts| <= |s.n.left[NON_GARBLER_WANTS]| <= |s.n.verdicts| + 1
  {
    InvReachable(plan, s);
    assert Uses(true, GARBLER_WANTS) && Uses(false, NON_GARBLER_WANTS);
  }

  /** What the garbler outputs is what the non-garbler decoded, reveal by reveal. */
  lemma RevealedValuesAgree(plan: Plan, s: System)
    requires Reachable(plan, s)
    ensures s.g.outputs <= s.n.outputs || s.n.outputs <= s.g.outputs
    ensures s.g.stopped ==> s.g.outputs == plan.Outputs(plan.Size())
    ensures s.n.stopped ==> s.n.outputs == plan.Outputs(plan.Size())
  {
    InvReachable(plan, s);
    OutputsWithin(plan, s.g);
    OutputsWithin(plan, s.n);
    hide DualExInv;
  }

  lemma OutputsWithin(plan: Plan, p: DualEx)
    requires DualExInv(plan, p)
    ensures p.outputs <= plan.Outputs(plan.Size())
    ensures p.stopped ==> p.outputs == plan.Outputs(plan.Size())
  {
    if p.round < plan.Size() {
      OutputsPrefix(plan, p.round + 1, plan.Size());
    }
  }

  function At(round: nat, stage: Channel): nat {
    8 * round + stage
  }

  /** A DualEx process blocked on the checker is ahead of it. */
  lemma BlockedOnChecker(plan: Plan, p: DualEx, c: Checker)
    requires Position(plan, p) && Counts(plan, p) && CheckerControl(plan, c)
    requires p.inside && p.stage != REVEALED_VALUE && |c.left[p.stage]| < |p.left[p.stage]|
    ensures !c.exited && (!c.inside || At(c.round, c.stage) < At(p.round, p.stage))
  {
    assert |p.left[p.stage]| == Entered(plan, p, p.stage);
  }

  /** A checker blocked on a DualEx process is ahead of it. */
  lemma CheckerBlocked(plan: Plan, p: DualEx, c: Checker)
    requires Position(plan, p) && Counts(plan, p) && CheckerControl(plan, c)
    requires c.inside && Uses(p.garbler, c.stage) && |p.left[c.stage]| < |c.left[c.stage]|
    ensures !p.stopped && (!p.inside || At(p.round, p.stage) < At(c.round, c.stage))
  {
    assert |p.left[c.stage]| == Entered(plan, p, c.stage);
  }

  /** A process blocked handing over the revealed value is ahead of the other. */
  lemma BlockedOnReveal(plan: Plan, p: DualEx, q: DualEx)
    requires Position(plan, p) && Counts(plan, p) && Position(plan, q) && Counts(plan, q)
    requires p.inside && p.stage == REVEALED_VALUE && |q.left[REVEALED_VALUE]| < |p.left[REVEALED_VALUE]|
    ensures !q.stopped && (!q.inside || At(q.round, q.stage) < At(p.round, p.stage))
  {
    assert |p.left[REVEALED_VALUE]| == Entered(plan, p, REVEALED_VALUE) == |plan.Outputs(p.round)| + 1;
    assert |q.left[REVEALED_VALUE]| == Entered(plan, q, REVEALED_VALUE);
    OutputsPrefix(plan, p.round + 1, if q.round > p.round then q.round else p.round + 1);
  }

  /** When no process can move, both DualEx processes have stopped with every verdict, and the checker has exited. */
  lemma RestsOnlyWhenDone(plan: Plan, s: System)
    requires Reachable(plan, s) && forall e: Event :: !Enabled(s, e)
    ensures s.g.stopped && s.n.stopped && s.c.exited
    ensures |s.g.verdicts| == |s.n.verdicts| == plan.Size()
  {
    InvReachable(plan, s);
    assert !Enabled(s, Enter(Garbler)) && !Enabled(s, Enter(NonGarbler)) && !Enabled(s, Enter(EqChecker));
    assert !Enabled(s, Exit(Garbler)) && !Enabled(s, Exit(NonGarbler)) && !Enabled(s, Exit(EqChecker));
    if s.g.inside {
      if s.g.stage == REVEALED_VALUE { BlockedOnReveal(plan, s.g, s.n); } else { BlockedOnChecker(plan, s.g, s.c); }
    }
    if s.n.inside {
      if s.n.stage == REVEALED_VALUE { BlockedOnReveal(plan, s.n, s.g); } else { BlockedOnChecker(plan, s.n, s.c); }
    }
    if s.c.inside {
      if Uses(true, s.c.stage) { CheckerBlocked(plan, s.g, s.c); } else { CheckerBlocked(plan, s.n, s.c); }
    }
    hide Counts, HandedOver, CheckerData, Rendezvous;
  }

  function Clock(round: nat, stage: Channel, inside: bool, finished: bool): nat {
    16 * round + 2 * stage + (if inside then 1 else 0) + (if finished then 2 else 0)
  }

  function Elapsed(s: System): nat {
    Clock(s.g.round, s.g.stage, s.g.inside, s.g.stopped) + Clock(s.n.round, s.n.stage, s.n.inside, s.n.stopped)
    + Clock(s.c.round, s.c.stage, s.c.inside, s.c.exited)
  }

  lemma ElapsedBounded(plan: Plan, s: System)
    requires Inv(plan, s)
    ensures Elapsed(s) <= 48 * plan.Size() + 18
  {
    hide Counts, HandedOver, Received, CheckerData, Rendezvous;
  }

  lemma DualExTicks(plan: Plan, p: DualEx, m: Message)
    requires Position(plan, p) && Running(p)
    ensures var q := if p.inside then LeaveSwap(plan, p, m) else EnterSwap(plan, p);
            Clock(q.round, q.stage, q.inside, q.stopped) > Clock(p.round, p.stage, p.inside, p.stopped)
  {
    hide MessageAt, Leave;
  }

  lemma CheckerTicks(plan: Plan, c: Checker, m: Message)
    requires c.stage != REVEALED_VALUE && !c.exited
    ensures var d := if c.inside then LeaveChecker(c, m) else EnterChecker(plan, c);
            Clock(d.round, d.stage, d.inside, d.exited) > Clock(c.round, c.stage, c.inside, c.exited)
  {
    hide Conclude, Leave;
  }

  /** Every event moves time on and time is bounded by the number of rounds, so every run comes to rest. */
  lemma RunsAreFinite(plan: Plan, s: System, e: Event)
    requires Reachable(plan, s) && Enabled(s, e)
    ensures Elapsed(s) < Elapsed(Next(plan, s, e)) <= 48 * plan.Size() + 18
  {
    InvReachable(plan, s);
    InvNext(plan, s, e);
    ElapsedBounded(plan, Next(plan, s, e));
    match e.who {
      case Garbler => DualExTicks(plan, s.g, Found(s.g.left[s.g.stage], PartnerLeft(s, Garbler, s.g.stage)));
      case NonGarbler => DualExTicks(plan, s.n, Found(s.n.left[s.n.stage], PartnerLeft(s, NonGarbler, s.n.stage)));
      case EqChecker => CheckerTicks(plan, s.c, Found(s.c.left[s.c.stage], PartnerLeft(s, EqChecker, s.c.stage)));
    }
    hide Counts, HandedOver, Received, CheckerData, Rendezvous, Found, PartnerLeft, EnterSwap, LeaveSwap,
         EnterChecker, LeaveChecker, Clock, Reachable;
  }
}
