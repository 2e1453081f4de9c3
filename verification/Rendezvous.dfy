/**
 A swap as a meeting of two sides: each leaves something on entering, and may leave the meeting once its
 partner has entered as often as itself.  Every run of the mutex dance projects to meetings, and the
 reveal protocol moves on each of its channels by meetings only.
 */
module Rendezvous {
  import S = SwappableRam
  import R = Revealer

  /** What a side has left, meeting by meeting, and whether it is in one. */
  datatype Visitor<T> = Visitor(left: seq<T>, inside: bool)

  datatype Meetings<T> = Meetings(t: Visitor<T>, f: Visitor<T>) {
    function Side(side: bool): Visitor<T> {
      if side then t else f
    }

    function WithSide(side: bool, v: Visitor<T>): Meetings<T> {
      if side then Meetings(v, f) else Meetings(t, v)
    }

    /** What a side finds on leaving its latest meeting. */
    function Delivered(side: bool): T
      requires 0 < |Side(side).left| <= |Side(!side).left|
    {
      Side(!side).left[|Side(side).left| - 1]
    }
  }

  datatype Event<T> = Enter(side: bool, value: T) | Exit(side: bool)

  predicate Enabled<T>(m: Meetings<T>, e: Event<T>) {
    match e
    case Enter(side, _) => !m.Side(side).inside
    case Exit(side) => m.Side(side).inside && 0 < |m.Side(side).left| <= |m.Side(!side).left|
  }

  function Next<T>(m: Meetings<T>, e: Event<T>): Meetings<T> {
    match e
    case Enter(side, value) => m.WithSide(side, Visitor(m.Side(side).left + [value], true))
    case Exit(side) => m.WithSide(side, m.Side(side).(inside := false))
  }

  ghost predicate IsRun<T(!new)>(run: seq<Meetings<T>>, events: seq<Event<T>>) {
    && |run| == |events| + 1
    && run[0] == Meetings(Visitor([], false), Visitor([], false))
    && forall i :: 0 <= i < |events| ==> Enabled(run[i], events[i]) && run[i + 1] == Next(run[i], events[i])
  }

  // ---- The mutex dance ----

  function VisitorOf<T>(p: S.Process<T>): Visitor<T> {
    Visitor(p.left, p.pc != S.Outside)
  }

  function MeetingsOf<T>(s: S.System<T>): Meetings<T> {
    Meetings(VisitorOf(s.t), VisitorOf(s.f))
  }

  /** The meeting event an atomic step is, if it is one. */
  function Projected<T>(s: S.System<T>, e: S.Event<T>): seq<Event<T>>
    requires S.Enabled(s, e)
  {
    match e
    case Write(_, _) => []
    case Call(side) => [Enter(side, s.shared.Patch(s.Side(side).swapped))]
    case Step(side) => if s.Side(side).pc == S.Acquired then [Exit(side)] else []
  }

  /** The last step of a swap may be taken only once the partner has entered as often, and finds what it left. */
  lemma LastStepMeets<T(!new)>(s: S.System<T>, side: bool)
    requires S.Reachable(s) && s.Side(side).pc == S.Acquired
    ensures var mine, theirs := s.Side(side).left, s.Side(!side).left;
            0 < |mine| <= |theirs|
            && S.Next(s, S.Step(side)).Side(side).found == s.Side(side).found + [theirs[|mine| - 1]]
    ensures Enabled(MeetingsOf(s), Exit(side))
    ensures S.Next(s, S.Step(side)).Side(side).found == s.Side(side).found + [MeetingsOf(s).Delivered(side)]
    ensures MeetingsOf(S.Next(s, S.Step(side))) == Next(MeetingsOf(s), Exit(side))
  {
    S.InvReachable(s);
    S.FinishStep(s, side);
    hide S.MutexInv, S.Reachable, S.HomePatch, S.Holds;
    assert S.SideInv(s, side) && S.SideInv(s, !side);
    assert S.SideInv(S.Next(s, S.Step(side)), side);
  }

  /** Writes and inner steps leave the meetings alone; the call enters one, and the last step leaves it. */
  lemma StepMeets<T(!new)>(s: S.System<T>, e: S.Event<T>)
    requires S.Reachable(s) && S.Enabled(s, e)
    ensures Projected(s, e) == [] ==> MeetingsOf(S.Next(s, e)) == MeetingsOf(s)
    ensures Projected(s, e) != [] ==>
              && Enabled(MeetingsOf(s), Projected(s, e)[0])
              && MeetingsOf(S.Next(s, e)) == Next(MeetingsOf(s), Projected(s, e)[0])
  {
    hide S.Reachable;
    if e.Step? && s.Side(e.side).pc == S.Acquired {
      LastStepMeets(s, e.side);
    }
  }

  /** The same, step by step along a run. */
  lemma {:induction false} RunMeets<T(!new)>(run: seq<S.System<T>>, steps: seq<S.Event<T>>, n: nat)
    returns (meetings: seq<Meetings<T>>, events: seq<Event<T>>)
    requires S.IsRun(run, steps) && n <= |steps|
    ensures IsRun(meetings, events) && meetings[|events|] == MeetingsOf(run[n])
  {
    hide S.Next, S.Enabled, MeetingsOf, Projected, Next, Enabled;
    if n == 0 {
      meetings, events := [MeetingsOf(run[0])], [];
      StartMeets(run[0].shared.a, run[0].shared.b);
    } else {
      meetings, events := RunMeets(run, steps, n - 1);
      S.RunReaches(run, steps, n - 1);
      StepMeets(run[n - 1], steps[n - 1]);
      var next := Projected(run[n - 1], steps[n - 1]);
      if next != [] {
        meetings, events := meetings + [MeetingsOf(run[n])], events + [next[0]];
      }
    }
  }

  lemma StartMeets<T>(a: T, b: T)
    ensures MeetingsOf(S.Initial(a, b)) == Meetings(Visitor([], false), Visitor([], false))
  {}

  /** Every run of the mutex dance is, seen from outside swap(), a run of meetings. */
  lemma DanceIsMeetings<T(!new)>(s: S.System<T>) returns (meetings: seq<Meetings<T>>, events: seq<Event<T>>)
    requires S.Reachable(s)
    ensures IsRun(meetings, events) && meetings[|events|] == MeetingsOf(s)
  {
    var run: seq<S.System<T>>, steps: seq<S.Event<T>> :| S.IsRun(run, steps) && run[|steps|] == s;
    hide S.IsRun, IsRun;
    meetings, events := RunMeets(run, steps, |steps|);
  }

  /** A meeting that may be left is left: one of the two processes can take its next step. */
  lemma MeetingCompletes<T(!new)>(s: S.System<T>, side: bool)
    requires S.Reachable(s) && Enabled(MeetingsOf(s), Exit(side))
    ensures S.CanAdvance(s.Side(side), s.shared) || S.CanAdvance(s.Side(!side), s.shared)
  {
    S.InvReachable(s);
    assert S.SideInv(s, side) && S.SideInv(s, !side);
    S.SwapNeverStuck(s, side);
  }

  // ---- The channels of the reveal protocol ----

  /** A channel's first side: the garbler on the revealed value, otherwise the process that talks to the checker. */
  function First(s: R.System, ch: R.Channel): Visitor<R.Message> {
    var p := if ch == R.REVEALED_VALUE || R.Uses(true, ch) then s.g else s.n;
    Visitor(p.left[ch], p.inside && p.stage == ch)
  }

  function Second(s: R.System, ch: R.Channel): Visitor<R.Message> {
    if ch == R.REVEALED_VALUE then Visitor(s.n.left[ch], s.n.inside && s.n.stage == ch)
    else Visitor(s.c.left[ch], s.c.inside && s.c.stage == ch)
  }

  function ChannelMeetings(s: R.System, ch: R.Channel): Meetings<R.Message> {
    Meetings(First(s, ch), Second(s, ch))
  }

  function StageOf(s: R.System, who: R.Who): R.Channel {
    match who
    case Garbler => s.g.stage
    case NonGarbler => s.n.stage
    case EqChecker => s.c.stage
  }

  /** Which side of its channel a process is. */
  predicate IsFirst(s: R.System, who: R.Who) {
    who == R.Garbler || (who == R.NonGarbler && s.n.stage != R.REVEALED_VALUE)
  }

  lemma ExitEnabled(plan: R.Plan, s: R.System, who: R.Who)
    requires R.Inv(plan, s) && R.Enabled(s, R.Exit(who))
    ensures Enabled(ChannelMeetings(s, StageOf(s, who)), Exit(IsFirst(s, who)))
  {
    hide R.Rendezvous, R.CheckerData, R.HandedOver, R.Received;
  }

  lemma LeaveSwapKeeps(plan: R.Plan, p: R.DualEx, m: R.Message)
    ensures R.LeaveSwap(plan, p, m).left == p.left && !R.LeaveSwap(plan, p, m).inside
  {
    LeaveSwapLeaves(plan, p, m);
    hide *;
    LeaveSwapLedger(plan, p, m);
  }

  lemma LeaveSwapLedger(plan: R.Plan, p: R.DualEx, m: R.Message)
    ensures R.LeaveSwap(plan, p, m).left == p.left
  {
    hide R.FirstStage, R.Plan.Visible, R.Plan.Size, R.Result, R.Wants;
  }

  lemma LeaveSwapLeaves(plan: R.Plan, p: R.DualEx, m: R.Message)
    ensures !R.LeaveSwap(plan, p, m).inside
  {
    hide R.FirstStage, R.Plan.Visible, R.Plan.Size, R.Result, R.Wants;
  }

  lemma LeaveCheckerKeeps(c: R.Checker, m: R.Message)
    ensures R.LeaveChecker(c, m).left == c.left && !R.LeaveChecker(c, m).inside
  {}

  lemma LeavingKeepsLedgers(plan: R.Plan, s: R.System, who: R.Who)
    requires R.Enabled(s, R.Exit(who))
    ensures var t := R.Next(plan, s, R.Exit(who));
            && t.g.left == s.g.left && t.n.left == s.n.left && t.c.left == s.c.left
            && (who != R.Garbler ==> t.g == s.g)
            && (who != R.NonGarbler ==> t.n == s.n)
            && (who != R.EqChecker ==> t.c == s.c)
            && (who == R.Garbler ==> !t.g.inside)
            && (who == R.NonGarbler ==> !t.n.inside)
            && (who == R.EqChecker ==> !t.c.inside)
  {
    hide R.Found, R.LeaveSwap, R.LeaveChecker, R.PartnerLeft;
    match who
    case Garbler => LeaveSwapKeeps(plan, s.g, R.Found(s.g.left[s.g.stage], R.PartnerLeft(s, who, s.g.stage)));
    case NonGarbler => LeaveSwapKeeps(plan, s.n, R.Found(s.n.left[s.n.stage], R.PartnerLeft(s, who, s.n.stage)));
    case EqChecker => LeaveCheckerKeeps(s.c, R.Found(s.c.left[s.c.stage], R.PartnerLeft(s, who, s.c.stage)));
  }

  /**
   An enabled exit of the protocol is an enabled exit of the meetings on that channel; it ends that meeting
   and hands the process what its partner left there.
   */
  lemma ExitMeets(plan: R.Plan, s: R.System, who: R.Who)
    requires R.Reachable(plan, s) && R.Enabled(s, R.Exit(who))
    ensures var ch := StageOf(s, who);
            && Enabled(ChannelMeetings(s, ch), Exit(IsFirst(s, who)))
            && ChannelMeetings(R.Next(plan, s, R.Exit(who)), ch) == Next(ChannelMeetings(s, ch), Exit(IsFirst(s, who)))
            && R.Found(ChannelMeetings(s, ch).Side(IsFirst(s, who)).left, R.PartnerLeft(s, who, ch))
               == ChannelMeetings(s, ch).Delivered(IsFirst(s, who))
  {
    hide R.Next, R.Enabled, R.Reachable, R.Rendezvous, R.CheckerData, R.HandedOver, R.Received, R.Counts;
    R.InvReachable(plan, s);
    ExitEnabled(plan, s, who);
    LeavingKeepsLedgers(plan, s, who);
  }

  lemma EnteringLeaves(plan: R.Plan, s: R.System, who: R.Who)
    requires R.Inv(plan, s) && R.Enabled(s, R.Enter(who))
    ensures var t := R.Next(plan, s, R.Enter(who));
            && (who != R.Garbler ==> t.g == s.g)
            && (who != R.NonGarbler ==> t.n == s.n)
            && (who != R.EqChecker ==> t.c == s.c)
            && (who == R.Garbler ==> t.g.inside && t.g.stage == s.g.stage)
            && (who == R.NonGarbler ==> t.n.inside && t.n.stage == s.n.stage)
            && (who == R.EqChecker ==> t.c.inside && t.c.stage == s.c.stage)
            && (who == R.Garbler ==> exists m :: t.g.left == R.Leave(s.g.left, s.g.stage, m))
            && (who == R.NonGarbler ==> exists m :: t.n.left == R.Leave(s.n.left, s.n.stage, m))
            && (who == R.EqChecker ==> exists m :: t.c.left == R.Leave(s.c.left, s.c.stage, m))
  {
    hide R.Rendezvous, R.CheckerData, R.HandedOver, R.Received, R.Counts, R.Leave, R.MessageAt, R.Conclude;
  }

  /** An enabled entry of the protocol enters the meeting on that channel; by the invariant no guard refuses it. */
  lemma EnterMeets(plan: R.Plan, s: R.System, who: R.Who)
    requires R.Reachable(plan, s) && R.Enabled(s, R.Enter(who))
    ensures var ch := StageOf(s, who);
            exists m :: && Enabled(ChannelMeetings(s, ch), Enter(IsFirst(s, who), m))
                        && ChannelMeetings(R.Next(plan, s, R.Enter(who)), ch)
                           == Next(ChannelMeetings(s, ch), Enter(IsFirst(s, who), m))
  {
    hide R.Next, R.Reachable, R.Rendezvous, R.CheckerData, R.HandedOver, R.Received, R.Counts;
    R.InvReachable(plan, s);
    EnteringLeaves(plan, s, who);
    var t, ch := R.Next(plan, s, R.Enter(who)), StageOf(s, who);
    var m :| (match who case Garbler => t.g.left == R.Leave(s.g.left, ch, m)
                        case NonGarbler => t.n.left == R.Leave(s.n.left, ch, m)
                        case EqChecker => t.c.left == R.Leave(s.c.left, ch, m));
    assert ChannelMeetings(t, ch) == Next(ChannelMeetings(s, ch), Enter(IsFirst(s, who), m));
  }
}
