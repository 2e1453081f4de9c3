/**
 Two processes exchanging two patches of RAM through four mutexes.  swap() is modelled as its five
 atomic steps; every interleaving of the two processes, with writes in between, is a run.
 */
module SwappableRam {
  import opened Wrappers

  datatype Mutex = A | B | AB | BA

  /** Where a process stands: outside swap(), or before one of its five atomic steps. */
  datatype Pc = Outside | Entering | HoldsNext | Released | Flipped | Acquired

  /** The memory both processes map: the locked mutexes and the two patches. */
  datatype Shared<T> = Shared(locked: set<Mutex>, a: T, b: T) {
    function Patch(swapped: bool): T {
      if swapped then a else b
    }

    function WithPatch(swapped: bool, value: T): Shared<T> {
      if swapped then this.(a := value) else this.(b := value)
    }
  }

  /**
   A process: its flag and position, and the history of its swaps: what its patch held on entering
   each swap, and what it found on leaving it.
   */
  datatype Process<T> = Process(swapped: bool, pc: Pc, left: seq<T>, found: seq<T>)

  function MyMutex(swapped: bool): Mutex {
    if swapped then A else B
  }

  function NextIntermediate(swapped: bool): Mutex {
    if swapped then AB else BA
  }

  function OldIntermediate(swapped: bool): Mutex {
    if swapped then BA else AB
  }

  /** Locking blocks while the mutex is held; every other step of swap() is always possible. */
  predicate CanAdvance<T>(p: Process<T>, s: Shared<T>) {
    match p.pc
    case Outside => false
    case Entering => NextIntermediate(p.swapped) !in s.locked
    case Flipped => MyMutex(p.swapped) !in s.locked
    case _ => true
  }

  /** The next atomic step of swap(). */
  function Advance<T>(p: Process<T>, s: Shared<T>): (Process<T>, Shared<T>)
    requires CanAdvance(p, s)
  {
    match p.pc
    case Entering => (p.(pc := HoldsNext), s.(locked := s.locked + {NextIntermediate(p.swapped)}))
    case HoldsNext => (p.(pc := Released), s.(locked := s.locked - {MyMutex(p.swapped)}))
    case Released => (p.(pc := Flipped, swapped := !p.swapped), s)
    case Flipped => (p.(pc := Acquired), s.(locked := s.locked + {MyMutex(p.swapped)}))
    case Acquired => (p.(pc := Outside, found := p.found + [s.Patch(p.swapped)]),
                      s.(locked := s.locked - {OldIntermediate(p.swapped)}))
  }

  /** Calling swap(): from here on the process no longer touches its patch. */
  function Enter<T>(p: Process<T>, s: Shared<T>): Process<T>
    requires p.pc == Outside
  {
    p.(pc := Entering, left := p.left + [s.Patch(p.swapped)])
  }

  // ---- The system of both sides ----

  datatype System<T> = System(t: Process<T>, f: Process<T>, shared: Shared<T>) {
    function Side(side: bool): Process<T> {
      if side then t else f
    }

    function WithSide(side: bool, p: Process<T>, s: Shared<T>): System<T> {
      if side then System(p, f, s) else System(t, p, s)
    }
  }

  datatype Event<T> = Write(side: bool, value: T) | Call(side: bool) | Step(side: bool)

  /** The constructor locks mutexes a and b; choose_side gives one side true and the other false. */
  function Initial<T>(a: T, b: T): System<T> {
    System(Process(true, Outside, [], []), Process(false, Outside, [], []), Shared({A, B}, a, b))
  }

  predicate Enabled<T>(s: System<T>, e: Event<T>) {
    match e
    case Write(side, _) => s.Side(side).pc == Outside
    case Call(side) => s.Side(side).pc == Outside
    case Step(side) => CanAdvance(s.Side(side), s.shared)
  }

  function Next<T>(s: System<T>, e: Event<T>): System<T>
    requires Enabled(s, e)
  {
    match e
    case Write(side, v) => s.(shared := s.shared.WithPatch(s.Side(side).swapped, v))
    case Call(side) => s.WithSide(side, Enter(s.Side(side), s.shared), s.shared)
    case Step(side) =>
      var (p, shared) := Advance(s.Side(side), s.shared);
      s.WithSide(side, p, shared)
  }

  ghost predicate IsRun<T>(run: seq<System<T>>, events: seq<Event<T>>) {
    && |run| == |events| + 1
    && run[0] == Initial(run[0].shared.a, run[0].shared.b)
    && forall i :: 0 <= i < |events| ==> Enabled(run[i], events[i]) && run[i + 1] == Next(run[i], events[i])
  }

  ghost predicate Reachable<T(!new)>(s: System<T>) {
    exists run: seq<System<T>>, events: seq<Event<T>> :: IsRun(run, events) && run[|events|] == s
  }

  // ---- The invariant ----

  /** The patch a side holds when it has completed the given number of swaps. */
  function HomePatch(side: bool, swaps: nat): bool {
    if swaps % 2 == 0 then side else !side
  }

  predicate Holds<T>(p: Process<T>, m: Mutex) {
    var departed := if p.pc in {Flipped, Acquired} then !p.swapped else p.swapped;
    || (m == MyMutex(p.swapped) && p.pc in {Outside, Entering, HoldsNext, Acquired})
    || (m == NextIntermediate(departed) && p.pc in {HoldsNext, Released, Flipped, Acquired})
  }

  ghost predicate SideInv<T>(s: System<T>, side: bool) {
    var p, q := s.Side(side), s.Side(!side);
    var n, home := |p.found|, HomePatch(side, |p.found|);
    && |p.left| == (if p.pc == Outside then n else n + 1)
    && p.swapped == (if p.pc in {Flipped, Acquired} then !home else home)
    // neither side is a whole swap ahead, and what it found is what the other left
    && n <= |q.left|
    && (forall i :: 0 <= i < n ==> p.found[i] == q.left[i])
    // a patch stays as it was left until the other side has collected it
    && (p.pc in {Entering, HoldsNext} ==> s.shared.Patch(home) == p.left[n])
    && (|q.left| > n ==> s.shared.Patch(!home) == q.left[n])
    // the side that is ahead waits for the other to leave the intermediate
    && (n > |q.found| ==> p.pc in {Outside, Entering} && q.pc in {Released, Flipped, Acquired})
  }

  /** A locked mutex is held by exactly one side, and only locked mutexes are held. */
  ghost predicate MutexInv<T>(s: System<T>) {
    forall m: Mutex ::
      && (m in s.shared.locked <==> Holds(s.t, m) || Holds(s.f, m))
      && !(Holds(s.t, m) && Holds(s.f, m))
  }

  ghost predicate Inv<T>(s: System<T>) {
    SideInv(s, true) && SideInv(s, false) && MutexInv(s)
  }

  lemma InvInitial<T>(a: T, b: T)
    ensures Inv(Initial(a, b))
  {}

  /** One atomic step locks only a free mutex, unlocks only what it gives up, and touches no other. */
  lemma StepLocks<T>(p: Process<T>, s: Shared<T>, m: Mutex)
    requires CanAdvance(p, s)
    ensures var q, t := Advance(p, s).0, Advance(p, s).1;
            && (Holds(q, m) && !Holds(p, m) ==> m !in s.locked && m in t.locked)
            && (Holds(p, m) && !Holds(q, m) ==> m !in t.locked)
            && ((Holds(q, m) <==> Holds(p, m)) ==> (m in t.locked <==> m in s.locked))
  {}

  lemma MutexInvNext<T>(s: System<T>, e: Event<T>)
    requires Inv(s) && Enabled(s, e)
    ensures MutexInv(Next(s, e))
  {
    if e.Step? {
      hide SideInv, Holds, Advance, CanAdvance;
      var t := Next(s, e);
      forall m: Mutex
        ensures (m in t.shared.locked <==> Holds(t.t, m) || Holds(t.f, m)) && !(Holds(t.t, m) && Holds(t.f, m))
      {
        StepLocks(s.Side(e.side), s.shared, m);
      }
    } else {
      hide SideInv;
    }
  }

  /** The two sides never hold the same mutex. */
  lemma Exclusive<T>(s: System<T>, side: bool, m: Mutex)
    requires MutexInv(s)
    ensures !(Holds(s.Side(side), m) && Holds(s.Side(!side), m))
  {}

  /** A side completing a swap finds what the other side left. */
  lemma FinishStep<T>(s: System<T>, side: bool)
    requires Inv(s) && s.Side(side).pc == Acquired
    ensures SideInv(Next(s, Step(side)), side)
  {
    assert SideInv(s, side) && SideInv(s, !side);
    Exclusive(s, side, MyMutex(s.Side(side).swapped));
  }

  /** A side's own step keeps its part of the invariant. */
  lemma OwnStep<T>(s: System<T>, e: Event<T>)
    requires Inv(s) && Enabled(s, e)
    ensures SideInv(Next(s, e), e.side)
  {
    if s.Side(e.side).pc == Acquired {
      FinishStep(s, e.side);
    } else {
      assert SideInv(s, e.side) && SideInv(s, !e.side);
    }
  }

  lemma OtherFinishes<T>(s: System<T>, side: bool)
    requires Inv(s) && s.Side(side).pc == Acquired
    ensures SideInv(Next(s, Step(side)), !side)
  {
    assert SideInv(s, side) && SideInv(s, !side);
    Exclusive(s, side, MyMutex(s.Side(side).swapped));
  }

  /** So does a step of the other side. */
  lemma OtherStep<T>(s: System<T>, e: Event<T>)
    requires Inv(s) && Enabled(s, e)
    ensures SideInv(Next(s, e), !e.side)
  {
    if s.Side(e.side).pc == Acquired {
      OtherFinishes(s, e.side);
    } else {
      assert SideInv(s, e.side) && SideInv(s, !e.side);
      Exclusive(s, e.side, MyMutex(s.Side(e.side).swapped));
      hide MutexInv;
    }
  }

  lemma InvNext<T>(s: System<T>, e: Event<T>)
    requires Inv(s) && Enabled(s, e)
    ensures Inv(Next(s, e))
  {
    MutexInvNext(s, e);
    OwnStep(s, e);
    OtherStep(s, e);
  }

  lemma {:induction false} InvAlongRun<T>(run: seq<System<T>>, events: seq<Event<T>>, i: nat)
    requires IsRun(run, events) && i < |run|
    ensures Inv(run[i])
  {
    if i == 0 {
      InvInitial(run[0].shared.a, run[0].shared.b);
    } else {
      InvAlongRun(run, events, i - 1);
      InvNext(run[i - 1], events[i - 1]);
    }
  }

  lemma InvReachable<T(!new)>(s: System<T>)
    requires Reachable(s)
    ensures Inv(s)
  {
    var run: seq<System<T>>, events: seq<Event<T>> :| IsRun(run, events) && run[|events|] == s;
    InvAlongRun(run, events, |events|);
  }

  // ---- What swap() promises, over every interleaving ----

  /** Outside swap() the two sides never hold the same patch. */
  lemma PatchesDisjoint<T(!new)>(s: System<T>)
    requires Reachable(s) && s.t.pc == Outside && s.f.pc == Outside
    ensures s.t.swapped != s.f.swapped
  {
    InvReachable(s);
    Exclusive(s, true, MyMutex(s.t.swapped));
  }

  /**
   No side finishes its n-th swap before the other begins its n-th, and it finds exactly what the other left
   there.
   */
  lemma SwapsExchange<T(!new)>(s: System<T>, side: bool)
    requires Reachable(s)
    ensures s.Side(side).found <= s.Side(!side).left
  {
    InvReachable(s);
    assert SideInv(s, side);
  }

  // ---- What is written and what is found ----

  /** A write through the pointer in hand is what that patch then holds; the other patch and the mutexes stay. */
  lemma WrittenPatch<T>(s: Shared<T>, swapped: bool, value: T)
    ensures s.WithPatch(swapped, value).Patch(swapped) == value
    ensures s.WithPatch(swapped, value).Patch(!swapped) == s.Patch(!swapped)
    ensures s.WithPatch(swapped, value).locked == s.locked
  {}

  /** Entering records what the patch in hand holds; no event takes anything back from what was left. */
  lemma LeftStep<T>(s: System<T>, e: Event<T>, side: bool)
    requires Enabled(s, e)
    ensures Next(s, e).Side(side).left
         == s.Side(side).left + if e == Call(side) then [s.shared.Patch(s.Side(side).swapped)] else []
  {}

  lemma {:induction false} LeftGrows<T>(run: seq<System<T>>, events: seq<Event<T>>, side: bool, i: nat, j: nat)
    requires IsRun(run, events) && i <= j < |run|
    ensures run[i].Side(side).left <= run[j].Side(side).left
    decreases j
  {
    hide Enabled, Next;
    if i < j {
      LeftGrows(run, events, side, i, j - 1);
      LeftStep(run[j - 1], events[j - 1], side);
    }
  }

  lemma RunReaches<T(!new)>(run: seq<System<T>>, events: seq<Event<T>>, i: nat)
    requires IsRun(run, events) && i < |run|
    ensures Reachable(run[i])
  {
    hide Enabled, Next;
    assert IsRun(run[..i + 1], events[..i]);
  }

  /** While a side stands outside swap() and makes no event, its patch keeps what it holds. */
  lemma {:induction false} RestKeepsPatch<T(!new)>(run: seq<System<T>>, events: seq<Event<T>>, side: bool,
          i: nat, j: nat)
    requires IsRun(run, events) && i <= j < |run| && run[i].Side(side).pc == Outside
    requires forall m :: i <= m < j ==> events[m].side != side
    ensures var p, q := run[i].Side(side), run[j].Side(side);
            q == p && run[j].shared.Patch(q.swapped) == run[i].shared.Patch(p.swapped)
    decreases j
  {
    if i < j {
      RestKeepsPatch(run, events, side, i, j - 1);
      RunReaches(run, events, j - 1);
      PatchPrivate(run[j - 1], events[j - 1]);
      OtherSideRests(run[j - 1], events[j - 1]);
    }
    hide Enabled, Next, Reachable;
  }

  lemma OtherSideRests<T>(s: System<T>, e: Event<T>)
    requires Enabled(s, e)
    ensures Next(s, e).Side(!e.side) == s.Side(!e.side)
  {}

  /**
   The law of the exchange over runs: a side that stands outside swap() at i and enters its n-th swap at j,
   with no event of its own in between, hands over what its patch held at i: whenever the partner has left
   its own n-th swap, that is what it found there.
   */
  lemma HeldIsFound<T(!new)>(run: seq<System<T>>, events: seq<Event<T>>, side: bool, i: nat, j: nat, k: nat)
    requires IsRun(run, events) && i <= j < |events| && k < |run|
    requires run[i].Side(side).pc == Outside && events[j] == Call(side)
    requires forall m :: i <= m < j ==> events[m].side != side
    ensures var n := |run[i].Side(side).left|;
            |run[k].Side(!side).found| > n ==>
              run[k].Side(!side).found[n] == run[i].shared.Patch(run[i].Side(side).swapped)
  {
    hide Enabled, Next;
    RestKeepsPatch(run, events, side, i, j);
    LeftStep(run[j], events[j], side);
    RunReaches(run, events, k);
    SwapsExchange(run[k], !side);
    if k <= j {
      LeftGrows(run, events, side, k, j);
    } else {
      LeftGrows(run, events, side, j + 1, k);
    }
    hide Reachable, IsRun;
  }

  /** What a side last wrote before entering its n-th swap is what the partner finds on leaving its own n-th. */
  lemma WrittenIsFound<T(!new)>(run: seq<System<T>>, events: seq<Event<T>>, side: bool, value: T,
          i: nat, j: nat, k: nat)
    requires IsRun(run, events) && i < j < |events| && k < |run|
    requires events[i] == Write(side, value) && events[j] == Call(side)
    requires forall m :: i < m < j ==> events[m].side != side
    ensures var n := |run[j].Side(side).left|;
            |run[k].Side(!side).found| > n ==> run[k].Side(!side).found[n] == value
  {
    WritesInHand(run[i], side, value);
    hide Enabled, Next;
    RestKeepsPatch(run, events, side, i + 1, j);
    HeldIsFound(run, events, side, i + 1, j, k);
    hide IsRun;
  }

  /** A side outside swap() can always write and call; what it writes is then in its hand. */
  lemma WritesInHand<T>(s: System<T>, side: bool, value: T)
    requires s.Side(side).pc == Outside
    ensures Enabled(s, Write(side, value)) && Enabled(s, Call(side))
    ensures var t := Next(s, Write(side, value));
            t.Side(side).pc == Outside && t.shared.Patch(t.Side(side).swapped) == value
  {
    WrittenPatch(s.shared, s.Side(side).swapped, value);
  }

  /** What was found in a swap and not written over is handed back in the next one. */
  lemma UnwrittenGoesBack<T(!new)>(run: seq<System<T>>, events: seq<Event<T>>, side: bool, i: nat, j: nat, k: nat)
    requires IsRun(run, events) && i < j < |events| && k < |run|
    requires run[i].Side(side).pc == Acquired && events[i] == Step(side) && events[j] == Call(side)
    requires forall m :: i < m < j ==> events[m].side != side
    ensures var n, f := |run[j].Side(side).left|, run[i + 1].Side(side).found;
            f != [] && (|run[k].Side(!side).found| > n ==> run[k].Side(!side).found[n] == f[|f| - 1])
  {
    FinishedInHand(run[i], side);
    hide Enabled, Next;
    RestKeepsPatch(run, events, side, i + 1, j);
    HeldIsFound(run, events, side, i + 1, j, k);
    hide IsRun;
  }

  lemma FinishedInHand<T>(s: System<T>, side: bool)
    requires s.Side(side).pc == Acquired
    ensures var p := Next(s, Step(side)).Side(side);
            && p.pc == Outside && p.found != []
            && p.found[|p.found| - 1] == Next(s, Step(side)).shared.Patch(p.swapped)
  {}

  /** Between swaps a patch is private: nothing the other side does changes it. */
  lemma PatchPrivate<T(!new)>(s: System<T>, e: Event<T>)
    requires Reachable(s) && Enabled(s, e) && s.Side(!e.side).pc == Outside
    ensures var p := s.Side(!e.side); Next(s, e).shared.Patch(p.swapped) == s.shared.Patch(p.swapped)
  {
    InvReachable(s);
    Exclusive(s, e.side, MyMutex(s.Side(e.side).swapped));
  }

  /** Two processes inside swap() are never both blocked; the one that is behind never is. */
  lemma SwapNeverStuck<T(!new)>(s: System<T>, side: bool)
    requires Reachable(s) && s.Side(side).pc != Outside
    requires s.Side(!side).pc != Outside || |s.Side(side).found| < |s.Side(!side).found|
    ensures CanAdvance(s.Side(side), s.shared) || CanAdvance(s.Side(!side), s.shared)
    ensures |s.Side(side).found| < |s.Side(!side).found| ==> CanAdvance(s.Side(side), s.shared)
  {
    InvReachable(s);
    assert SideInv(s, side) && SideInv(s, !side);
  }

  /** The events that move two processes, each out to make the given number of swaps, towards that goal. */
  predicate Wanted<T>(s: System<T>, e: Event<T>, swaps: nat) {
    match e
    case Write(_, _) => false
    case Call(side) => Enabled(s, e) && |s.Side(side).left| < swaps
    case Step(_) => Enabled(s, e)
  }

  /** A system whose sides both make the given number of swaps can only come to rest when both have made them all. */
  lemma RestsOnlyWhenDone<T(!new)>(s: System<T>, swaps: nat)
    requires Reachable(s) && |s.t.left| <= swaps && |s.f.left| <= swaps
    requires forall e: Event<T> :: !Wanted(s, e, swaps)
    ensures |s.t.found| == swaps && |s.f.found| == swaps
  {
    InvReachable(s);
    assert SideInv(s, true) && SideInv(s, false);
    assert !Wanted(s, Call(true), swaps) && !Wanted(s, Call(false), swaps);
    assert !Wanted(s, Step(true), swaps) && !Wanted(s, Step(false), swaps);
  }

  /** What is left of the given number of swaps, in atomic steps. */
  ghost function Remaining<T>(p: Process<T>, swaps: nat): int {
    6 * (swaps - |p.found|)
    - (match p.pc
       case Outside => 0
       case Entering => 1
       case HoldsNext => 2
       case Released => 3
       case Flipped => 4
       case Acquired => 5)
  }

  lemma AdvanceSpends<T>(p: Process<T>, s: Shared<T>, swaps: nat)
    requires CanAdvance(p, s)
    ensures Remaining(Advance(p, s).0, swaps) == Remaining(p, swaps) - 1 && Advance(p, s).0.left == p.left
  {}

  /** Every wanted event uses up one of finitely many remaining steps, so the system does come to rest. */
  lemma WantedIsFinite<T(!new)>(s: System<T>, e: Event<T>, swaps: nat)
    requires Reachable(s) && |s.t.left| <= swaps && |s.f.left| <= swaps && Wanted(s, e, swaps)
    ensures var s' := Next(s, e);
            && 0 <= Remaining(s'.t, swaps) + Remaining(s'.f, swaps) < Remaining(s.t, swaps) + Remaining(s.f, swaps)
            && |s'.t.left| <= swaps && |s'.f.left| <= swaps
  {
    hide MutexInv, Reachable, HomePatch, Holds, Advance;
    if e.Step? {
      AdvanceSpends(s.Side(e.side), s.shared, swaps);
    }
    InvReachable(s);
    assert SideInv(s, true) && SideInv(s, false);
  }

  // ---- The object each process keeps ----

  /** The anonymous shared memory of one pair: mutexes a and b start locked. */
  class SharedMemory<T> {
    var locked: set<Mutex>
    var a: T
    var b: T

    function View(): Shared<T>
      reads this
    {
      Shared(locked, a, b)
    }

    constructor (a: T, b: T)
      ensures View() == Initial(a, b).shared
    {
      this.locked, this.a, this.b := {A, B}, a, b;
    }
  }

  class SwappableRam<T> {
    const memory: SharedMemory<T>
    var initCalled: bool
    var swapSet: bool
    var swapped: bool
    var pc: Pc
    var left: seq<T>
    var found: seq<T>

    function View(): Process<T>
      reads this
    {
      Process(swapped, pc, left, found)
    }

    constructor (memory: SharedMemory<T>)
      ensures this.memory == memory && !initCalled && !swapSet
      ensures pc == Outside && left == found == []
    {
      this.memory := memory;
      initCalled, swapSet, swapped, pc, left, found := false, false, false, Outside, [], [];
    }

    method Init() returns (ok: bool)
      modifies this`initCalled
      ensures initCalled && ok == !old(initCalled)
    {
      ok := !initCalled;
      initCalled := true;
    }

    method ChooseSide(side: bool) returns (ok: bool)
      modifies this`swapped, this`swapSet
      ensures ok == (initCalled && !old(swapSet))
      ensures ok ==> swapSet && View() == old(View()).(swapped := side)
      ensures !ok ==> unchanged(this)
    {
      ok := initCalled && !swapSet;
      if ok {
        swapped, swapSet := side, true;
      }
    }

    /** get(): the patch in hand, or nothing before a side was chosen. */
    method Get() returns (patch: Option<T>)
      ensures patch == if !swapSet then None else Some(if swapped then memory.a else memory.b)
    {
      if !swapSet {
        return None;
      }
      patch := Some(if swapped then memory.a else memory.b);
    }

    /** Writing through the pointer that get() gives. */
    method Put(value: T)
      requires swapSet && pc == Outside
      modifies memory
      ensures swapped ==> memory.a == value && memory.b == old(memory.b)
      ensures !swapped ==> memory.b == value && memory.a == old(memory.a)
      ensures memory.locked == old(memory.locked)
      ensures memory.View() == old(memory.View()).WithPatch(swapped, value)
    {
      if swapped {
        memory.a := value;
      } else {
        memory.b := value;
      }
    }

    /** Entry of swap(): refused before a side was chosen. */
    method BeginSwap() returns (ok: bool)
      requires pc == Outside
      modifies this`pc, this`left
      ensures ok == swapSet
      ensures View() == if ok then Enter(old(View()), memory.View()) else old(View())
    {
      ok := swapSet;
      if ok {
        left := left + [if swapped then memory.a else memory.b];
        pc := Entering;
      }
    }

    /** The next atomic step of a swap in progress; blocked on a held mutex, it changes nothing. */
    method StepSwap() returns (moved: bool)
      requires swapSet && pc != Outside
      modifies this`pc, this`swapped, this`found, memory`locked
      ensures moved == CanAdvance(old(View()), old(memory.View()))
      ensures (View(), memory.View()) == if moved then Advance(old(View()), old(memory.View()))
                                         else (old(View()), old(memory.View()))
    {
      moved := true;
      match pc
      case Entering =>
        if NextIntermediate(swapped) in memory.locked {
          return false;
        }
        memory.locked := memory.locked + {NextIntermediate(swapped)};
        pc := HoldsNext;
      case HoldsNext =>
        memory.locked := memory.locked - {MyMutex(swapped)};
        pc := Released;
      case Released =>
        swapped := !swapped;
        pc := Flipped;
      case Flipped =>
        if MyMutex(swapped) in memory.locked {
          return false;
        }
        memory.locked := memory.locked + {MyMutex(swapped)};
        pc := Acquired;
      case Acquired =>
        memory.locked := memory.locked - {OldIntermediate(swapped)};
        found := found + [if swapped then memory.a else memory.b];
        pc := Outside;
    }
  }
}
