/**
 Tight order-preserving compaction in place: every live cell is shifted left by its distance, the
 number of dead cells before it, one bit of the distance per pass.
 */
module Compaction {
  import opened Powers

  // ---- What compaction computes ----

  /** The live cells of s, in order. */
  function LiveCells<T>(s: seq<T>, live: T -> bool): (r: seq<T>)
    ensures |r| <= |s|
  {
    if s == [] then []
    else LiveCells(s[..|s| - 1], live) + (if live(s[|s| - 1]) then [s[|s| - 1]] else [])
  }

  /** How many cells before position p are dead. */
  function DeadBefore<T>(s: seq<T>, live: T -> bool, p: nat): nat
    requires p <= |s|
  {
    p - |LiveCells(s[..p], live)|
  }

  lemma DeadBeforeFirst<T>(s: seq<T>, live: T -> bool)
    ensures DeadBefore(s, live, 0) == 0
  {}

  lemma DeadBeforeStep<T>(s: seq<T>, live: T -> bool, p: nat)
    requires p < |s|
    ensures DeadBefore(s, live, p + 1) == DeadBefore(s, live, p) + (if live(s[p]) then 0 else 1)
  {
    assert s[..p + 1][..p] == s[..p];
  }

  lemma {:induction false} DeadBeforeGrows<T>(s: seq<T>, live: T -> bool, p: nat, q: nat)
    requires p <= q <= |s|
    ensures 0 <= DeadBefore(s, live, q) - DeadBefore(s, live, p) <= q - p
    decreases q
  {
    if p < q {
      DeadBeforeGrows(s, live, p, q - 1);
      DeadBeforeStep(s, live, q - 1);
    }
  }

  /** A live cell at p ends at its rank among the live cells. */
  lemma {:induction false} LiveCellRank<T>(s: seq<T>, live: T -> bool, p: nat)
    requires p < |s| && live(s[p])
    ensures 0 <= p - DeadBefore(s, live, p) < |LiveCells(s, live)|
    ensures LiveCells(s, live)[p - DeadBefore(s, live, p)] == s[p]
    decreases |s|
  {
    var n := |s| - 1;
    if p < n {
      LiveCellRank(s[..n], live, p);
      assert s[..n][..p] == s[..p];
    }
  }

  /** Every rank is taken by a live cell. */
  lemma {:induction false} RankTaken<T>(s: seq<T>, live: T -> bool, x: nat) returns (p: nat)
    requires x < |LiveCells(s, live)|
    ensures p < |s| && live(s[p]) && p - DeadBefore(s, live, p) == x
    decreases |s|
  {
    var n := |s| - 1;
    if x < |LiveCells(s[..n], live)| {
      p := RankTaken(s[..n], live, x);
      assert s[..n][..p] == s[..p];
    } else {
      p := n;
    }
  }

  // ---- The distance, bit by bit ----

  /** The low i bits of d. */
  function LowBits(d: nat, i: nat): (r: nat)
    ensures r < Pow2(i)
  {
    if i == 0 then 0 else d - 2 * Half(d) + 2 * LowBits(Half(d), i - 1)
  }

  /** Bit i of d. */
  predicate BitAt(d: nat, i: nat) {
    ShiftRight(d, i) != 2 * ShiftRight(d, i + 1)
  }

  lemma {:induction false} ShiftInside(d: nat, i: nat)
    ensures ShiftRight(d, i + 1) == ShiftRight(Half(d), i)
  {
    if i > 0 {
      ShiftInside(d, i - 1);
    }
  }

  lemma {:induction false} LowBitsStep(d: nat, i: nat)
    ensures LowBits(d, i + 1) == LowBits(d, i) + (if BitAt(d, i) then Pow2(i) else 0)
  {
    if i > 0 {
      LowBitsStep(Half(d), i - 1);
      ShiftInside(d, i - 1);
      ShiftInside(d, i);
    }
  }

  lemma {:induction false} LowBitsGrowSlowly(a: nat, b: nat, i: nat)
    requires a <= b
    ensures LowBits(b, i) - LowBits(a, i) <= b - a
  {
    if i > 0 {
      LowBitsGrowSlowly(Half(a), Half(b), i - 1);
    }
  }

  lemma {:induction false} LowBitsAtMost(d: nat, i: nat)
    ensures LowBits(d, i) <= d
  {
    if i > 0 {
      LowBitsAtMost(Half(d), i - 1);
    }
  }

  /** What is left of d above bit i is 0, or at least 2^i. */
  lemma {:induction false} HighPart(d: nat, i: nat)
    ensures if ShiftRight(d, i) == 0 then LowBits(d, i) == d else d - LowBits(d, i) >= Pow2(i)
  {
    if i > 0 {
      HighPart(Half(d), i - 1);
      ShiftInside(d, i - 1);
    }
  }

  // ---- Where a live cell is during a pass ----

  /** The position of the live cell from p after i passes. */
  function After<T>(s: seq<T>, live: T -> bool, p: nat, i: nat): int
    requires p <= |s|
  {
    p - LowBits(DeadBefore(s, live, p), i)
  }

  /** Live cells never change order and never meet. */
  lemma StaysBefore<T>(s: seq<T>, live: T -> bool, p: nat, q: nat, i: nat)
    requires p < q < |s| && live(s[p])
    ensures 0 <= After(s, live, p, i) < After(s, live, q, i)
  {
    DeadBeforeStep(s, live, p);
    DeadBeforeGrows(s, live, p + 1, q);
    LowBitsGrowSlowly(DeadBefore(s, live, p), DeadBefore(s, live, q), i);
    LowBitsAtMost(DeadBefore(s, live, p), i);
    hide DeadBefore;
  }

  /** Its position in pass i once cells below j have been handled. */
  function Place<T>(s: seq<T>, live: T -> bool, p: nat, i: nat, j: int): int
    requires p <= |s|
  {
    if After(s, live, p, i) < j then After(s, live, p, i + 1) else After(s, live, p, i)
  }

  /** The distance stored with it. */
  function Stored<T>(s: seq<T>, live: T -> bool, p: nat, i: nat, j: int): nat
    requires p <= |s|
  {
    ShiftRight(DeadBefore(s, live, p), if After(s, live, p, i) < j then i + 1 else i)
  }

  /** Ghost: which original cell each cell now holds, -1 for none. */
  type Owners = seq<int>

  ghost predicate Holds<T>(s: seq<T>, live: T -> bool, data: seq<T>, distance: seq<nat>, owner: Owners, i: nat,
          j: int) {
    && |s| == |data| == |distance| == |owner|
    && (forall x :: 0 <= x < |s| ==> CellHolds(s, live, data, distance, owner, i, j, x))
    && (forall p :: 0 <= p < |s| && live(s[p]) ==> Found(s, live, owner, i, j, p))
  }

  lemma HoldsSizes<T>(s: seq<T>, live: T -> bool, data: seq<T>, distance: seq<nat>, owner: Owners, i: nat, j: int)
    requires Holds(s, live, data, distance, owner, i, j)
    ensures |s| == |data| == |distance| == |owner|
  {}

  ghost predicate CellHolds<T>(s: seq<T>, live: T -> bool, data: seq<T>, distance: seq<nat>, owner: Owners, i: nat,
          j: int, x: nat)
    requires |s| == |data| == |distance| == |owner| && x < |s|
  {
    if owner[x] < 0 then !live(data[x]) && distance[x] == 0
    else
      && owner[x] < |s| && live(s[owner[x]])
      && Place(s, live, owner[x], i, j) == x && data[x] == s[owner[x]] && distance[x] == Stored(s, live, owner[x], i, j)
  }

  ghost predicate Found<T>(s: seq<T>, live: T -> bool, owner: Owners, i: nat, j: int, p: nat)
    requires |s| == |owner| && p < |s|
  {
    var x := Place(s, live, p, i, j);
    0 <= x < |s| && owner[x] == p
  }

  /** Cells below 2^i, which pass i skips, have nowhere left to go. */
  lemma SkippedCellsAreHome<T>(s: seq<T>, live: T -> bool, p: nat, i: nat)
    requires p < |s| && live(s[p]) && After(s, live, p, i) < Pow2(i)
    ensures ShiftRight(DeadBefore(s, live, p), i) == 0
    ensures After(s, live, p, i + 1) == After(s, live, p, i)
  {
    HighPart(DeadBefore(s, live, p), i);
    LowBitsStep(DeadBefore(s, live, p), i);
    hide DeadBefore;
  }

  /** Distinct live cells have distinct positions, and passes only move cells left. */
  lemma NoCollision<T>(s: seq<T>, live: T -> bool, p: nat, q: nat, i: nat)
    requires p < |s| && q < |s| && live(s[p]) && live(s[q])
    ensures After(s, live, p, i) == After(s, live, q, i) <==> p == q
    ensures 0 <= After(s, live, p, i + 1) <= After(s, live, p, i) <= p
    ensures After(s, live, p, i + 1) == After(s, live, p, i) - (if BitAt(DeadBefore(s, live, p), i) then Pow2(i) else 0)
  {
    if p < q {
      StaysBefore(s, live, p, q, i);
    } else if q < p {
      StaysBefore(s, live, q, p, i);
    }
    LowBitsStep(DeadBefore(s, live, p), i);
    LowBitsAtMost(DeadBefore(s, live, p), i + 1);
    hide DeadBefore;
  }

  /** Only a cell still unhandled can be at position j when cells below j have been handled. */
  lemma AtJ<T>(s: seq<T>, live: T -> bool, p: nat, i: nat, j: int)
    requires p < |s| && live(s[p])
    ensures Place(s, live, p, i, j) == j <==> After(s, live, p, i) == j
  {
    NoCollision(s, live, p, p, i);
    hide After, DeadBefore;
  }

  // ---- The loop steps, on values ----

  function Moves(distance: seq<nat>, j: nat): bool
    requires j < |distance|
  {
    distance[j] % 2 == 1
  }

  function MovedData<T>(data: seq<T>, distance: seq<nat>, clear: T, j: nat, index: nat): (r: seq<T>)
    requires index < j < |data| == |distance|
    ensures |r| == |data|
  {
    if Moves(distance, j) then data[index := data[j]][j := clear] else data
  }

  function MovedDistance(distance: seq<nat>, j: nat, index: nat): (r: seq<nat>)
    requires index < j < |distance|
    ensures |r| == |distance|
  {
    if Moves(distance, j) then distance[index := distance[j] / 2][j := 0] else distance[j := distance[j] / 2]
  }

  function MovedOwner(owner: Owners, distance: seq<nat>, j: nat, index: nat): (r: Owners)
    requires index < j < |owner| == |distance|
    ensures |r| == |owner|
  {
    if Moves(distance, j) then owner[index := owner[j]][j := -1] else owner
  }

  /** The cell handled at j goes where it belongs, onto a dead cell if it moves. */
  lemma HandledCell<T>(s: seq<T>, live: T -> bool, data: seq<T>, distance: seq<nat>, owner: Owners, i: nat, j: nat)
    requires Holds(s, live, data, distance, owner, i, j) && Pow2(i) <= j < |s|
    ensures owner[j] < |s| && (owner[j] < 0 ==> !Moves(distance, j))
    ensures owner[j] >= 0 ==> live(s[owner[j]]) && data[j] == s[owner[j]]
    ensures owner[j] >= 0 ==> After(s, live, owner[j], i) == j
    ensures owner[j] >= 0 ==> After(s, live, owner[j], i + 1) == if Moves(distance, j) then j - Pow2(i) else j
    ensures owner[j] >= 0 ==> distance[j] == ShiftRight(DeadBefore(s, live, owner[j]), i)
    ensures owner[j] >= 0 ==> distance[j] / 2 == ShiftRight(DeadBefore(s, live, owner[j]), i + 1)
    ensures Moves(distance, j) ==> owner[j - Pow2(i)] < 0 && !live(data[j - Pow2(i)])
  {
    assert CellHolds(s, live, data, distance, owner, i, j, j);
    if owner[j] >= 0 {
      AtJ(s, live, owner[j], i, j);
      NoCollision(s, live, owner[j], owner[j], i);
      var index := j - Pow2(i);
      assert CellHolds(s, live, data, distance, owner, i, j, index);
      if Moves(distance, j) && owner[index] >= 0 {
        NoCollision(s, live, owner[j], owner[index], i + 1);
      }
    }
    hide After, DeadBefore;
  }

  /** A move never overwrites a live cell. */
  lemma LandsOnDeadCell<T>(s: seq<T>, live: T -> bool, data: seq<T>, distance: seq<nat>, owner: Owners, i: nat, j: nat)
    requires Holds(s, live, data, distance, owner, i, j) && Pow2(i) <= j < |s|
    ensures |owner| == |distance| == |data| == |s|
    ensures Moves(distance, j) ==> !live(data[j - Pow2(i)])
  {
    HandledCell(s, live, data, distance, owner, i, j);
  }

  /** A live cell that is not the one at j is untouched by handling j. */
  lemma UntouchedCell<T>(s: seq<T>, live: T -> bool, data: seq<T>, distance: seq<nat>, owner: Owners, i: nat, j: nat,
          p: nat)
    requires Holds(s, live, data, distance, owner, i, j) && Pow2(i) <= j < |s| && p < |s| && live(s[p])
    requires After(s, live, p, i) != j
    ensures var x := Place(s, live, p, i, j);
            && 0 <= x < |s| && x != j && owner[x] == p && (Moves(distance, j) ==> x != j - Pow2(i))
            && Place(s, live, p, i, j + 1) == x && Stored(s, live, p, i, j + 1) == Stored(s, live, p, i, j)
  {
    assert Found(s, live, owner, i, j, p);
    AtJ(s, live, p, i, j);
    HandledCell(s, live, data, distance, owner, i, j);
    hide After, DeadBefore, CellHolds;
  }

  lemma StepKeepsFound<T>(s: seq<T>, live: T -> bool, data: seq<T>, distance: seq<nat>, owner: Owners, i: nat, j: nat,
          p: nat)
    requires Holds(s, live, data, distance, owner, i, j) && Pow2(i) <= j < |s| && p < |s| && live(s[p])
    ensures Found(s, live, MovedOwner(owner, distance, j, j - Pow2(i)), i, j + 1, p)
  {
    HandledCell(s, live, data, distance, owner, i, j);
    if After(s, live, p, i) == j {
      AtJ(s, live, p, i, j);
      assert Found(s, live, owner, i, j, p);
    } else {
      UntouchedCell(s, live, data, distance, owner, i, j, p);
    }
    hide After, DeadBefore, CellHolds;
  }

  lemma StepKeepsCell<T>(s: seq<T>, live: T -> bool, data: seq<T>, distance: seq<nat>, owner: Owners, i: nat, j: nat,
          clear: T, x: nat)
    requires Holds(s, live, data, distance, owner, i, j) && Pow2(i) <= j < |s| && !live(clear) && x < |s|
    ensures var index := j - Pow2(i);
            CellHolds(s, live, MovedData(data, distance, clear, j, index), MovedDistance(distance, j, index),
                      MovedOwner(owner, distance, j, index), i, j + 1, x)
  {
    HandledCell(s, live, data, distance, owner, i, j);
    assert CellHolds(s, live, data, distance, owner, i, j, x);
    if x != j && owner[x] >= 0 {
      AtJ(s, live, owner[x], i, j);
      UntouchedCell(s, live, data, distance, owner, i, j, owner[x]);
    }
    hide After, DeadBefore, Found;
  }

  lemma StepKeeps<T>(s: seq<T>, live: T -> bool, data: seq<T>, distance: seq<nat>, owner: Owners, i: nat, j: nat,
          clear: T)
    requires Holds(s, live, data, distance, owner, i, j) && Pow2(i) <= j < |s| && !live(clear)
    ensures var index := j - Pow2(i);
            Holds(s, live, MovedData(data, distance, clear, j, index), MovedDistance(distance, j, index),
                  MovedOwner(owner, distance, j, index), i, j + 1)
  {
    var index := j - Pow2(i);
    var data', distance', owner' :=
      MovedData(data, distance, clear, j, index), MovedDistance(distance, j, index),
      MovedOwner(owner, distance, j, index);
    var j' := j + 1;
    forall x: nat | x < |s|
      ensures CellHolds(s, live, data', distance', owner', i, j', x)
    {
      StepKeepsCell(s, live, data, distance, owner, i, j, clear, x);
    }
    forall p: nat | p < |s| && live(s[p])
      ensures Found(s, live, owner', i, j', p)
    {
      StepKeepsFound(s, live, data, distance, owner, i, j, p);
    }
    hide CellHolds, Found, MovedData, MovedDistance, MovedOwner;
  }

  /** Positions and distances agree between two stages of the passes. */
  lemma SameStage<T>(s: seq<T>, live: T -> bool, data: seq<T>, distance: seq<nat>, owner: Owners, i: nat, j: int,
          i': nat, j': int)
    requires Holds(s, live, data, distance, owner, i, j)
    requires forall p :: 0 <= p < |s| && live(s[p]) ==>
               Place(s, live, p, i, j) == Place(s, live, p, i', j') &&
               Stored(s, live, p, i, j) == Stored(s, live, p, i', j')
    ensures Holds(s, live, data, distance, owner, i', j')
  {
    hide Place, Stored;
    forall p | 0 <= p < |s| && live(s[p])
      ensures Found(s, live, owner, i', j', p)
    {
      assert Found(s, live, owner, i, j, p);
    }
    forall x | 0 <= x < |s|
      ensures CellHolds(s, live, data, distance, owner, i', j', x)
    {
      assert CellHolds(s, live, data, distance, owner, i, j, x);
    }
  }

  /** Pass i may start at cell 2^i. */
  lemma SkipFirstCells<T>(s: seq<T>, live: T -> bool, data: seq<T>, distance: seq<nat>, owner: Owners, i: nat)
    requires Holds(s, live, data, distance, owner, i, 0)
    ensures Holds(s, live, data, distance, owner, i, Pow2(i))
  {
    forall p | 0 <= p < |s| && live(s[p])
      ensures Place(s, live, p, i, 0) == Place(s, live, p, i, Pow2(i))
      ensures Stored(s, live, p, i, 0) == Stored(s, live, p, i, Pow2(i))
    {
      NoCollision(s, live, p, p, i);
      if After(s, live, p, i) < Pow2(i) {
        SkippedCellsAreHome(s, live, p, i);
      }
      hide After, DeadBefore;
    }
    SameStage(s, live, data, distance, owner, i, 0, i, Pow2(i));
  }

  /** A pass that has handled every cell is the start of the next. */
  lemma PassDone<T>(s: seq<T>, live: T -> bool, data: seq<T>, distance: seq<nat>, owner: Owners, i: nat, j: int)
    requires Holds(s, live, data, distance, owner, i, j) && |s| <= j
    ensures Holds(s, live, data, distance, owner, i + 1, 0)
  {
    forall p | 0 <= p < |s| && live(s[p])
      ensures Place(s, live, p, i, j) == Place(s, live, p, i + 1, 0)
      ensures Stored(s, live, p, i, j) == Stored(s, live, p, i + 1, 0)
    {
      NoCollision(s, live, p, p, i);
      NoCollision(s, live, p, p, i + 1);
      hide After, DeadBefore;
    }
    SameStage(s, live, data, distance, owner, i, j, i + 1, 0);
  }

  // ---- The preprocessing step ----

  /** The number of dead cells before a live cell x, and 0 for a dead one. */
  function DistanceOf<T>(s: seq<T>, live: T -> bool, x: nat): nat
    requires x < |s|
  {
    if live(s[x]) then DeadBefore(s, live, x) else 0
  }

  ghost predicate IsDistance<T>(s: seq<T>, live: T -> bool, distance: seq<nat>) {
    |distance| == |s| && forall x :: 0 <= x < |s| ==> distance[x] == DistanceOf(s, live, x)
  }

  method ComputeDistance<T>(list: seq<T>, live: T -> bool) returns (distance: seq<nat>)
    ensures IsDistance(list, live, distance)
  {
    distance := [];
    var countNone := 0;
    for i := 0 to |list|
      invariant |distance| == i && countNone == DeadBefore(list, live, i)
      invariant forall x :: 0 <= x < i ==> distance[x] == DistanceOf(list, live, x)
    {
      DeadBeforeStep(list, live, i);
      distance := distance + [if live(list[i]) then countNone else 0];
      countNone := countNone + if live(list[i]) then 0 else 1;
    }
  }

  /** Every distance fits the floor(log2(size - 1)) + 1 bits it is stored in. */
  lemma DistanceFits<T>(s: seq<T>, live: T -> bool, distance: seq<nat>, x: nat)
    requires IsDistance(s, live, distance) && |s| >= 2 && x < |s|
    ensures distance[x] < Pow2(Log2(|s| - 1) + 1)
  {
    Log2Bounds(|s| - 1);
  }

  lemma HoldsAtStart<T>(s: seq<T>, live: T -> bool, distance: seq<nat>) returns (owner: Owners)
    requires IsDistance(s, live, distance)
    ensures Holds(s, live, s, distance, owner, 0, 0)
  {
    owner := seq(|s|, x requires 0 <= x < |s| => if live(s[x]) then x else -1);
    forall p: nat | p < |s| && live(s[p])
      ensures Place(s, live, p, 0, 0) == p && Stored(s, live, p, 0, 0) == DeadBefore(s, live, p)
    {
      hide DeadBefore;
    }
    hide Place, Stored, DeadBefore;
  }

  // ---- Compaction ----

  /** The live cells of s in order, then only dead cells. */
  ghost predicate IsCompacted<T>(s: seq<T>, live: T -> bool, data: seq<T>) {
    && |data| == |s|
    && data[..|LiveCells(s, live)|] == LiveCells(s, live)
    && forall x :: |LiveCells(s, live)| <= x < |data| ==> !live(data[x])
  }

  lemma HoldsAtEnd<T>(s: seq<T>, live: T -> bool, data: seq<T>, distance: seq<nat>, owner: Owners, i: nat)
    requires Holds(s, live, data, distance, owner, i, 0) && |s| <= Pow2(i)
    ensures IsCompacted(s, live, data)
  {
    var l := LiveCells(s, live);
    forall p | 0 <= p < |s| && live(s[p])
      ensures Place(s, live, p, i, 0) == p - DeadBefore(s, live, p)
    {
      NoCollision(s, live, p, p, i);
      HighPart(DeadBefore(s, live, p), i);
    }
    forall x: nat | x < |l|
      ensures data[x] == l[x]
    {
      var p := RankTaken(s, live, x);
      LiveCellRank(s, live, p);
      assert Found(s, live, owner, i, 0, p) && CellHolds(s, live, data, distance, owner, i, 0, x);
    }
    forall x: nat | |l| <= x < |data|
      ensures !live(data[x])
    {
      assert CellHolds(s, live, data, distance, owner, i, 0, x);
      if owner[x] >= 0 {
        LiveCellRank(s, live, owner[x]);
      }
    }
  }

  /** One turn of the inner loop: cell j moves to index exactly when its distance is odd, and is cleared. */
  method HandleCell<T>(distance: array<nat>, data: array<T>, clear: T, j: nat, index: nat)
    requires distance.Length == data.Length && distance as object != data && index < j < data.Length
    modifies distance, data
    ensures data[..] == MovedData(old(data[..]), old(distance[..]), clear, j, index)
    ensures distance[..] == MovedDistance(old(distance[..]), j, index)
  {
    var move := distance[j] % 2 == 1;
    var newDistance := distance[j] / 2;
    data[index] := if move then data[j] else data[index];
    distance[index] := if move then newDistance else distance[index];
    distance[j] := if move then 0 else newDistance;
    data[j] := if move then clear else data[j];
  }

  /** The inner loop of pass i, over cells 2^i and up. */
  method Pass<T>(distance: array<nat>, data: array<T>, live: T -> bool, clear: T, i: nat, ghost s: seq<T>,
          ghost owner: Owners)
    returns (ghost owner': Owners)
    requires distance.Length == data.Length && distance as object != data && !live(clear)
    requires Holds(s, live, data[..], distance[..], owner, i, 0)
    modifies distance, data
    ensures Holds(s, live, data[..], distance[..], owner', i + 1, 0)
  {
    hide *;
    SkipFirstCells(s, live, data[..], distance[..], owner, i);
    owner' := owner;
    var step := Pow2(i);
    var j := step;
    while j < data.Length
      invariant step <= j
      invariant Holds(s, live, data[..], distance[..], owner', i, j)
    {
      HoldsSizes(s, live, data[..], distance[..], owner', i, j);
      LandsOnDeadCell(s, live, data[..], distance[..], owner', i, j);
      StepKeeps(s, live, data[..], distance[..], owner', i, j, clear);
      owner' := MovedOwner(owner', distance[..], j, j - step);
      HandleCell(distance, data, clear, j, j - step);
      j := j + 1;
    }
    HoldsSizes(s, live, data[..], distance[..], owner', i, j);
    PassDone(s, live, data[..], distance[..], owner', i, j);
  }

  /**
   compact(): pass i moves every cell whose remaining distance is odd left by 2^i, clearing the cell
   it leaves.  floor(log2(size - 1)) + 1 passes suffice, and a move never lands on a live cell.
   */
  method Compact<T>(distance: array<nat>, data: array<T>, live: T -> bool, clear: T)
    requires distance.Length == data.Length >= 2 && distance as object != data
    requires IsDistance(data[..], live, distance[..]) && !live(clear)
    modifies distance, data
    ensures IsCompacted(old(data[..]), live, data[..])
  {
    var passes := Log2(data.Length - 1) + 1;
    Log2Bounds(data.Length - 1);
    ghost var s := data[..];
    ghost var owner := HoldsAtStart(s, live, distance[..]);
    hide *;
    for i := 0 to passes
      invariant Holds(s, live, data[..], distance[..], owner, i, 0)
    {
      owner := Pass(distance, data, live, clear, i, s, owner);
    }
    HoldsAtEnd(s, live, data[..], distance[..], owner, passes);
  }
}
