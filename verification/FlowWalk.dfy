/**
 The time-ordered walk of the flow query: how many sink devices met, after a source device did, someone
 that source device had met.  The Bloom filters are read as exact sets.
 */
module FlowWalk {
  import opened Network

  type DeviceId = int

  const DUMMY: DeviceId := 1
  const COUNT_VALUES: nat := 0x1_0000_0000

  /** One fetched encounter: who the device met and when, and whether the device is a source. */
  datatype Meeting = Meeting(time: int, encountered: DeviceId, device: DeviceId, isSource: bool)

  datatype Query = Query(sources: seq<DeviceId>, sinks: seq<DeviceId>, start: int, end: int, direct: bool) {
    predicate InRange(m: Meeting) {
      start < m.time < end
    }

    /** A source record whose encountered device can carry on: never a sink, and a source only in direct mode. */
    predicate Carries(m: Meeting) {
      m.isSource && InRange(m) && m.encountered !in sinks && (direct || m.encountered !in sources)
    }

    predicate IsSinkRecord(m: Meeting) {
      !m.isSource && InRange(m)
    }
  }

  function TimeRank(): Meeting -> int {
    (m: Meeting) => m.time
  }

  /** No in-range record among the first n carries the dummy value as an id. */
  predicate RealIds(q: Query, list: seq<Meeting>, n: nat)
    requires n <= |list|
  {
    forall i :: 0 <= i < n && q.InRange(list[i]) ==> list[i].encountered != DUMMY && list[i].device != DUMMY
  }

  function Elements(s: seq<DeviceId>): (r: set<DeviceId>)
    ensures forall x :: x in r <==> x in s
  {
    set x | x in s
  }

  // ---- What is counted ----

  /** Who can carry on when record n is reached: met by an earlier source record, or in direct mode a source. */
  ghost function Carriers(q: Query, list: seq<Meeting>, n: nat): set<DeviceId>
    requires n <= |list|
  {
    (if q.direct then Elements(q.sources) else {}) + set i | 0 <= i < n && q.Carries(list[i]) :: list[i].encountered
  }

  predicate Reaches(q: Query, list: seq<Meeting>, j: nat)
    requires j < |list|
  {
    q.IsSinkRecord(list[j])
    && ((q.direct && list[j].encountered in q.sources)
        || exists i :: 0 <= i < j && q.Carries(list[i]) && list[i].encountered == list[j].encountered)
  }

  /** The sink devices with an in-range record whose encountered device could carry on by then. */
  ghost function Reached(q: Query, list: seq<Meeting>, n: nat): set<DeviceId>
    requires n <= |list|
  {
    set j | 0 <= j < n && Reaches(q, list, j) :: list[j].device
  }

  lemma CarriersNext(q: Query, list: seq<Meeting>, n: nat)
    requires n < |list|
    ensures Carriers(q, list, n + 1)
         == Carriers(q, list, n) + if q.Carries(list[n]) then {list[n].encountered} else {}
    ensures Reaches(q, list, n) <==> q.IsSinkRecord(list[n]) && list[n].encountered in Carriers(q, list, n)
  {}

  lemma ReachedNext(q: Query, list: seq<Meeting>, n: nat)
    requires n < |list|
    ensures Reached(q, list, n + 1) == Reached(q, list, n) + if Reaches(q, list, n) then {list[n].device} else {}
  {
    hide Reaches;
  }

  // ---- The walk ----

  method InsertAll(ids: seq<DeviceId>) returns (filter: set<DeviceId>)
    ensures filter == Elements(ids)
  {
    filter := {};
    for i := 0 to |ids|
      invariant filter == Elements(ids[..i])
    {
      filter := filter + {ids[i]};
    }
    assert ids[..|ids|] == ids;
  }

  /** The filter holds the set, and possibly the dummy value. */
  ghost predicate HoldsUpToDummy(filter: set<DeviceId>, s: set<DeviceId>) {
    forall x :: x != DUMMY ==> (x in filter <==> x in s)
  }

  lemma EncounteredStep(filter: set<DeviceId>, s: set<DeviceId>, id: DeviceId, carries: bool)
    requires HoldsUpToDummy(filter, s)
    ensures HoldsUpToDummy(filter + {if carries then id else DUMMY}, s + if carries then {id} else {})
  {}

  lemma InfectedStep(infected: set<DeviceId>, s: set<DeviceId>, device: DeviceId, reaches: bool)
    requires infected == s + {DUMMY} && DUMMY !in s && (reaches ==> device != DUMMY)
    ensures var candidate := if reaches then device else DUMMY;
            var t := s + if reaches then {device} else {};
            && infected + {candidate} == t + {DUMMY} && DUMMY !in t
            && Count(t) == if candidate in infected then Count(s) else (Count(s) + 1) % COUNT_VALUES
  {
    hide Count;
    if reaches && device !in s {
      CountStep(s, device);
    } else {
      assert s + (if reaches then {device} else {}) == s;
    }
  }

  lemma CountStep(s: set<DeviceId>, x: DeviceId)
    requires x !in s
    ensures Count(s + {x}) == (Count(s) + 1) % COUNT_VALUES
  {
    assert |s + {x}| == |s| + 1;
  }

  /** A set's size in the 32-bit counter. */
  ghost function Count(s: set<DeviceId>): nat {
    |s| % 0x1_0000_0000
  }

  /** One step of the walk. */
  method WalkRecord(q: Query, m: Meeting, sourceFilter: set<DeviceId>, sinkFilter: set<DeviceId>,
                    encounteredFilter: set<DeviceId>, alreadyInfected: set<DeviceId>, count: nat,
                    ghost carriers: set<DeviceId>, ghost reached: set<DeviceId>)
    returns (encounteredFilter': set<DeviceId>, alreadyInfected': set<DeviceId>, count': nat)
    requires sourceFilter == Elements(q.sources) && sinkFilter == Elements(q.sinks)
    requires q.InRange(m) ==> m.encountered != DUMMY && m.device != DUMMY
    requires HoldsUpToDummy(encounteredFilter, carriers)
    requires alreadyInfected == reached + {DUMMY} && DUMMY !in reached && count == Count(reached)
    ensures HoldsUpToDummy(encounteredFilter', carriers + if q.Carries(m) then {m.encountered} else {})
    ensures var next := reached + if q.IsSinkRecord(m) && m.encountered in carriers then {m.device} else {};
            alreadyInfected' == next + {DUMMY} && DUMMY !in next && count' == Count(next)
  {
    hide Count;
    var inRange := q.start < m.time && m.time < q.end;
    var eligible := m.encountered !in sinkFilter && (q.direct || m.encountered !in sourceFilter);
    var carries := m.isSource && inRange && eligible;
    EncounteredStep(encounteredFilter, carriers, m.encountered, carries);
    encounteredFilter' := encounteredFilter + {if carries then m.encountered else DUMMY};
    var reaches := !m.isSource && inRange && m.encountered in encounteredFilter';
    InfectedStep(alreadyInfected, reached, m.device, reaches);
    var candidate := if reaches then m.device else DUMMY;
    count' := if candidate in alreadyInfected then count else (count + 1) % COUNT_VALUES;
    alreadyInfected' := alreadyInfected + {candidate};
  }

  /** The walk over the first n records of the sorted list, counting in 32 bits. */
  method Walk(q: Query, list: seq<Meeting>, n: nat) returns (count: nat)
    requires n <= |list| && RealIds(q, list, n)
    ensures count == Count(Reached(q, list, n))
  {
    NothingYet(q, list);
    hide *;
    var sourceFilter := InsertAll(q.sources);
    var sinkFilter := InsertAll(q.sinks);
    var encounteredFilter := if q.direct then sourceFilter else {};
    var alreadyInfected := {DUMMY};
    count := 0;
    for i := 0 to n
      invariant HoldsUpToDummy(encounteredFilter, Carriers(q, list, i))
      invariant alreadyInfected == Reached(q, list, i) + {DUMMY} && DUMMY !in Reached(q, list, i)
      invariant count == Count(Reached(q, list, i))
    {
      CarriersNext(q, list, i);
      ReachedNext(q, list, i);
      RealAt(q, list, n, i);
      encounteredFilter, alreadyInfected, count :=
        WalkRecord(q, list[i], sourceFilter, sinkFilter, encounteredFilter, alreadyInfected, count,
                   Carriers(q, list, i), Reached(q, list, i));
    }
  }

  lemma RealAt(q: Query, list: seq<Meeting>, n: nat, i: nat)
    requires i < n <= |list| && RealIds(q, list, n)
    ensures q.InRange(list[i]) ==> list[i].encountered != DUMMY && list[i].device != DUMMY
  {}

  lemma NothingYet(q: Query, list: seq<Meeting>)
    ensures Carriers(q, list, 0) == if q.direct then Elements(q.sources) else {}
    ensures Reached(q, list, 0) == {} && Count({}) == 0
    ensures HoldsUpToDummy(Carriers(q, list, 0), Carriers(q, list, 0))
  {}

  // ---- In terms of times ----

  /** A source met, in range and before m, the device m met: neither a sink nor, unless in direct mode, a source. */
  ghost predicate MetBefore(q: Query, list: seq<Meeting>, m: Meeting, strictly: bool) {
    exists s :: && s in list && s.isSource && q.start < s.time < q.end
                && s.encountered !in q.sinks && (q.direct || s.encountered !in q.sources)
                && s.encountered == m.encountered && (s.time < m.time || (!strictly && s.time == m.time))
  }

  /**
   The sink devices with an in-range record of someone a source had met before (or, not strictly, no later),
   or, in direct mode, of a source itself.
   */
  ghost function ReachedByTime(q: Query, list: seq<Meeting>, strictly: bool): set<DeviceId> {
    set m | m in list && !m.isSource && q.start < m.time < q.end &&
            ((q.direct && m.encountered in q.sources) || MetBefore(q, list, m, strictly))
          :: m.device
  }

  lemma EarlierTime(sorted: seq<Meeting>, i: nat, j: nat)
    requires Sorted(sorted, TimeRank(), true) && i < |sorted| && j < |sorted|
    ensures i <= j ==> sorted[i].time <= sorted[j].time
  {
    assert i < j ==> Dir(TimeRank(), true, sorted[i]) <= Dir(TimeRank(), true, sorted[j]);
  }

  lemma ReachedEarlier(q: Query, list: seq<Meeting>, sorted: seq<Meeting>, d: DeviceId)
    requires Sorted(sorted, TimeRank(), true) && multiset(sorted) == multiset(list)
    requires d in ReachedByTime(q, list, true)
    ensures |sorted| == |list| && d in Reached(q, sorted, |list|)
  {
    assert |sorted| == |multiset(sorted)| == |multiset(list)| == |list|;
    var m :| m in list && q.IsSinkRecord(m) && ((q.direct && m.encountered in q.sources) || MetBefore(q, list, m, true))
             && d == m.device;
    SameRecords(list, sorted, m);
    var j :| 0 <= j < |sorted| && sorted[j] == m;
    if !(q.direct && m.encountered in q.sources) {
      assert MetBefore(q, list, m, true);
      var s :| && s in list && s.isSource && q.start < s.time < q.end
               && s.encountered !in q.sinks && (q.direct || s.encountered !in q.sources)
               && s.encountered == m.encountered && (s.time < m.time || (!true && s.time == m.time));
      SameRecords(list, sorted, s);
      var i :| 0 <= i < |sorted| && sorted[i] == s;
      EarlierTime(sorted, j, i);
    }
    assert Reaches(q, sorted, j);
  }

  lemma ReachedNoLater(q: Query, list: seq<Meeting>, sorted: seq<Meeting>, d: DeviceId)
    requires Sorted(sorted, TimeRank(), true) && multiset(sorted) == multiset(list)
    requires |sorted| == |list| && d in Reached(q, sorted, |list|)
    ensures d in ReachedByTime(q, list, false)
  {
    var j :| 0 <= j < |list| && Reaches(q, sorted, j) && sorted[j].device == d;
    SameRecords(sorted, list, sorted[j]);
    if !(q.direct && sorted[j].encountered in q.sources) {
      var i :| 0 <= i < j && q.Carries(sorted[i]) && sorted[i].encountered == sorted[j].encountered;
      SameRecords(sorted, list, sorted[i]);
      assert Dir(TimeRank(), true, sorted[i]) <= Dir(TimeRank(), true, sorted[j]);
      assert MetBefore(q, list, sorted[j], false);
    }
  }

  /** No carrying source record shares its time with a sink record. */
  ghost predicate NoTies(q: Query, list: seq<Meeting>) {
    forall s, m :: s in list && m in list && q.Carries(s) && q.IsSinkRecord(m) ==> s.time != m.time
  }

  lemma ReachedAtTimes(q: Query, list: seq<Meeting>, sorted: seq<Meeting>)
    requires Sorted(sorted, TimeRank(), true) && multiset(sorted) == multiset(list) && |sorted| == |list|
    ensures ReachedByTime(q, list, true) <= Reached(q, sorted, |list|) <= ReachedByTime(q, list, false)
    ensures NoTies(q, list) ==> Reached(q, sorted, |list|) == ReachedByTime(q, list, true)
  {
    hide Sorted, Reached;
    forall d | d in ReachedByTime(q, list, true)
      ensures d in Reached(q, sorted, |list|)
    {
      ReachedEarlier(q, list, sorted, d);
    }
    forall d | d in Reached(q, sorted, |list|)
      ensures d in ReachedByTime(q, list, false)
    {
      ReachedNoLater(q, list, sorted, d);
    }
    if NoTies(q, list) {
      assert forall m :: m in list && q.IsSinkRecord(m) && MetBefore(q, list, m, false) ==> MetBefore(q, list, m, true);
      assert ReachedByTime(q, list, false) <= ReachedByTime(q, list, true);
    }
  }

  /** The size of some set between the two. */
  ghost predicate CountsBetween(count: nat, least: set<DeviceId>, most: set<DeviceId>) {
    exists s :: least <= s <= most && count == Count(s)
  }

  /**
   Sort by time, then walk: whatever order the encounters were fetched in, the count is the number of
   sink devices reached in time order; only records that tie can be decided either way.
   */
  method Flow(q: Query, list: seq<Meeting>) returns (count: nat)
    requires RealIds(q, list, |list|)
    ensures CountsBetween(count, ReachedByTime(q, list, true), ReachedByTime(q, list, false))
    ensures NoTies(q, list) ==> count == Count(ReachedByTime(q, list, true))
  {
    var sorted := Sort(list, TimeRank(), true);
    SortCorrect(list, TimeRank(), true);
    hide Sort, Sorted, ReachedByTime, Reached, NoTies;
    StillReal(q, list, sorted);
    ReachedAtTimes(q, list, sorted);
    count := Walk(q, sorted, |list|);
  }

  lemma StillReal(q: Query, list: seq<Meeting>, sorted: seq<Meeting>)
    requires RealIds(q, list, |list|) && multiset(sorted) == multiset(list)
    ensures RealIds(q, sorted, |sorted|)
  {
    forall i | 0 <= i < |sorted| && q.InRange(sorted[i])
      ensures sorted[i].encountered != DUMMY && sorted[i].device != DUMMY
    {
      SameRecords(sorted, list, sorted[i]);
      var j :| 0 <= j < |list| && list[j] == sorted[i];
    }
  }
}
