/**
 The contact query over all its shuffles, newest first: when it succeeds and what it counts, in terms
 of each device's encounters.
 */
module ContactQuery {
  import opened Powers
  import opened Wrappers
  import opened Integers
  import opened ContactWalk

  // ---- A device's encounters ----

  /** d had an encounter at t, kept in one of the shuffles. */
  predicate Encountered(shuffles: seq<Shuffle>, d: Device, t: Time) {
    exists s :: 0 <= s < |shuffles| && (d, t) in shuffles[s].records
  }

  /** No bound, or not later than it. */
  predicate Below(bound: Option<Time>, t: Time) {
    bound.None? || t <= bound.value
  }

  /**
   p is d's latest encounter within the bound; or there is none, and p is not after the start of the oldest
   shuffle.
   */
  ghost predicate Latest(shuffles: seq<Shuffle>, d: Device, bound: Option<Time>, p: Time) {
    if exists u :: Encountered(shuffles, d, u) && Below(bound, u) then
      && Encountered(shuffles, d, p) && Below(bound, p)
      && forall u :: Encountered(shuffles, d, u) && Below(bound, u) ==> u <= p
    else
      |shuffles| > 0 ==> p <= shuffles[|shuffles| - 1].start
  }

  /** Shuffles ordered newest first, each holding the encounters of its own interval of time. */
  ghost predicate Intervals(shuffles: seq<Shuffle>) {
    && (forall r, s :: 0 <= r <= s < |shuffles| ==> shuffles[s].start <= shuffles[r].start)
    && (forall s, d, t :: 0 <= s < |shuffles| && (d, t) in shuffles[s].records ==> shuffles[s].start < t)
    && (forall r, s, d, t :: 0 <= r < s < |shuffles| && (d, t) in shuffles[s].records ==> t <= shuffles[r].start)
  }

  /** d's previous-pointers each lead to its next earlier encounter, across shuffle boundaries. */
  ghost predicate ChainedAcross(shuffles: seq<Shuffle>, d: Device) {
    forall s, t :: 0 <= s < |shuffles| && (d, t) in shuffles[s].records ==>
      Latest(shuffles, d, Some(t - 1), shuffles[s].records[(d, t)].previous)
  }

  /** What the path store and the query's caller provide: ordered shuffles, chained devices, latest starts. */
  ghost predicate Kept(shuffles: seq<Shuffle>, ids: seq<Device>, starts: seq<Time>)
    requires |ids| == |starts|
  {
    && Intervals(shuffles)
    && (forall i :: 0 <= i < |ids| ==> ChainedAcross(shuffles, ids[i]) && Latest(shuffles, ids[i], None, starts[i]))
  }

  /** d's encounters in a shuffle, within a bound. */
  function Within(sh: Shuffle, d: Device, bound: Option<Time>): (r: set<Time>)
    ensures forall t :: t in r <==> (d, t) in sh.records && Below(bound, t)
  {
    set k | k in sh.records && k.0 == d && Below(bound, k.1) :: k.1
  }

  function EncountersIn(sh: Shuffle, d: Device): set<Time> {
    Within(sh, d, None)
  }

  function LaterThan(times: set<Time>, t: Time): (r: set<Time>)
    ensures forall u :: u in r <==> u in times && u > t
  {
    set u | u in times && u > t
  }

  /** Fewer than n of the times are later. */
  predicate AmongLatest(times: set<Time>, t: Time, n: nat) {
    t in times && |LaterThan(times, t)| < n
  }

  // ---- One device in one shuffle ----

  /** The bound reaches from the start of shuffle s up to no later than the start of the next newer one. */
  predicate BoundFor(shuffles: seq<Shuffle>, s: nat, bound: Option<Time>)
    requires s < |shuffles|
  {
    && (bound.Some? ==> shuffles[s].start <= bound.value)
    && (s > 0 ==> bound.Some? && bound.value <= shuffles[s - 1].start)
  }

  /**
   A latest encounter after the shuffle start lies in the shuffle; at or before it, the shuffle has none
   within the bound.
   */
  lemma LatestHere(shuffles: seq<Shuffle>, s: nat, d: Device, bound: Option<Time>, t: Time)
    requires s < |shuffles| && Intervals(shuffles) && BoundFor(shuffles, s, bound) && Latest(shuffles, d, bound, t)
    ensures t > shuffles[s].start ==> shuffles[s].Holds(d, t) && t in Within(shuffles[s], d, bound)
    ensures t <= shuffles[s].start ==> Within(shuffles[s], d, bound) == {}
    ensures t <= shuffles[s].start ==> Latest(shuffles, d, Some(shuffles[s].start), t)
    ensures forall u :: u in Within(shuffles[s], d, bound) ==> u <= t
  {
    var sh := shuffles[s];
    forall u | u in Within(sh, d, bound)
      ensures Encountered(shuffles, d, u) && Below(bound, u) && u <= t
    {
      assert (d, u) in shuffles[s].records;
    }
    if t > sh.start {
      assert sh.start >= shuffles[|shuffles| - 1].start;
      assert Encountered(shuffles, d, t) && Below(bound, t);
      var r :| 0 <= r < |shuffles| && (d, t) in shuffles[r].records;
      assert r >= s && r <= s;
    } else {
      forall u | Encountered(shuffles, d, u)
        ensures Below(bound, u) <==> u <= sh.start
      {
        OutsideThis(shuffles, s, d, bound, t, u);
      }
    }
  }

  lemma OutsideThis(shuffles: seq<Shuffle>, s: nat, d: Device, bound: Option<Time>, t: Time, u: Time)
    requires s < |shuffles| && Intervals(shuffles) && BoundFor(shuffles, s, bound) && Latest(shuffles, d, bound, t)
    requires t <= shuffles[s].start && Encountered(shuffles, d, u)
    ensures Below(bound, u) <==> u <= shuffles[s].start
  {
    if Below(bound, u) {
      assert u <= t;
    }
  }

  lemma LaterThanAll(times: set<Time>, t: Time)
    requires forall u :: u in times ==> u <= t
    ensures LaterThan(times, t) == {}
  {}

  /** Taking out the latest time moves every other one up by one. */
  lemma WithoutLatest(times: set<Time>, t: Time, rest: set<Time>, n: nat)
    requires t in times && rest == times - {t} && n > 0 && forall u :: u in times ==> u <= t
    ensures |times| == |rest| + 1
    ensures forall u :: AmongLatest(times, u, n) <==> u == t || AmongLatest(rest, u, n - 1)
  {
    assert times == rest + {t};
    LaterThanAll(times, t);
    forall u | u in rest
      ensures |LaterThan(times, u)| == |LaterThan(rest, u)| + 1
    {
      assert LaterThan(times, u) == LaterThan(rest, u) + {t};
    }
  }

  /** One lookup: what the record's previous-pointer leaves to fetch. */
  lemma StepBack(shuffles: seq<Shuffle>, s: nat, d: Device, bound: Option<Time>, t: Time)
    requires s < |shuffles| && Intervals(shuffles) && ChainedAcross(shuffles, d)
    requires BoundFor(shuffles, s, bound) && Latest(shuffles, d, bound, t) && t > shuffles[s].start
    ensures shuffles[s].Holds(d, t)
    ensures BoundFor(shuffles, s, Some(t - 1))
    ensures Latest(shuffles, d, Some(t - 1), shuffles[s].records[(d, t)].previous)
    ensures t in Within(shuffles[s], d, bound)
    ensures forall u :: u in Within(shuffles[s], d, bound) ==> u <= t
    ensures Within(shuffles[s], d, Some(t - 1)) == Within(shuffles[s], d, bound) - {t}
  {
    LatestHere(shuffles, s, d, bound, t);
    hide Latest, Within;
    assert Below(bound, t);
    assert s > 0 ==> t <= shuffles[s - 1].start;
    hide Intervals;
    forall u
      ensures u in Within(shuffles[s], d, Some(t - 1)) <==> u in Within(shuffles[s], d, bound) && u != t
    {}
  }

  /**
   From d's latest encounter within the bound, n lookups fetch exactly its n latest ones in the shuffle.
   If that is all of them the walk is left at d's latest encounter not after the shuffle start;
   otherwise it is left at an encounter that this shuffle still holds.
   */
  lemma {:induction false} WalkLatest(shuffles: seq<Shuffle>, s: nat, d: Device, bound: Option<Time>, t: Time, n: nat)
    requires s < |shuffles| && Intervals(shuffles) && ChainedAcross(shuffles, d)
    requires BoundFor(shuffles, s, bound) && Latest(shuffles, d, bound, t)
    ensures Unbroken(shuffles[s], d, t, n)
    ensures var f := Within(shuffles[s], d, bound);
            && |Times(shuffles[s], d, t, n)| == (if |f| <= n then |f| else n)
            && (forall u :: u in Times(shuffles[s], d, t, n) <==> AmongLatest(f, u, n))
            && (|f| <= n ==> Latest(shuffles, d, Some(shuffles[s].start), Left(shuffles[s], d, t, n)))
            && (|f| > n ==> shuffles[s].Holds(d, Left(shuffles[s], d, t, n)))
    decreases n
  {
    hide Intervals, ChainedAcross, BoundFor, Latest, Within;
    var sh := shuffles[s];
    LatestHere(shuffles, s, d, bound, t);
    if t > sh.start {
      StepBack(shuffles, s, d, bound, t);
      if n > 0 {
        var p := sh.records[(d, t)].previous;
        WithoutLatest(Within(sh, d, bound), t, Within(sh, d, Some(t - 1)), n);
        WalkLatest(shuffles, s, d, Some(t - 1), p, n - 1);
        assert Times(sh, d, t, n) == [t] + Times(sh, d, p, n - 1);
      }
    }
  }

  // ---- All shuffles ----

  /** Where the devices stand after the first s shuffles. */
  ghost function Standing(shuffles: seq<Shuffle>, ids: seq<Device>, starts: seq<Time>, limit: nat,
          s: nat): (r: seq<Time>)
    requires s <= |shuffles| && |ids| == |starts|
    ensures |r| == |ids|
  {
    if s == 0 then starts
    else
      var before := Standing(shuffles, ids, starts, limit, s - 1);
      seq(|ids|, i requires 0 <= i < |ids| => Left(shuffles[s - 1], ids[i], before[i], limit))
  }

  /** Device contacts summed over the first s shuffles. */
  ghost function AllContacts(q: Query, shuffles: seq<Shuffle>, ids: seq<Device>, starts: seq<Time>, limit: nat,
          s: nat): nat
    requires s <= |shuffles| && |ids| == |starts|
  {
    if s == 0 then 0
    else AllContacts(q, shuffles, ids, starts, limit, s - 1)
         + Contacts(q, shuffles[s - 1], ids, Standing(shuffles, ids, starts, limit, s - 1), limit, |ids|)
  }

  ghost predicate AllAnswered(shuffles: seq<Shuffle>, ids: seq<Device>, starts: seq<Time>, limit: nat)
    requires |ids| == |starts| && FewLookups(ids, limit)
  {
    forall s :: 0 <= s < |shuffles| ==>
      ShuffleAnswered(shuffles[s], ids, Standing(shuffles, ids, starts, limit, s), limit, |ids|)
  }

  // ---- What the standings are, and when every lookup is answered ----

  /** What shuffle s and the older ones hold: everything not after the start of the shuffle before. */
  function UpTo(shuffles: seq<Shuffle>, s: nat): Option<Time>
    requires s <= |shuffles|
  {
    if s == 0 then None else Some(shuffles[s - 1].start)
  }

  lemma UpToFits(shuffles: seq<Shuffle>, s: nat, d: Device)
    requires s < |shuffles| && Intervals(shuffles)
    ensures BoundFor(shuffles, s, UpTo(shuffles, s))
    ensures Within(shuffles[s], d, UpTo(shuffles, s)) == EncountersIn(shuffles[s], d)
  {}

  /** d has at most limit encounters in each of the first s shuffles. */
  ghost predicate FitsBefore(shuffles: seq<Shuffle>, d: Device, limit: nat, s: nat)
    requires s <= |shuffles|
  {
    forall r :: 0 <= r < s ==> |EncountersIn(shuffles[r], d)| <= limit
  }

  lemma StandingNext(shuffles: seq<Shuffle>, ids: seq<Device>, starts: seq<Time>, limit: nat, s: nat, i: nat)
    requires s < |shuffles| && |ids| == |starts| && i < |ids|
    ensures Standing(shuffles, ids, starts, limit, 0)[i] == starts[i]
    ensures Standing(shuffles, ids, starts, limit, s + 1)[i]
         == Left(shuffles[s], ids[i], Standing(shuffles, ids, starts, limit, s)[i], limit)
  {
    hide Left;
  }

  /** A device that fits the limit so far stands at its latest encounter not after the start of the shuffle before. */
  lemma {:induction false} StandingLatest(shuffles: seq<Shuffle>, ids: seq<Device>, starts: seq<Time>, limit: nat,
          s: nat, i: nat)
    requires |ids| == |starts| && i < |ids| && s <= |shuffles| && Kept(shuffles, ids, starts)
    requires FitsBefore(shuffles, ids[i], limit, s)
    ensures Latest(shuffles, ids[i], UpTo(shuffles, s), Standing(shuffles, ids, starts, limit, s)[i])
  {
    hide Intervals, ChainedAcross, Latest, EncountersIn, BoundFor, Within;
    if s > 0 {
      StandingLatest(shuffles, ids, starts, limit, s - 1, i);
      UpToFits(shuffles, s - 1, ids[i]);
      StandingNext(shuffles, ids, starts, limit, s - 1, i);
      WalkLatest(shuffles, s - 1, ids[i], UpTo(shuffles, s - 1), Standing(shuffles, ids, starts, limit, s - 1)[i],
          limit);
    }
  }

  /** What the walk of a device that fits so far does in shuffle s. */
  lemma DeviceWalk(shuffles: seq<Shuffle>, ids: seq<Device>, starts: seq<Time>, limit: nat, s: nat, i: nat)
    requires |ids| == |starts| && i < |ids| && s < |shuffles| && Kept(shuffles, ids, starts)
    requires FitsBefore(shuffles, ids[i], limit, s)
    ensures var sh, d, t := shuffles[s], ids[i], Standing(shuffles, ids, starts, limit, s)[i];
            var f := EncountersIn(sh, d);
            && Unbroken(sh, d, t, limit)
            && |Times(sh, d, t, limit)| == (if |f| <= limit then |f| else limit)
            && (forall u :: u in Times(sh, d, t, limit) <==> AmongLatest(f, u, limit))
            && (|f| > limit ==> sh.Holds(d, Left(sh, d, t, limit)))
  {
    hide Intervals, ChainedAcross, Latest, EncountersIn, BoundFor, Within, Times, Left, AmongLatest, Unbroken,
        Shuffle.Holds;
    StandingLatest(shuffles, ids, starts, limit, s, i);
    UpToFits(shuffles, s, ids[i]);
    WalkLatest(shuffles, s, ids[i], UpTo(shuffles, s), Standing(shuffles, ids, starts, limit, s)[i], limit);
  }

  /**
   A device with more encounters in a shuffle than the limit is asked for in the next one, which lacks what
   it is asked for.
   */
  lemma OverLimitBreaks(shuffles: seq<Shuffle>, ids: seq<Device>, starts: seq<Time>, limit: nat, s: nat, i: nat)
    requires |ids| == |starts| && i < |ids| && s + 1 < |shuffles| && Kept(shuffles, ids, starts)
    requires FitsBefore(shuffles, ids[i], limit, s) && |EncountersIn(shuffles[s], ids[i])| > limit > 0
    ensures !Unbroken(shuffles[s + 1], ids[i], Standing(shuffles, ids, starts, limit, s + 1)[i], limit)
  {
    DeviceWalk(shuffles, ids, starts, limit, s, i);
    StandingNext(shuffles, ids, starts, limit, s, i);
    HeldOnlyHere(shuffles, s, ids[i], Standing(shuffles, ids, starts, limit, s + 1)[i]);
    hide Kept, FitsBefore, Standing, Times, EncountersIn, Left;
  }

  lemma HeldOnlyHere(shuffles: seq<Shuffle>, s: nat, d: Device, t: Time)
    requires s + 1 < |shuffles| && Intervals(shuffles) && shuffles[s].Holds(d, t)
    ensures t > shuffles[s + 1].start && (d, t) !in shuffles[s + 1].records
  {}

  /** At most limit encounters of every device in every shuffle except the oldest. */
  ghost predicate WithinLimit(shuffles: seq<Shuffle>, ids: seq<Device>, limit: nat) {
    forall s, i :: 0 <= s < |shuffles| - 1 && 0 <= i < |ids| ==> |EncountersIn(shuffles[s], ids[i])| <= limit
  }

  /** The dummy lookups that fill the first i devices up to the limit. */
  ghost function Padding(sh: Shuffle, ids: seq<Device>, limit: nat, i: nat): nat
    requires i <= |ids|
  {
    if i == 0 then 0
    else
      var n := |EncountersIn(sh, ids[i - 1])|;
      Padding(sh, ids, limit, i - 1) + if n <= limit then limit - n else 0
  }

  /** Every shuffle has the dummies for its padding, and its low nonce word reaches them. */
  ghost predicate AllStocked(shuffles: seq<Shuffle>, ids: seq<Device>, limit: nat) {
    forall s :: 0 <= s < |shuffles| ==> Stocked(shuffles[s], Padding(shuffles[s], ids, limit, |ids|))
  }

  lemma {:induction false} PaddingUsed(shuffles: seq<Shuffle>, ids: seq<Device>, starts: seq<Time>, limit: nat,
          s: nat, i: nat)
    requires |ids| == |starts| && i <= |ids| && s < |shuffles| && Kept(shuffles, ids, starts)
    requires forall k :: 0 <= k < |ids| ==> FitsBefore(shuffles, ids[k], limit, s)
    ensures DummiesUsed(shuffles[s], ids, Standing(shuffles, ids, starts, limit, s), limit, i)
         == Padding(shuffles[s], ids, limit, i)
  {
    hide Kept, FitsBefore, Standing, Times, EncountersIn;
    if i > 0 {
      PaddingUsed(shuffles, ids, starts, limit, s, i - 1);
      DeviceWalk(shuffles, ids, starts, limit, s, i - 1);
    }
  }

  /** With every device within the limit so far, a shuffle is answered exactly when it is stocked for the padding. */
  lemma ShuffleStocked(shuffles: seq<Shuffle>, ids: seq<Device>, starts: seq<Time>, limit: nat, s: nat)
    requires |ids| == |starts| && FewLookups(ids, limit) && s < |shuffles| && Kept(shuffles, ids, starts)
    requires forall k :: 0 <= k < |ids| ==> FitsBefore(shuffles, ids[k], limit, s)
    ensures ShuffleAnswered(shuffles[s], ids, Standing(shuffles, ids, starts, limit, s), limit, |ids|)
            <==> Stocked(shuffles[s], Padding(shuffles[s], ids, limit, |ids|))
  {
    hide *;
    var now := Standing(shuffles, ids, starts, limit, s);
    forall k | 0 <= k < |ids|
      ensures Unbroken(shuffles[s], ids[k], now[k], limit)
    {
      DeviceWalk(shuffles, ids, starts, limit, s, k);
    }
    ShuffleAnsweredExactly(shuffles[s], ids, now, limit, |ids|);
    PaddingUsed(shuffles, ids, starts, limit, s, |ids|);
  }

  lemma {:induction false} NothingToPad(sh: Shuffle, ids: seq<Device>, starts: seq<Time>, i: nat)
    requires |ids| == |starts| && i <= |ids|
    ensures Padding(sh, ids, 0, i) == 0 && DummiesUsed(sh, ids, starts, 0, i) == 0
  {
    hide EncountersIn;
    if i > 0 {
      NothingToPad(sh, ids, starts, i - 1);
    }
  }

  /** Without lookups everything is answered. */
  lemma NoLookupsAnswered(shuffles: seq<Shuffle>, ids: seq<Device>, starts: seq<Time>)
    requires |ids| == |starts| && FewLookups(ids, 0)
    ensures AllAnswered(shuffles, ids, starts, 0) && AllStocked(shuffles, ids, 0)
  {
    hide FewLookups, ShuffleAnswered, Standing, Stocked, Padding;
    forall s | 0 <= s < |shuffles|
      ensures ShuffleAnswered(shuffles[s], ids, Standing(shuffles, ids, starts, 0, s), 0, |ids|)
      ensures Stocked(shuffles[s], Padding(shuffles[s], ids, 0, |ids|))
    {
      var now := Standing(shuffles, ids, starts, 0, s);
      NothingToPad(shuffles[s], ids, now, |ids|);
      StockedForNone(shuffles[s]);
      ShuffleAnsweredExactly(shuffles[s], ids, now, 0, |ids|);
    }
  }

  /** An answered query has every device within the limit in all shuffles but the oldest. */
  lemma {:induction false} AnsweredFits(shuffles: seq<Shuffle>, ids: seq<Device>, starts: seq<Time>, limit: nat,
          s: nat, i: nat)
    requires |ids| == |starts| && FewLookups(ids, limit) && limit > 0 && s < |shuffles| && i < |ids|
    requires Kept(shuffles, ids, starts) && AllAnswered(shuffles, ids, starts, limit)
    ensures FitsBefore(shuffles, ids[i], limit, s)
  {
    hide Kept, FewLookups, Standing, ShuffleAnswered, Unbroken, EncountersIn;
    if s > 0 {
      AnsweredFits(shuffles, ids, starts, limit, s - 1, i);
      var now := Standing(shuffles, ids, starts, limit, s);
      ShuffleAnsweredExactly(shuffles[s], ids, now, limit, |ids|);
      assert ShuffleAnswered(shuffles[s], ids, now, limit, |ids|);
      if |EncountersIn(shuffles[s - 1], ids[i])| > limit {
        OverLimitBreaks(shuffles, ids, starts, limit, s - 1, i);
      }
    }
  }

  lemma AllFit(shuffles: seq<Shuffle>, ids: seq<Device>, limit: nat)
    ensures WithinLimit(shuffles, ids, limit) <==>
              forall s, i :: 0 <= s < |shuffles| && 0 <= i < |ids| ==> FitsBefore(shuffles, ids[i], limit, s)
  {
    hide EncountersIn;
    if forall s, i :: 0 <= s < |shuffles| && 0 <= i < |ids| ==> FitsBefore(shuffles, ids[i], limit, s) {
      forall s, i | 0 <= s < |shuffles| - 1 && 0 <= i < |ids|
        ensures |EncountersIn(shuffles[s], ids[i])| <= limit
      {
        assert FitsBefore(shuffles, ids[i], limit, s + 1);
      }
    }
  }

  /**
   The exact condition for success: no device has more than limit encounters in any shuffle except the
   oldest (or no lookups are made at all), and every shuffle is stocked with the dummies that pad it.
   */
  lemma AnsweredExactly(shuffles: seq<Shuffle>, ids: seq<Device>, starts: seq<Time>, limit: nat)
    requires |ids| == |starts| && FewLookups(ids, limit) && Kept(shuffles, ids, starts)
    ensures AllAnswered(shuffles, ids, starts, limit)
            <==> (limit == 0 || WithinLimit(shuffles, ids, limit)) && AllStocked(shuffles, ids, limit)
  {
    hide Kept, FewLookups, Standing, ShuffleAnswered, Stocked, Padding, WithinLimit, FitsBefore;
    AllFit(shuffles, ids, limit);
    if limit == 0 {
      NoLookupsAnswered(shuffles, ids, starts);
    } else {
      if AllAnswered(shuffles, ids, starts, limit) {
        forall s, i | 0 <= s < |shuffles| && 0 <= i < |ids|
          ensures FitsBefore(shuffles, ids[i], limit, s)
        {
          AnsweredFits(shuffles, ids, starts, limit, s, i);
        }
      }
      if WithinLimit(shuffles, ids, limit) {
        forall s | 0 <= s < |shuffles|
          ensures ShuffleAnswered(shuffles[s], ids, Standing(shuffles, ids, starts, limit, s), limit, |ids|)
                  <==> Stocked(shuffles[s], Padding(shuffles[s], ids, limit, |ids|))
        {
          ShuffleStocked(shuffles, ids, starts, limit, s);
        }
      }
    }
  }

  // ---- What is counted ----

  /**
   Among d's latest limit encounters in the shuffle there is a confirmed one, in the window, with someone in
   the filter.
   */
  ghost predicate InContact(q: Query, sh: Shuffle, d: Device, limit: nat) {
    exists t :: && AmongLatest(EncountersIn(sh, d), t, limit) && t > sh.start && (d, t) in sh.records
                && sh.records[(d, t)].confirmed && q.start < t < q.end && sh.records[(d, t)].encountered in q.filter
  }

  /** The pairs of a shuffle and a device in contact there, up to the i-th device of shuffle s. */
  ghost function ContactPairs(q: Query, shuffles: seq<Shuffle>, ids: seq<Device>, limit: nat, s: nat, i: nat)
    : set<(nat, nat)>
    requires s <= |shuffles| && i <= |ids| && (s == |shuffles| ==> i == 0)
  {
    set r: nat, j: nat | r <= s && j < |ids| && (r < s || j < i) && InContact(q, shuffles[r], ids[j], limit) :: (r, j)
  }

  lemma NextPair(q: Query, shuffles: seq<Shuffle>, ids: seq<Device>, limit: nat, s: nat, i: nat)
    requires s < |shuffles| && i < |ids|
    ensures |ContactPairs(q, shuffles, ids, limit, s, i + 1)|
         == |ContactPairs(q, shuffles, ids, limit, s, i)| + if InContact(q, shuffles[s], ids[i], limit) then 1 else 0
  {
    hide InContact, ContactPairs;
    var before, after := ContactPairs(q, shuffles, ids, limit, s, i), ContactPairs(q, shuffles, ids, limit, s, i + 1);
    var next := if InContact(q, shuffles[s], ids[i], limit) then {(s, i)} else {};
    PairsSplit(q, shuffles, ids, limit, s, i, next);
    assert before !! next;
  }

  lemma PairsSplit(q: Query, shuffles: seq<Shuffle>, ids: seq<Device>, limit: nat, s: nat, i: nat,
          next: set<(nat, nat)>)
    requires s < |shuffles| && i < |ids| && next == if InContact(q, shuffles[s], ids[i], limit) then {(s, i)} else {}
    ensures ContactPairs(q, shuffles, ids, limit, s, i + 1) == ContactPairs(q, shuffles, ids, limit, s, i) + next
    ensures (s, i) !in ContactPairs(q, shuffles, ids, limit, s, i)
  {
    hide InContact;
  }

  lemma NextShuffle(q: Query, shuffles: seq<Shuffle>, ids: seq<Device>, limit: nat, s: nat)
    requires s < |shuffles|
    ensures ContactPairs(q, shuffles, ids, limit, s + 1, 0) == ContactPairs(q, shuffles, ids, limit, s, |ids|)
    ensures ContactPairs(q, shuffles, ids, limit, 0, 0) == {}
  {
    hide InContact;
  }

  /** The walk of a shuffle finds contact for exactly the devices in contact there. */
  lemma ContactFound(q: Query, shuffles: seq<Shuffle>, ids: seq<Device>, starts: seq<Time>, limit: nat, s: nat, i: nat)
    requires |ids| == |starts| && i < |ids| && s < |shuffles| && Kept(shuffles, ids, starts)
    requires limit == 0 || FitsBefore(shuffles, ids[i], limit, s)
    ensures var t := Standing(shuffles, ids, starts, limit, s)[i];
            var times := Times(shuffles[s], ids[i], t, limit);
            HasContact(q, shuffles[s], ids[i], times) <==> InContact(q, shuffles[s], ids[i], limit)
  {
    hide Kept, FitsBefore, Standing, EncountersIn, Query.Hit, Shuffle.Holds, LaterThan;
    var sh, d, t := shuffles[s], ids[i], Standing(shuffles, ids, starts, limit, s)[i];
    if limit > 0 {
      DeviceWalk(shuffles, ids, starts, limit, s, i);
    }
    var times := Times(sh, d, t, limit);
    assert forall u :: u in times <==> AmongLatest(EncountersIn(sh, d), u, limit);
    hide Times, AmongLatest;
    SomeTime(q, sh, d, times);
    ContactIs(q, sh, d, limit);
  }

  lemma ContactIs(q: Query, sh: Shuffle, d: Device, limit: nat)
    ensures InContact(q, sh, d, limit) <==>
              exists t :: AmongLatest(EncountersIn(sh, d), t, limit) && sh.Holds(d, t) && q.Hit(sh, d, t)
  {
    hide AmongLatest, EncountersIn;
  }

  lemma SomeTime(q: Query, sh: Shuffle, d: Device, times: seq<Time>)
    ensures HasContact(q, sh, d, times) <==> exists t :: t in times && sh.Holds(d, t) && q.Hit(sh, d, t)
  {
    hide Query.Hit, Shuffle.Holds;
  }

  lemma {:induction false} ContactsCounted(q: Query, shuffles: seq<Shuffle>, ids: seq<Device>, starts: seq<Time>,
          limit: nat, s: nat, i: nat)
    requires |ids| == |starts| && i <= |ids| && s < |shuffles| && Kept(shuffles, ids, starts)
    requires limit == 0 || forall k :: 0 <= k < |ids| ==> FitsBefore(shuffles, ids[k], limit, s)
    ensures |ContactPairs(q, shuffles, ids, limit, s, i)| == |ContactPairs(q, shuffles, ids, limit, s, 0)|
            + Contacts(q, shuffles[s], ids, Standing(shuffles, ids, starts, limit, s), limit, i)
  {
    hide Kept, FitsBefore, Standing, HasContact, InContact, ContactPairs;
    if i > 0 {
      ContactsCounted(q, shuffles, ids, starts, limit, s, i - 1);
      ContactFound(q, shuffles, ids, starts, limit, s, i - 1);
      NextPair(q, shuffles, ids, limit, s, i - 1);
    }
  }

  /** On an answered query the walk counts exactly the pairs of a shuffle and a device in contact there. */
  lemma {:induction false} AllCounted(q: Query, shuffles: seq<Shuffle>, ids: seq<Device>, starts: seq<Time>,
          limit: nat, s: nat)
    requires |ids| == |starts| && s <= |shuffles| && Kept(shuffles, ids, starts)
    requires limit == 0 || WithinLimit(shuffles, ids, limit)
    ensures AllContacts(q, shuffles, ids, starts, limit, s) == |ContactPairs(q, shuffles, ids, limit, s, 0)|
  {
    hide *;
    NothingCounted(q, shuffles, ids, starts, limit);
    if s > 0 {
      AllFit(shuffles, ids, limit);
      AllCounted(q, shuffles, ids, starts, limit, s - 1);
      ContactsCounted(q, shuffles, ids, starts, limit, s - 1, |ids|);
      NextShuffle(q, shuffles, ids, limit, s - 1);
      ShuffleWalked(q, shuffles, ids, starts, limit, s - 1);
    }
  }

  lemma NothingCounted(q: Query, shuffles: seq<Shuffle>, ids: seq<Device>, starts: seq<Time>, limit: nat)
    requires |ids| == |starts|
    ensures AllContacts(q, shuffles, ids, starts, limit, 0) == 0 && ContactPairs(q, shuffles, ids, limit, 0, 0) == {}
  {
    hide InContact;
  }

  /**
   contact(), on the chosen walk list and filter.  On kept shuffles it succeeds exactly when every device
   fits the limit in all shuffles but the oldest and every shuffle is stocked, and then it counts, in 32
   bits, the devices in contact, shuffle by shuffle.
   */
  method Contact(q: Query, shuffles: seq<Shuffle>, ids: seq<Device>, starts: seq<Time>, limit: nat)
    returns (ok: bool, count: nat)
    requires |ids| == |starts| && FewLookups(ids, limit)
    ensures ok <==> AllAnswered(shuffles, ids, starts, limit)
    ensures ok ==> count == AllContacts(q, shuffles, ids, starts, limit, |shuffles|) % 0x1_0000_0000
    ensures Kept(shuffles, ids, starts) ==>
              (ok <==> (limit == 0 || WithinLimit(shuffles, ids, limit)) && AllStocked(shuffles, ids, limit))
    ensures Kept(shuffles, ids, starts) && ok ==>
              count == |ContactPairs(q, shuffles, ids, limit, |shuffles|, 0)| % 0x1_0000_0000
  {
    hide *;
    if Kept(shuffles, ids, starts) {
      AnsweredExactly(shuffles, ids, starts, limit);
      if limit == 0 || WithinLimit(shuffles, ids, limit) {
        AllCounted(q, shuffles, ids, starts, limit, |shuffles|);
      }
    }
    var previous := new Time[|ids|](i requires 0 <= i < |ids| => starts[i]);
    count := 0;
    assert previous[..] == starts;
    NothingWalked(q, shuffles, ids, starts, limit);
    AddBelow(0, AllContacts(q, shuffles, ids, starts, limit, 0));
    for s := 0 to |shuffles|
      invariant previous[..] == Standing(shuffles, ids, starts, limit, s)
      invariant count == Add32(0, AllContacts(q, shuffles, ids, starts, limit, s)) && count < COUNT_VALUES
      invariant forall r :: 0 <= r < s ==>
                  ShuffleAnswered(shuffles[r], ids, Standing(shuffles, ids, starts, limit, r), limit, |ids|)
    {
      ghost var before := previous[..];
      var answered, newCount, log := WalkShuffle(q, shuffles[s], ids, previous, limit, count);
      if !answered {
        AnsweredEach(shuffles, ids, starts, limit, s);
        return false, count;
      }
      AddTwo(0, AllContacts(q, shuffles, ids, starts, limit, s), Contacts(q, shuffles[s], ids, before, limit, |ids|));
      ShuffleWalked(q, shuffles, ids, starts, limit, s);
      AddBelow(0, AllContacts(q, shuffles, ids, starts, limit, s + 1));
      count := newCount;
      assert previous[..] == Standing(shuffles, ids, starts, limit, s + 1);
    }
    AnsweredAll(shuffles, ids, starts, limit);
    AddFromZero(AllContacts(q, shuffles, ids, starts, limit, |shuffles|));
    ok := true;
  }

  lemma NothingWalked(q: Query, shuffles: seq<Shuffle>, ids: seq<Device>, starts: seq<Time>, limit: nat)
    requires |ids| == |starts|
    ensures Standing(shuffles, ids, starts, limit, 0) == starts
    ensures Add32(0, AllContacts(q, shuffles, ids, starts, limit, 0)) == 0
  {}

  lemma ShuffleWalked(q: Query, shuffles: seq<Shuffle>, ids: seq<Device>, starts: seq<Time>, limit: nat, s: nat)
    requires s < |shuffles| && |ids| == |starts|
    ensures var before := Standing(shuffles, ids, starts, limit, s);
            var after := Standing(shuffles, ids, starts, limit, s + 1);
            && (forall i :: 0 <= i < |ids| ==> after[i] == Left(shuffles[s], ids[i], before[i], limit))
            && AllContacts(q, shuffles, ids, starts, limit, s + 1)
               == AllContacts(q, shuffles, ids, starts, limit, s) + Contacts(q, shuffles[s], ids, before, limit, |ids|)
  {
    hide Left, Contacts;
  }

  lemma AnsweredEach(shuffles: seq<Shuffle>, ids: seq<Device>, starts: seq<Time>, limit: nat, s: nat)
    requires s < |shuffles| && |ids| == |starts| && FewLookups(ids, limit)
    ensures AllAnswered(shuffles, ids, starts, limit) ==>
              ShuffleAnswered(shuffles[s], ids, Standing(shuffles, ids, starts, limit, s), limit, |ids|)
  {
    hide ShuffleAnswered, Standing, FewLookups;
  }

  lemma AnsweredAll(shuffles: seq<Shuffle>, ids: seq<Device>, starts: seq<Time>, limit: nat)
    requires |ids| == |starts| && FewLookups(ids, limit)
    requires forall s :: 0 <= s < |shuffles| ==>
               ShuffleAnswered(shuffles[s], ids, Standing(shuffles, ids, starts, limit, s), limit, |ids|)
    ensures AllAnswered(shuffles, ids, starts, limit)
  {
    hide ShuffleAnswered, Standing, FewLookups;
  }

  lemma AddFromZero(b: nat)
    ensures Add32(0, b) == b % 0x1_0000_0000
  {}

  lemma AddBelow(a: nat, b: nat)
    ensures Add32(a, b) < COUNT_VALUES
  {}
}
