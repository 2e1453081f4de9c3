/**
 The contact walk: for every shuffle and every walked device, follow the previous-pointers of the
 device's stored encounters, padding with dummy lookups to a fixed number of lookups per device.

 The shuffle store is read through its keys: PathStore shows that a fetch by device and time returns
 that encounter's own fields, and which nonces a dummy lookup finds.  The Bloom filter is an exact set.
 */
module ContactWalk {
  import opened Powers
  import opened BitVectors
  import opened Integers

  type Device = int
  type Time = int

  const NONCE_BITS: nat := 256
  const WORD_BITS: nat := 64
  const COUNT_VALUES: nat := 0x1_0000_0000

  datatype Record = Record(encountered: Device, previous: Time, confirmed: bool)

  datatype Shuffle = Shuffle(records: map<(Device, Time), Record>, start: Time, nonce: Bits256, dummies: nat) {
    /** The encounter of d at time t lies in this shuffle and after its start. */
    predicate Holds(d: Device, t: Time) {
      t > start && (d, t) in records
    }

    /** The nonce is the key of some dummy fill_dummies laid down. */
    predicate Laid(key: Bits) {
      exists k :: 0 <= k < dummies && k < Pow2(WORD_BITS) && AdvancedLow(nonce, WORD_BITS, k) == key
    }
  }

  datatype Query = Query(start: Time, end: Time, filter: set<Device>) {
    predicate Hit(sh: Shuffle, d: Device, t: Time)
      requires sh.Holds(d, t)
    {
      var r := sh.records[(d, t)];
      r.confirmed && start < t < end && r.encountered in filter
    }
  }

  datatype Lookup = Real(device: Device, time: Time) | Dummy(nonce: Bits)

  // ---- One device ----

  /** The times the walk fetches for d when it starts at t and makes n lookups. */
  function Times(sh: Shuffle, d: Device, t: Time, n: nat): (r: seq<Time>)
    ensures |r| <= n
    decreases n
  {
    if n == 0 || !sh.Holds(d, t) then [] else [t] + Times(sh, d, sh.records[(d, t)].previous, n - 1)
  }

  /** Where the walk stands after n lookups. */
  function Left(sh: Shuffle, d: Device, t: Time, n: nat): Time
    decreases n
  {
    if n == 0 || !sh.Holds(d, t) then t else Left(sh, d, sh.records[(d, t)].previous, n - 1)
  }

  /** Up to n lookups the walk never asks for an encounter the shuffle lacks. */
  predicate Unbroken(sh: Shuffle, d: Device, t: Time, n: nat)
    decreases n
  {
    n == 0 || t <= sh.start || ((d, t) in sh.records && Unbroken(sh, d, sh.records[(d, t)].previous, n - 1))
  }

  lemma {:induction false} WalkStep(sh: Shuffle, d: Device, t: Time, n: nat)
    ensures var l := Left(sh, d, t, n);
            var found := |Times(sh, d, t, n)| == n && sh.Holds(d, l);
            && Times(sh, d, t, n + 1) == Times(sh, d, t, n) + (if found then [l] else [])
            && Left(sh, d, t, n + 1) == (if found then sh.records[(d, l)].previous else l)
            && (Unbroken(sh, d, t, n + 1) <==> Unbroken(sh, d, t, n) && (l <= sh.start || (d, l) in sh.records))
            && (|Times(sh, d, t, n)| < n ==> !sh.Holds(d, l))
    decreases n
  {
    if n > 0 && sh.Holds(d, t) {
      WalkStep(sh, d, sh.records[(d, t)].previous, n - 1);
    }
  }

  lemma {:induction false} UnbrokenShrinks(sh: Shuffle, d: Device, t: Time, m: nat, n: nat)
    requires m <= n && Unbroken(sh, d, t, n)
    ensures Unbroken(sh, d, t, m)
  {
    if m < n {
      WalkStep(sh, d, t, n - 1);
      UnbrokenShrinks(sh, d, t, m, n - 1);
    }
  }

  /** Once a lookup is a dummy, all later ones are. */
  lemma {:induction false} DummiesStay(sh: Shuffle, d: Device, t: Time, m: nat, n: nat)
    requires m <= n && !sh.Holds(d, Left(sh, d, t, m))
    ensures Times(sh, d, t, n) == Times(sh, d, t, m) && Left(sh, d, t, n) == Left(sh, d, t, m)
  {
    if m < n {
      DummiesStay(sh, d, t, m, n - 1);
      WalkStep(sh, d, t, n - 1);
    }
  }

  // ---- Which encounters those are ----

  /** Every previous-pointer is earlier. */
  ghost predicate Decreasing(sh: Shuffle) {
    forall d, t :: (d, t) in sh.records ==> sh.records[(d, t)].previous < t
  }

  /** d's records are chained: each points to the next earlier one in the shuffle, or to before its start. */
  ghost predicate Chained(sh: Shuffle, d: Device) {
    forall t :: (d, t) in sh.records ==>
      var p := sh.records[(d, t)].previous;
      p < t && (p > sh.start ==> (d, p) in sh.records) && forall u :: sh.Holds(d, u) && u < t ==> u <= p
  }

  lemma {:induction false} TimesDecrease(sh: Shuffle, d: Device, t: Time, n: nat)
    requires Decreasing(sh)
    ensures forall a, b :: 0 <= a < b < |Times(sh, d, t, n)| ==> Times(sh, d, t, n)[b] < Times(sh, d, t, n)[a]
    ensures forall a :: 0 <= a < |Times(sh, d, t, n)| ==> Times(sh, d, t, n)[a] <= t
    decreases n
  {
    if n > 0 && sh.Holds(d, t) {
      TimesDecrease(sh, d, sh.records[(d, t)].previous, n - 1);
    }
  }

  /**
   Started at d's latest encounter, the walk fetches exactly d's latest encounters after the shuffle
   start, up to the limit: only encounters of d, and any it leaves out is earlier than all n it took.
   */
  lemma {:induction false} FetchesTheLatest(sh: Shuffle, d: Device, t: Time, n: nat)
    requires Chained(sh, d) && (t > sh.start ==> (d, t) in sh.records)
    requires forall u :: sh.Holds(d, u) ==> u <= t
    ensures forall u :: u in Times(sh, d, t, n) ==> sh.Holds(d, u)
    ensures forall u :: sh.Holds(d, u) && u !in Times(sh, d, t, n) ==>
              |Times(sh, d, t, n)| == n && forall v :: v in Times(sh, d, t, n) ==> u < v
    ensures Unbroken(sh, d, t, n)
    decreases n
  {
    FetchesBelow(sh, d, t, n);
  }

  lemma {:induction false} FetchesBelow(sh: Shuffle, d: Device, t: Time, n: nat)
    requires Chained(sh, d) && (t > sh.start ==> (d, t) in sh.records)
    ensures forall u :: u in Times(sh, d, t, n) ==> sh.Holds(d, u) && u <= t
    ensures forall u :: sh.Holds(d, u) && u <= t && u !in Times(sh, d, t, n) ==>
              |Times(sh, d, t, n)| == n && forall v :: v in Times(sh, d, t, n) ==> u < v
    ensures Unbroken(sh, d, t, n)
    decreases n
  {
    if n > 0 && sh.Holds(d, t) {
      var p := sh.records[(d, t)].previous;
      FetchesBelow(sh, d, p, n - 1);
      assert Times(sh, d, t, n) == [t] + Times(sh, d, p, n - 1);
    }
  }

  // ---- Dummies ----

  /** The nonce of the c-th dummy lookup in a shuffle. */
  function DummyNonce(sh: Shuffle, c: nat): (nonce: Bits256)
    requires c < Pow2(NONCE_BITS)
  {
    Advanced(sh.nonce, c)
  }

  /**
   The c-th dummy lookup finds a key laid down exactly when there are enough dummies and the low word has not
   wrapped.
   */
  lemma DummyIsLaid(sh: Shuffle, c: nat)
    requires c < Pow2(WORD_BITS)
    ensures c < Pow2(NONCE_BITS)
    ensures sh.Laid(DummyNonce(sh, c)) <==> c < sh.dummies && Unsigned(sh.nonce[..WORD_BITS]) + c < Pow2(WORD_BITS)
  {
    hide Unsigned, Pow2, Advanced, AdvancedLow;
    Pow2Order(WORD_BITS, NONCE_BITS);
    CounterReaches(sh.nonce, WORD_BITS, c, c);
    if sh.Laid(DummyNonce(sh, c)) {
      var k :| 0 <= k < sh.dummies && k < Pow2(WORD_BITS) && AdvancedLow(sh.nonce, WORD_BITS, k) == DummyNonce(sh, c);
      CounterReaches(sh.nonce, WORD_BITS, k, c);
    }
  }

  /** The first nonce at which the low word has wrapped is the key of no dummy. */
  lemma WrappedIsNotLaid(sh: Shuffle, c: nat)
    requires Unsigned(sh.nonce[..WORD_BITS]) + c == Pow2(WORD_BITS)
    ensures c < Pow2(NONCE_BITS) && !sh.Laid(DummyNonce(sh, c))
  {
    hide Unsigned, Pow2, Advanced, AdvancedLow;
    Pow2Order(WORD_BITS, NONCE_BITS);
    if sh.Laid(DummyNonce(sh, c)) {
      var k :| 0 <= k < sh.dummies && k < Pow2(WORD_BITS) && AdvancedLow(sh.nonce, WORD_BITS, k) == DummyNonce(sh, c);
      CounterReaches(sh.nonce, WORD_BITS, k, c);
    }
  }

  /** Every dummy lookup from the from-th to before the to-th finds a key. */
  ghost predicate AllLaid(sh: Shuffle, from: nat, to: nat)
    requires to <= Pow2(NONCE_BITS)
  {
    forall c :: from <= c < to ==> sh.Laid(DummyNonce(sh, c))
  }

  /** n dummies were laid down, and the low word reaches them all. */
  ghost predicate Stocked(sh: Shuffle, n: nat) {
    n <= sh.dummies && Unsigned(sh.nonce[..WORD_BITS]) + n <= Pow2(WORD_BITS)
  }

  /** The first n dummy lookups of a shuffle all find a key exactly when it is stocked for them. */
  lemma AllLaidExactly(sh: Shuffle, n: nat)
    requires n <= Pow2(NONCE_BITS)
    ensures AllLaid(sh, 0, n) <==> Stocked(sh, n)
  {
    hide Unsigned, Pow2, Shuffle.Laid, DummyNonce;
    var low := Unsigned(sh.nonce[..WORD_BITS]);
    Pow2Order(WORD_BITS, NONCE_BITS);
    if low + n > Pow2(WORD_BITS) {
      assert low < Pow2(WORD_BITS);
      WrappedIsNotLaid(sh, Pow2(WORD_BITS) - low);
    } else if n > sh.dummies {
      DummyIsLaid(sh, sh.dummies);
    } else {
      forall c | 0 <= c < n
        ensures sh.Laid(DummyNonce(sh, c))
      {
        DummyIsLaid(sh, c);
      }
    }
  }

  // ---- The lookups of one device ----

  function RealLookups(d: Device, times: seq<Time>): (r: seq<Lookup>)
    ensures |r| == |times|
  {
    seq(|times|, i requires 0 <= i < |times| => Real(d, times[i]))
  }

  function DummyLookups(sh: Shuffle, c: nat, n: nat): (r: seq<Lookup>)
    requires c + n <= Pow2(NONCE_BITS)
    ensures |r| == n
  {
    seq(n, i requires 0 <= i < n => Dummy(DummyNonce(sh, c + i)))
  }

  /** All n lookups of a device: its encounters, then dummies from the c-th on. */
  function DeviceLookups(sh: Shuffle, d: Device, t: Time, c: nat, n: nat): (r: seq<Lookup>)
    requires c + n <= Pow2(NONCE_BITS)
    ensures |r| == n
  {
    var times := Times(sh, d, t, n);
    RealLookups(d, times) + DummyLookups(sh, c, n - |times|)
  }

  ghost predicate HasContact(q: Query, sh: Shuffle, d: Device, times: seq<Time>) {
    exists i :: 0 <= i < |times| && sh.Holds(d, times[i]) && q.Hit(sh, d, times[i])
  }

  /** What the walk knows after n lookups of a device. */
  ghost predicate After(q: Query, sh: Shuffle, d: Device, t: Time, c: nat, n: nat,
                        contact: bool, previous: Time, nonce: Bits256, lookups: seq<Lookup>)
    requires c + n < Pow2(NONCE_BITS)
  {
    var times := Times(sh, d, t, n);
    && Unbroken(sh, d, t, n) && AllLaid(sh, c, c + n - |times|)
    && (contact <==> HasContact(q, sh, d, times))
    && previous == Left(sh, d, t, n)
    && nonce == DummyNonce(sh, c + n - |times|)
    && lookups == DeviceLookups(sh, d, t, c, n)
  }

  lemma ContactStep(q: Query, sh: Shuffle, d: Device, times: seq<Time>, t: Time)
    requires sh.Holds(d, t)
    ensures HasContact(q, sh, d, times + [t]) <==> HasContact(q, sh, d, times) || q.Hit(sh, d, t)
  {
    hide Query.Hit, Shuffle.Holds;
    var next := times + [t];
    assert next[|times|] == t;
    if HasContact(q, sh, d, times) {
      var i :| 0 <= i < |times| && sh.Holds(d, times[i]) && q.Hit(sh, d, times[i]);
      assert next[i] == times[i];
    }
  }

  lemma AfterReal(q: Query, sh: Shuffle, d: Device, t: Time, c: nat, n: nat,
                  contact: bool, previous: Time, nonce: Bits256, lookups: seq<Lookup>)
    requires c + n + 1 < Pow2(NONCE_BITS) && After(q, sh, d, t, c, n, contact, previous, nonce, lookups)
    requires sh.Holds(d, previous)
    ensures After(q, sh, d, t, c, n + 1, contact || q.Hit(sh, d, previous), sh.records[(d, previous)].previous, nonce,
                  lookups + [Real(d, previous)])
  {
    hide Times, Left, Unbroken, Pow2, DummyNonce, Query.Hit, HasContact;
    WalkStep(sh, d, t, n);
    var times, next := Times(sh, d, t, n), Times(sh, d, t, n + 1);
    assert next == times + [previous];
    assert RealLookups(d, next) == RealLookups(d, times) + [Real(d, previous)];
    ContactStep(q, sh, d, times, previous);
  }

  lemma DummyLookupsNext(sh: Shuffle, c: nat, n: nat)
    requires c + n < Pow2(NONCE_BITS)
    ensures DummyLookups(sh, c, n + 1) == DummyLookups(sh, c, n) + [Dummy(DummyNonce(sh, c + n))]
    ensures AllLaid(sh, c, c + n + 1) <==> AllLaid(sh, c, c + n) && sh.Laid(DummyNonce(sh, c + n))
    ensures c + n + 1 < Pow2(NONCE_BITS) ==> Advanced(DummyNonce(sh, c + n), 1) == DummyNonce(sh, c + n + 1)
  {
    hide Pow2, Shuffle.Laid, Advanced;
    if c + n + 1 < Pow2(NONCE_BITS) {
      AdvanceOnce(sh.nonce, c + n);
    }
  }

  lemma AfterDummy(q: Query, sh: Shuffle, d: Device, t: Time, c: nat, n: nat,
                   contact: bool, previous: Time, nonce: Bits256, lookups: seq<Lookup>)
    requires c + n + 1 < Pow2(NONCE_BITS) && After(q, sh, d, t, c, n, contact, previous, nonce, lookups)
    requires previous <= sh.start && sh.Laid(nonce)
    ensures After(q, sh, d, t, c, n + 1, contact, previous, Advanced(nonce, 1), lookups + [Dummy(nonce)])
  {
    hide Times, Left, Unbroken, Pow2, DummyNonce, Advanced, HasContact, Shuffle.Laid, AllLaid, DummyLookups,
        RealLookups;
    WalkStep(sh, d, t, n);
    assert Times(sh, d, t, n + 1) == Times(sh, d, t, n);
    DummyLookupsNext(sh, c, n - |Times(sh, d, t, n)|);
    assert DeviceLookups(sh, d, t, c, n + 1) == DeviceLookups(sh, d, t, c, n) + [Dummy(nonce)];
  }

  /** Whether all n lookups of a device can be answered. */
  ghost predicate Answered(sh: Shuffle, d: Device, t: Time, c: nat, n: nat)
    requires c + n < Pow2(NONCE_BITS)
  {
    Unbroken(sh, d, t, n) && AllLaid(sh, c, c + n - |Times(sh, d, t, n)|)
  }

  /** A lookup that fails leaves the device unanswered, however many lookups were still to come. */
  lemma FailureStays(q: Query, sh: Shuffle, d: Device, t: Time, c: nat, m: nat, n: nat,
                     contact: bool, previous: Time, nonce: Bits256, lookups: seq<Lookup>)
    requires c + n < Pow2(NONCE_BITS) && m < n && After(q, sh, d, t, c, m, contact, previous, nonce, lookups)
    requires if previous > sh.start then (d, previous) !in sh.records else !sh.Laid(nonce)
    ensures !Answered(sh, d, t, c, n)
  {
    hide Times, Left, Unbroken, Pow2, DummyNonce, HasContact, Shuffle.Laid, DeviceLookups;
    WalkStep(sh, d, t, m);
    DummiesStay(sh, d, t, m, n);
    if Unbroken(sh, d, t, n) {
      UnbrokenShrinks(sh, d, t, m + 1, n);
    }
  }

  /** A lookup in the shuffle; what a dummy decrypts to is arbitrary. */
  method Fetch(sh: Shuffle, lookup: Lookup) returns (found: bool, r: Record)
    ensures lookup.Real? ==> (found <==> (lookup.device, lookup.time) in sh.records)
    ensures lookup.Real? && found ==> r == sh.records[(lookup.device, lookup.time)]
    ensures lookup.Dummy? ==> (found <==> sh.Laid(lookup.nonce))
  {
    r := *;
    match lookup
    case Real(d, t) =>
      found := (d, t) in sh.records;
      if found {
        r := sh.records[(d, t)];
      }
    case Dummy(nonce) =>
      found := sh.Laid(nonce);
  }

  /** The inner loop: limit lookups for one device, stopping at the first that fails. */
  method WalkDevice(q: Query, sh: Shuffle, d: Device, t: Time, startNonce: Bits256, limit: nat, ghost c: nat)
    returns (ok: bool, contact: bool, previous: Time, nonce: Bits256, ghost lookups: seq<Lookup>)
    requires c + limit < Pow2(NONCE_BITS) && startNonce == DummyNonce(sh, c)
    ensures ok <==> Answered(sh, d, t, c, limit)
    ensures ok ==> After(q, sh, d, t, c, limit, contact, previous, nonce, lookups)
  {
    hide After, Answered, DummyNonce, Pow2, Shuffle.Laid, Advanced;
    ok, contact, previous, nonce, lookups := true, false, t, startNonce, [];
    AfterNone(q, sh, d, t, c, startNonce);
    for j := 0 to limit
      invariant After(q, sh, d, t, c, j, contact, previous, nonce, lookups)
    {
      var fetchDummy := sh.start >= previous;
      var lookup := if fetchDummy then Dummy(nonce) else Real(d, previous);
      var found, r := Fetch(sh, lookup);
      if !found {
        FailureStays(q, sh, d, t, c, j, limit, contact, previous, nonce, lookups);
        ok := false;
        return;
      }
      NoncesRemain();
      if fetchDummy {
        AfterDummy(q, sh, d, t, c, j, contact, previous, nonce, lookups);
      } else {
        AfterReal(q, sh, d, t, c, j, contact, previous, nonce, lookups);
      }
      var inWindow := q.start < previous && previous < q.end;
      contact := contact || (!fetchDummy && r.confirmed && inWindow && r.encountered in q.filter);
      previous := if fetchDummy then previous else r.previous;
      nonce := if fetchDummy then Advanced(nonce, 1) else nonce;
      lookups := lookups + [lookup];
    }
    AfterAnswers(q, sh, d, t, c, limit, contact, previous, nonce, lookups);
  }

  lemma NoncesRemain()
    ensures 1 < Pow2(NONCE_BITS)
  {
    Pow2Order(0, NONCE_BITS);
    assert Pow2(0) == 1;
    hide Pow2;
  }

  lemma AfterNone(q: Query, sh: Shuffle, d: Device, t: Time, c: nat, nonce: Bits256)
    requires c < Pow2(NONCE_BITS) && nonce == DummyNonce(sh, c)
    ensures After(q, sh, d, t, c, 0, false, t, nonce, [])
  {
    hide Pow2, DummyNonce, Shuffle.Laid;
  }

  lemma AfterAnswers(q: Query, sh: Shuffle, d: Device, t: Time, c: nat, n: nat,
                     contact: bool, previous: Time, nonce: Bits256, lookups: seq<Lookup>)
    requires c + n < Pow2(NONCE_BITS) && After(q, sh, d, t, c, n, contact, previous, nonce, lookups)
    ensures Answered(sh, d, t, c, n)
  {
    hide Pow2, AllLaid, Times, Unbroken;
  }

  // ---- One shuffle ----

  /** Dummy lookups made for the first i devices. */
  function DummiesUsed(sh: Shuffle, ids: seq<Device>, starts: seq<Time>, limit: nat, i: nat): (c: nat)
    requires i <= |ids| == |starts|
  {
    if i == 0 then 0
    else DummiesUsed(sh, ids, starts, limit, i - 1) + limit - |Times(sh, ids[i - 1], starts[i - 1], limit)|
  }

  /** There are fewer lookups in a shuffle than nonces. */
  predicate FewLookups(ids: seq<Device>, limit: nat) {
    |ids| * limit < Pow2(NONCE_BITS)
  }

  lemma {:induction false} DummiesBounded(sh: Shuffle, ids: seq<Device>, starts: seq<Time>, limit: nat, i: nat)
    requires i <= |ids| == |starts|
    ensures DummiesUsed(sh, ids, starts, limit, i) <= i * limit
  {
    hide Times;
    if i > 0 {
      DummiesBounded(sh, ids, starts, limit, i - 1);
      assert i * limit == (i - 1) * limit + limit;
    }
  }

  lemma NoncesSuffice(sh: Shuffle, ids: seq<Device>, starts: seq<Time>, limit: nat, i: nat)
    requires i < |ids| == |starts| && FewLookups(ids, limit)
    ensures DummiesUsed(sh, ids, starts, limit, i) + limit < Pow2(NONCE_BITS)
  {
    hide Pow2, Times, DummiesUsed;
    DummiesBounded(sh, ids, starts, limit, i);
    assert (i + 1) * limit <= |ids| * limit;
  }

  /** All lookups made for the first i devices, in order. */
  ghost function ShuffleLookups(sh: Shuffle, ids: seq<Device>, starts: seq<Time>, limit: nat, i: nat): seq<Lookup>
    requires i <= |ids| == |starts| && FewLookups(ids, limit)
  {
    if i == 0 then []
    else
      NoncesSuffice(sh, ids, starts, limit, i - 1);
      ShuffleLookups(sh, ids, starts, limit, i - 1)
      + DeviceLookups(sh, ids[i - 1], starts[i - 1], DummiesUsed(sh, ids, starts, limit, i - 1), limit)
  }

  /** The lookups of the first i devices can all be answered. */
  ghost predicate ShuffleAnswered(sh: Shuffle, ids: seq<Device>, starts: seq<Time>, limit: nat, i: nat)
    requires i <= |ids| == |starts| && FewLookups(ids, limit)
  {
    i == 0
    || (NoncesSuffice(sh, ids, starts, limit, i - 1);
        ShuffleAnswered(sh, ids, starts, limit, i - 1)
        && Answered(sh, ids[i - 1], starts[i - 1], DummiesUsed(sh, ids, starts, limit, i - 1), limit))
  }

  lemma {:induction false} AnsweredShrinks(sh: Shuffle, ids: seq<Device>, starts: seq<Time>, limit: nat, i: nat, n: nat)
    requires i <= n <= |ids| == |starts| && FewLookups(ids, limit) && ShuffleAnswered(sh, ids, starts, limit, n)
    ensures ShuffleAnswered(sh, ids, starts, limit, i)
  {
    hide Answered, FewLookups, DummiesUsed;
    if i < n {
      AnsweredShrinks(sh, ids, starts, limit, i, n - 1);
    }
  }

  /** How many of the first i devices had contact in this shuffle. */
  ghost function Contacts(q: Query, sh: Shuffle, ids: seq<Device>, starts: seq<Time>, limit: nat, i: nat): nat
    requires i <= |ids| == |starts|
  {
    if i == 0 then 0
    else Contacts(q, sh, ids, starts, limit, i - 1)
         + if HasContact(q, sh, ids[i - 1], Times(sh, ids[i - 1], starts[i - 1], limit)) then 1 else 0
  }

  function Add32(a: nat, b: nat): nat {
    (a + b) % COUNT_VALUES
  }

  lemma AddAgain(a: nat, b: nat)
    ensures Add32(Add32(a, b), 1) == Add32(a, b + 1)
    ensures Add32(Add32(a, b), 0) == Add32(a, b)
  {}

  lemma AddNone(a: nat)
    requires a < COUNT_VALUES
    ensures Add32(a, 0) == a
  {}

  lemma AddTwo(a: nat, b: nat, c: nat)
    ensures Add32(Add32(a, b), c) == Add32(a, b + c)
  {}

  lemma ShuffleStep(q: Query, sh: Shuffle, ids: seq<Device>, starts: seq<Time>, limit: nat, i: nat)
    requires i < |ids| == |starts| && FewLookups(ids, limit)
    ensures var c := DummiesUsed(sh, ids, starts, limit, i);
            && c + limit < Pow2(NONCE_BITS)
            && DummiesUsed(sh, ids, starts, limit, i + 1) == c + limit - |Times(sh, ids[i], starts[i], limit)|
            && ShuffleLookups(sh, ids, starts, limit, i + 1)
               == ShuffleLookups(sh, ids, starts, limit, i) + DeviceLookups(sh, ids[i], starts[i], c, limit)
            && (ShuffleAnswered(sh, ids, starts, limit, i + 1) <==>
                ShuffleAnswered(sh, ids, starts, limit, i) && Answered(sh, ids[i], starts[i], c, limit))
            && Contacts(q, sh, ids, starts, limit, i + 1)
               == Contacts(q, sh, ids, starts, limit, i)
                  + if HasContact(q, sh, ids[i], Times(sh, ids[i], starts[i], limit)) then 1 else 0
  {
    hide Times, Answered, HasContact, DeviceLookups, FewLookups, Pow2;
    NoncesSuffice(sh, ids, starts, limit, i);
  }

  lemma AfterMeans(q: Query, sh: Shuffle, d: Device, t: Time, c: nat, n: nat,
                   contact: bool, previous: Time, nonce: Bits256, lookups: seq<Lookup>)
    requires c + n < Pow2(NONCE_BITS) && After(q, sh, d, t, c, n, contact, previous, nonce, lookups)
    ensures (contact <==> HasContact(q, sh, d, Times(sh, d, t, n))) && previous == Left(sh, d, t, n)
    ensures c + n - |Times(sh, d, t, n)| < Pow2(NONCE_BITS) && nonce == DummyNonce(sh, c + n - |Times(sh, d, t, n)|)
    ensures lookups == DeviceLookups(sh, d, t, c, n)
  {
    hide Pow2, AllLaid, Times, Unbroken, HasContact, DummyNonce, Left, DeviceLookups;
  }

  lemma ShuffleStart(q: Query, sh: Shuffle, ids: seq<Device>, starts: seq<Time>, limit: nat)
    requires |ids| == |starts| && FewLookups(ids, limit)
    ensures DummiesUsed(sh, ids, starts, limit, 0) == 0 && ShuffleLookups(sh, ids, starts, limit, 0) == []
    ensures ShuffleAnswered(sh, ids, starts, limit, 0) && Contacts(q, sh, ids, starts, limit, 0) == 0
    ensures 0 < Pow2(NONCE_BITS) && sh.nonce == DummyNonce(sh, 0)
  {
    hide Pow2, Advanced, FewLookups;
    AdvanceNone(sh.nonce);
  }

  /**
   The loop over the devices in one shuffle.  It succeeds exactly when every lookup can be answered;
   then each device stands where its own walk left it, and the count has grown by the devices with contact.
   */
  method WalkShuffle(q: Query, sh: Shuffle, ids: seq<Device>, previous: array<Time>, limit: nat, count0: nat)
    returns (ok: bool, count: nat, ghost log: seq<Lookup>)
    requires |ids| == previous.Length && FewLookups(ids, limit) && count0 < COUNT_VALUES
    modifies previous
    ensures ok <==> ShuffleAnswered(sh, ids, old(previous[..]), limit, |ids|)
    ensures ok ==> forall i :: 0 <= i < |ids| ==> previous[i] == Left(sh, ids[i], old(previous[i]), limit)
    ensures ok ==> count == Add32(count0, Contacts(q, sh, ids, old(previous[..]), limit, |ids|))
    ensures ok ==> log == ShuffleLookups(sh, ids, old(previous[..]), limit, |ids|)
  {
    hide *;
    ghost var starts := previous[..];
    var nonce := sh.nonce;
    ok, count, log := true, count0, [];
    AddNone(count0);
    ShuffleStart(q, sh, ids, starts, limit);
    for i := 0 to |ids|
      invariant forall k :: 0 <= k < i ==> previous[k] == Left(sh, ids[k], starts[k], limit)
      invariant forall k :: i <= k < |ids| ==> previous[k] == starts[k]
      invariant ShuffleAnswered(sh, ids, starts, limit, i)
      invariant DummiesUsed(sh, ids, starts, limit, i) < Pow2(NONCE_BITS)
      invariant nonce == DummyNonce(sh, DummiesUsed(sh, ids, starts, limit, i))
      invariant count == Add32(count0, Contacts(q, sh, ids, starts, limit, i))
      invariant log == ShuffleLookups(sh, ids, starts, limit, i)
    {
      ghost var c := DummiesUsed(sh, ids, starts, limit, i);
      ShuffleStep(q, sh, ids, starts, limit, i);
      var answered, contact, last, next, lookups := WalkDevice(q, sh, ids[i], previous[i], nonce, limit, c);
      if !answered {
        if ShuffleAnswered(sh, ids, starts, limit, |ids|) {
          AnsweredShrinks(sh, ids, starts, limit, i + 1, |ids|);
        }
        ok := false;
        return;
      }
      AfterMeans(q, sh, ids[i], starts[i], c, limit, contact, last, next, lookups);
      AddAgain(count0, Contacts(q, sh, ids, starts, limit, i));
      count := if contact then Add32(count, 1) else count;
      previous[i], nonce, log := last, next, log + lookups;
    }
  }

  // ---- No key twice ----

  ghost predicate NoRepeats(log: seq<Lookup>) {
    forall a, b :: 0 <= a < b < |log| ==> log[a] != log[b]
  }

  /** A lookup for one of the first i devices, or one of the first c dummies. */
  ghost predicate Made(sh: Shuffle, ids: seq<Device>, i: nat, c: nat, x: Lookup)
    requires i <= |ids| && c <= Pow2(NONCE_BITS)
  {
    match x
    case Real(d, _) => d in ids[..i]
    case Dummy(nonce) => exists k :: 0 <= k < c && DummyNonce(sh, k) == nonce
  }

  lemma JoinNoRepeats(a: seq<Lookup>, b: seq<Lookup>)
    requires NoRepeats(a) && NoRepeats(b) && forall x :: x in a ==> x !in b
    ensures NoRepeats(a + b)
  {
    forall i, j | 0 <= i < j < |a + b|
      ensures (a + b)[i] != (a + b)[j]
    {
      assert i < |a| <= j ==> a[i] in a && b[j - |a|] in b;
    }
  }

  lemma DummiesNoRepeats(sh: Shuffle, c: nat, n: nat)
    requires c + n <= Pow2(NONCE_BITS)
    ensures NoRepeats(DummyLookups(sh, c, n))
  {
    hide Pow2, Advanced;
    var log := DummyLookups(sh, c, n);
    forall i, j | 0 <= i < j < |log|
      ensures log[i] != log[j]
    {
      AdvancedDistinct(sh.nonce, c + i, c + j);
      assert log[i] == Dummy(DummyNonce(sh, c + i)) && log[j] == Dummy(DummyNonce(sh, c + j));
    }
  }

  lemma DeviceNoRepeats(sh: Shuffle, d: Device, t: Time, c: nat, n: nat)
    requires Decreasing(sh) && c + n <= Pow2(NONCE_BITS)
    ensures NoRepeats(DeviceLookups(sh, d, t, c, n))
  {
    hide Times, Pow2, DummyNonce, Decreasing;
    TimesDecrease(sh, d, t, n);
    var times := Times(sh, d, t, n);
    DummiesNoRepeats(sh, c, n - |times|);
    JoinNoRepeats(RealLookups(d, times), DummyLookups(sh, c, n - |times|));
  }

  /** What one device looks up is new: no earlier device had its id, no earlier dummy had these nonces. */
  lemma DeviceLookupsNew(sh: Shuffle, ids: seq<Device>, i: nat, t: Time, c: nat, n: nat, x: Lookup)
    requires i < |ids| && ids[i] !in ids[..i] && c + n <= Pow2(NONCE_BITS)
    requires x in DeviceLookups(sh, ids[i], t, c, n)
    ensures !Made(sh, ids, i, c, x)
    ensures Made(sh, ids, i + 1, c + n - |Times(sh, ids[i], t, n)|, x)
  {
    hide Times, Pow2, Advanced;
    var m := |Times(sh, ids[i], t, n)|;
    var p :| 0 <= p < n && DeviceLookups(sh, ids[i], t, c, n)[p] == x;
    if p < m {
      assert ids[..i + 1][i] == ids[i];
    } else {
      assert x == Dummy(DummyNonce(sh, c + (p - m)));
      forall k | 0 <= k < c
        ensures DummyNonce(sh, k) != DummyNonce(sh, c + (p - m))
      {
        AdvancedDistinct(sh.nonce, k, c + (p - m));
      }
    }
  }

  lemma MadeGrows(sh: Shuffle, ids: seq<Device>, i: nat, c: nat, j: nat, e: nat, x: Lookup)
    requires i <= j <= |ids| && c <= e <= Pow2(NONCE_BITS) && Made(sh, ids, i, c, x)
    ensures Made(sh, ids, j, e, x)
  {
    hide Pow2, DummyNonce;
    if x.Real? {
      var p :| 0 <= p < i && ids[p] == x.device;
      assert ids[..j][p] == x.device;
    }
  }

  lemma NothingRepeats()
    ensures NoRepeats([])
  {}

  lemma {:induction false} LookupsMade(sh: Shuffle, ids: seq<Device>, starts: seq<Time>, limit: nat, i: nat)
    requires i <= |ids| == |starts| && FewLookups(ids, limit) && Decreasing(sh)
    requires forall a, b :: 0 <= a < b < |ids| ==> ids[a] != ids[b]
    ensures DummiesUsed(sh, ids, starts, limit, i) <= Pow2(NONCE_BITS)
    ensures forall x :: x in ShuffleLookups(sh, ids, starts, limit, i) ==>
              Made(sh, ids, i, DummiesUsed(sh, ids, starts, limit, i), x)
    ensures NoRepeats(ShuffleLookups(sh, ids, starts, limit, i))
  {
    hide *;
    NothingRepeats();
    ShuffleStart(Query(0, 0, {}), sh, ids, starts, limit);
    if i > 0 {
      ShuffleStep(Query(0, 0, {}), sh, ids, starts, limit, i - 1);
      LookupsMade(sh, ids, starts, limit, i - 1);
      var c, e := DummiesUsed(sh, ids, starts, limit, i - 1), DummiesUsed(sh, ids, starts, limit, i);
      var before := ShuffleLookups(sh, ids, starts, limit, i - 1);
      var now := DeviceLookups(sh, ids[i - 1], starts[i - 1], c, limit);
      DeviceNoRepeats(sh, ids[i - 1], starts[i - 1], c, limit);
      forall x | x in before
        ensures Made(sh, ids, i, e, x)
      {
        MadeGrows(sh, ids, i - 1, c, i, e, x);
      }
      forall x | x in now
        ensures !Made(sh, ids, i - 1, c, x) && Made(sh, ids, i, e, x)
      {
        DeviceLookupsNew(sh, ids, i - 1, starts[i - 1], c, limit, x);
      }
      JoinNoRepeats(before, now);
    }
  }

  /** With distinct device ids and decreasing previous-pointers, no key is looked up twice within a shuffle. */
  lemma NoKeyTwice(sh: Shuffle, ids: seq<Device>, starts: seq<Time>, limit: nat)
    requires |ids| == |starts| && FewLookups(ids, limit) && Decreasing(sh)
    requires forall a, b :: 0 <= a < b < |ids| ==> ids[a] != ids[b]
    ensures NoRepeats(ShuffleLookups(sh, ids, starts, limit, |ids|))
  {
    hide *;
    LookupsMade(sh, ids, starts, limit, |ids|);
  }

  // ---- Exactly when a shuffle's lookups can all be answered ----

  /** No device's walk asks for an encounter the shuffle lacks, and there is a dummy for every other lookup. */
  lemma {:induction false} ShuffleAnsweredExactly(sh: Shuffle, ids: seq<Device>, starts: seq<Time>, limit: nat, i: nat)
    requires i <= |ids| == |starts| && FewLookups(ids, limit)
    ensures ShuffleAnswered(sh, ids, starts, limit, i) <==>
              (forall k :: 0 <= k < i ==> Unbroken(sh, ids[k], starts[k], limit))
              && Stocked(sh, DummiesUsed(sh, ids, starts, limit, i))
  {
    hide *;
    var none := Query(0, 0, {});
    ShuffleStart(none, sh, ids, starts, limit);
    if i == 0 {
      StockedForNone(sh);
    } else {
      ShuffleStep(none, sh, ids, starts, limit, i - 1);
      ShuffleAnsweredExactly(sh, ids, starts, limit, i - 1);
      var c, e := DummiesUsed(sh, ids, starts, limit, i - 1), DummiesUsed(sh, ids, starts, limit, i);
      AnsweredIs(sh, ids[i - 1], starts[i - 1], c, limit);
      AllLaidExactly(sh, c);
      AllLaidExactly(sh, e);
      LaidInTwoParts(sh, c, e);
    }
  }

  lemma StockedForNone(sh: Shuffle)
    ensures Stocked(sh, 0)
  {
    hide Pow2;
  }

  lemma AnsweredIs(sh: Shuffle, d: Device, t: Time, c: nat, n: nat)
    requires c + n < Pow2(NONCE_BITS)
    ensures Answered(sh, d, t, c, n) <==> Unbroken(sh, d, t, n) && AllLaid(sh, c, c + n - |Times(sh, d, t, n)|)
  {
    hide Pow2, AllLaid, Unbroken, Times;
  }

  lemma LaidInTwoParts(sh: Shuffle, c: nat, e: nat)
    requires c <= e <= Pow2(NONCE_BITS)
    ensures AllLaid(sh, 0, e) <==> AllLaid(sh, 0, c) && AllLaid(sh, c, e)
  {
    hide Pow2, Shuffle.Laid, DummyNonce;
  }

  /** Every device's walk starts at its latest encounter in the shuffle, if that lies after the shuffle start. */
  ghost predicate Linked(sh: Shuffle, ids: seq<Device>, starts: seq<Time>)
    requires |ids| == |starts|
  {
    forall i :: 0 <= i < |ids| ==>
      && Chained(sh, ids[i]) && (starts[i] > sh.start ==> (ids[i], starts[i]) in sh.records)
      && forall u :: sh.Holds(ids[i], u) ==> u <= starts[i]
  }

  /** On linked devices the dummies alone decide. */
  lemma ShuffleSucceeds(sh: Shuffle, ids: seq<Device>, starts: seq<Time>, limit: nat)
    requires |ids| == |starts| && FewLookups(ids, limit) && Linked(sh, ids, starts)
    ensures ShuffleAnswered(sh, ids, starts, limit, |ids|) <==> Stocked(sh, DummiesUsed(sh, ids, starts, limit, |ids|))
  {
    hide FewLookups, ShuffleAnswered, Stocked, Unbroken, DummiesUsed, Times, Chained, Shuffle.Holds;
    forall i | 0 <= i < |ids|
      ensures Unbroken(sh, ids[i], starts[i], limit)
    {
      FetchesTheLatest(sh, ids[i], starts[i], limit);
    }
    ShuffleAnsweredExactly(sh, ids, starts, limit, |ids|);
  }
}
