/**
 The shuffles the contact walk looks into are what the path store keeps: a lookup by device and time, and a
 lookup by a nonce, are answered by the store exactly as the walk's model of a shuffle answers them.
 */
module ContactStore {
  import opened Powers
  import opened Wrappers
  import opened BitVectors
  import opened Integers
  import opened ShuffleSort
  import opened Fields
  import opened PathShuffle
  import opened PathStore
  import Walk = ContactWalk

  function KeyOfEncounter(e: Encounter): (int, int) {
    (Unsigned(e[DEVICE]), Unsigned(e[TIME]))
  }

  function RecordOf(e: Encounter): Walk.Record {
    Walk.Record(Unsigned(e[ENCOUNTERED]), Unsigned(e[PREVIOUS]), e[CONFIRMED][0])
  }

  /** What the walk takes from a fetch. */
  function RecordRevealed(f: Fetched): Walk.Record {
    Walk.Record(Unsigned(f.encountered), Unsigned(f.previous), f.confirmed != [] && f.confirmed[0])
  }

  /** The encounters of a shuffle, by device and time. */
  function RecordsOf(es: seq<Encounter>): map<(int, int), Walk.Record> {
    if es == [] then map[]
    else RecordsOf(es[..|es| - 1])[KeyOfEncounter(es[|es| - 1]) := RecordOf(es[|es| - 1])]
  }

  /** The walk's shuffle for encounters stored with a number of dummies from a nonce on. */
  function ShuffleOf(es: seq<Encounter>, dummies: nat, nonce: Bits256, start: int): Walk.Shuffle {
    Walk.Shuffle(RecordsOf(es), start, nonce, dummies)
  }

  ghost predicate DistinctEncounters(es: seq<Encounter>) {
    forall i, j :: 0 <= i < j < |es| ==> LookupPart(es[i]) != LookupPart(es[j])
  }

  lemma SameKey(e: Encounter, device: Bits, timestamp: Bits)
    requires |device| == 256 && |timestamp| == 32
    ensures KeyOfEncounter(e) == (Unsigned(device), Unsigned(timestamp)) <==> LookupPart(e) == device + timestamp
  {
    if Unsigned(e[DEVICE]) == Unsigned(device) {
      UnsignedInjective(e[DEVICE], device);
    }
    if Unsigned(e[TIME]) == Unsigned(timestamp) {
      UnsignedInjective(e[TIME], timestamp);
    }
    if LookupPart(e) == device + timestamp {
      assert LookupPart(e)[..256] == e[DEVICE] && (device + timestamp)[..256] == device;
      assert LookupPart(e)[256..] == e[TIME] && (device + timestamp)[256..] == timestamp;
    }
    hide Unsigned;
  }

  lemma {:induction false} RecordAt(es: seq<Encounter>, k: nat)
    requires DistinctEncounters(es) && k < |es|
    ensures KeyOfEncounter(es[k]) in RecordsOf(es) && RecordsOf(es)[KeyOfEncounter(es[k])] == RecordOf(es[k])
  {
    hide LookupPart, RecordOf;
    var last := |es| - 1;
    if k < last {
      RecordAt(es[..last], k);
      SameKey(es[last], es[k][DEVICE], es[k][TIME]);
      LookupIs(es[k]);
    }
    hide KeyOfEncounter;
  }

  lemma LookupIs(e: Encounter)
    ensures LookupPart(e) == e[DEVICE] + e[TIME]
  {}

  lemma {:induction false} RecordFrom(es: seq<Encounter>, key: (int, int)) returns (k: nat)
    requires key in RecordsOf(es)
    ensures k < |es| && KeyOfEncounter(es[k]) == key
  {
    hide KeyOfEncounter, RecordOf;
    var last := |es| - 1;
    if KeyOfEncounter(es[last]) == key {
      k := last;
    } else {
      k := RecordFrom(es[..last], key);
    }
  }

  /** Under distinct final keys no device has two encounters at one time. */
  lemma DistinctStored(c: Crypto, es: seq<Encounter>, rest: seq<StorableEncounter>, nonce: Bits256)
    requires |rest| <= Pow2(WORD_BITS) && DistinctKeys(c, Kept(c, es, rest, nonce))
    ensures DistinctEncounters(es)
  {
    hide Pow2, Kept, KeyBits, FinalKey, StoredOf, LookupPart, Crypto.Mac;
    var kept := Kept(c, es, rest, nonce);
    forall i, j | 0 <= i < j < |es|
      ensures LookupPart(es[i]) != LookupPart(es[j])
    {
      KeptAt(c, es, rest, nonce, i);
      KeptAt(c, es, rest, nonce, j);
      StoredKey(c, es[i]);
      StoredKey(c, es[j]);
      assert FinalKey(c, KeyBits(kept[i])) != FinalKey(c, KeyBits(kept[j]));
    }
  }

  lemma StoredKey(c: Crypto, e: Encounter)
    ensures KeyBits(StoredOf(c, e)) == c.Mac(LookupPart(e))
  {
    DecryptTwice(c, e);
    hide *;
    StoredOfIs(c, e);
  }

  /** What ends up where the lookup by device and time looks was stored for that device and time. */
  ghost predicate OnlyEncountersUnder(c: Crypto, kept: seq<StorableEncounter>, es: seq<Encounter>, lookup: Bits) {
    forall j :: 0 <= j < |kept| && FinalKey(c, KeyBits(kept[j])) == FinalKey(c, c.Mac(lookup)) ==>
      j < |es| && LookupPart(es[j]) == lookup
  }

  /**
   A lookup by device and time finds what the walk's shuffle holds for them: it succeeds exactly for the
   keys of the map, and what it reveals is the record there.
   */
  lemma LookupAgrees(c: Crypto, es: seq<Encounter>, rest: seq<StorableEncounter>, nonce: Bits256, start: int,
          device: Bits, timestamp: Bits, r: Option<Fetched>)
    requires |rest| <= Pow2(WORD_BITS) && |device| == 256 && |timestamp| == 32
    requires DistinctKeys(c, Kept(c, es, rest, nonce))
    requires OnlyEncountersUnder(c, Kept(c, es, rest, nonce), es, device + timestamp)
    requires FetchResult(c, BothShuffles(c, Kept(c, es, rest, nonce)), c.Mac(device + timestamp), r)
    ensures var records, key := ShuffleOf(es, |rest|, nonce, start).records, (Unsigned(device), Unsigned(timestamp));
            && (r.Some? <==> key in records)
            && (r.Some? ==> r.value.macCorrect && RecordRevealed(r.value) == records[key])
  {
    hide *;
    var kept, lookup, key := Kept(c, es, rest, nonce), device + timestamp, (Unsigned(device), Unsigned(timestamp));
    DistinctStored(c, es, rest, nonce);
    ShuffleRecordsAre(es, |rest|, nonce, start);
    if r.Some? {
      FetchFinds(c, kept, c.Mac(lookup), r);
      var k := EndsAsEncounter(c, kept, es, lookup);
      SameKey(es[k], device, timestamp);
      RecordAt(es, k);
    }
    if key in RecordsOf(es) {
      var k := RecordFrom(es, key);
      SameKey(es[k], device, timestamp);
      KeptAt(c, es, rest, nonce, k);
      FetchReturnsStored(c, kept, k, es[k], r);
      RecordAt(es, k);
      RevealedIs(es[k]);
    }
  }

  lemma ShuffleRecordsAre(es: seq<Encounter>, dummies: nat, nonce: Bits256, start: int)
    ensures ShuffleOf(es, dummies, nonce, start).records == RecordsOf(es)
  {}

  lemma RevealedIs(e: Encounter)
    ensures var f := Revealed(e);
            f.macCorrect && RecordRevealed(f) == RecordOf(e)
  {
    hide Unsigned;
  }

  lemma EndsAsEncounter(c: Crypto, kept: seq<StorableEncounter>, es: seq<Encounter>, lookup: Bits) returns (k: nat)
    requires OnlyEncountersUnder(c, kept, es, lookup) && EndsUnder(c, kept, c.Mac(lookup))
    ensures k < |es| && LookupPart(es[k]) == lookup
  {
    hide FinalKey, KeyBits, Crypto.Mac, LookupPart;
    k :| 0 <= k < |kept| && FinalKey(c, KeyBits(kept[k])) == FinalKey(c, c.Mac(lookup));
  }

  /** A lookup by a nonce finds something exactly when the walk's shuffle has a dummy laid down under it. */
  lemma NonceAgrees(c: Crypto, es: seq<Encounter>, rest: seq<StorableEncounter>, nonce: Bits256, start: int,
          key: Bits256, r: Option<Fetched>)
    requires |rest| <= Pow2(WORD_BITS) && OnlyDummiesUnder(c, Kept(c, es, rest, nonce), |es|, key)
    requires FetchResult(c, BothShuffles(c, Kept(c, es, rest, nonce)), key, r)
    ensures r.Some? <==> ShuffleOf(es, |rest|, nonce, start).Laid(key)
  {
    hide *;
    NonceFound(c, StoredAll(c, es) + rest, |es|, nonce, key, r);
    LaidIs(es, |rest|, nonce, start, key);
  }

  lemma LaidIs(es: seq<Encounter>, dummies: nat, nonce: Bits256, start: int, key: Bits256)
    requires dummies <= Pow2(WORD_BITS)
    ensures ShuffleOf(es, dummies, nonce, start).Laid(key) <==> IsDummyKey(nonce, dummies, key)
  {
    hide Pow2, AdvancedLow, RecordsOf;
    var sh := ShuffleOf(es, dummies, nonce, start);
    if sh.Laid(key) {
      var k :| 0 <= k < dummies && k < Pow2(WORD_BITS) && AdvancedLow(nonce, WORD_BITS, k) == key;
      assert DummyKey(nonce, k) == key;
    }
    if IsDummyKey(nonce, dummies, key) {
      var k :| 0 <= k < dummies && DummyKey(nonce, k) == key;
      assert AdvancedLow(nonce, WORD_BITS, k) == key;
    }
  }
}
