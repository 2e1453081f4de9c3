/**
 The operations of the path store: storing encounters under their lookup keys, laying down dummies,
 the two shuffles, and fetching an encounter back.  The network delivers what was sent.
 */
module PathStore {
  import opened Powers
  import opened Wrappers
  import opened BitVectors
  import opened Integers
  import opened Network
  import opened ShuffleSort
  import opened ShuffleStore
  import opened Fields
  import opened PathShuffle

  const WORD_BITS: nat := 64

  // ---- Storing ----

  /** The order names every field a lookup or a fetch needs. */
  predicate Covers(order: seq<FieldName>) {
    && DEVICE in order && TIME in order
    && ENCOUNTERED in order && PREVIOUS in order && DURATION in order && CONFIRMED in order
  }

  /** The integer begins with the fields of e in the given order. */
  predicate Holds(input: Bits, e: Encounter, order: seq<FieldName>) {
    Packed(e, order, |order|) <= input
  }

  /** Some encounter whose lookup and secret parts stand in the two buffers. */
  ghost function Buffered(hashMe: Bits, encryptMe: Bits): (e: Encounter)
    requires |hashMe| == LOOKUP_BITS && |encryptMe| == ENCRYPTED_BITS
    ensures LookupPart(e) == hashMe && SecretPart(e) == encryptMe
  {
    var e := [[], seq(256, _ => false), hashMe[..256], encryptMe[..256], seq(32, _ => false), seq(32, _ => false),
              seq(32, _ => false), hashMe[256..288], encryptMe[256..288], seq(32, _ => false),
              encryptMe[288..304], encryptMe[304..312], [false]];
    assert hashMe == hashMe[..256] + hashMe[256..288];
    assert encryptMe == encryptMe[..256] + encryptMe[256..288] + encryptMe[288..304] + encryptMe[304..312];
    e
  }

  /** Copies the fields a lookup or a fetch needs from the integer into the two buffers. */
  method Transfer(input: Bits, fields: seq<FieldName>, hashMe: array<bool>, encryptMe: array<bool>)
    requires |fields| == 12 && Cursor(Order(fields), 12) <= |input|
    requires hashMe.Length == LOOKUP_BITS && encryptMe.Length == ENCRYPTED_BITS
    modifies hashMe, encryptMe
    ensures var u := Unpacked(input, Order(fields), 12, Buffered(old(hashMe[..]), old(encryptMe[..])));
            hashMe[..] == LookupPart(u) && encryptMe[..] == SecretPart(u)
  {
    var order := Order(fields);
    ghost var start := Buffered(hashMe[..], encryptMe[..]);
    ghost var u := start;
    var i := 0;
    hide Buffered;
    for n := 0 to 12
      invariant i == Cursor(order, n) <= |input|
      invariant u == Unpacked(input, order, n, start)
      invariant hashMe[..] == LookupPart(u) && encryptMe[..] == SecretPart(u)
    {
      CursorMonotone(order, n + 1, 12);
      TransferField(input, order[n], i, hashMe, encryptMe, u);
      u := UnpackedField(input, i, order[n], u);
      i := i + Width(order[n]);
    }
  }

  /** What a field changes in the lookup part and in the secret part, at its place there. */
  lemma FieldParts(input: Bits, field: FieldName, i: nat, u: Encounter)
    requires i + Width(field) <= |input|
    ensures Width(DEVICE) == Width(ENCOUNTERED) == 256 && Width(TIME) == Width(PREVIOUS) == 32
    ensures Width(DURATION) == 16 && Width(CONFIRMED) == 8
    ensures var l, s, v := LookupPart(u), SecretPart(u), input[i..i + Width(field)];
            && LookupPart(UnpackedField(input, i, field, u))
               == (if field == DEVICE then Placed(l, 0, v) else if field == TIME then Placed(l, 256, v) else l)
            && SecretPart(UnpackedField(input, i, field, u))
               == (if field == ENCOUNTERED then Placed(s, 0, v)
                   else if field == PREVIOUS then Placed(s, 256, v)
                   else if field == DURATION then Placed(s, 288, v)
                   else if field == CONFIRMED then Placed(s, 304, v) else s)
  {
    LookupFields(u, UnpackedField(input, i, field, u), field);
    SecretFields(u, UnpackedField(input, i, field, u), field);
    hide LookupPart, SecretPart, UnpackedField, Placed;
  }

  lemma LookupFields(u: Encounter, w: Encounter, field: FieldName)
    requires forall g :: 0 <= g < FIELDS && g != field ==> w[g] == u[g]
    ensures var l := LookupPart(u);
            LookupPart(w) == if field == DEVICE then Placed(l, 0, w[DEVICE])
                             else if field == TIME then Placed(l, 256, w[TIME]) else l
  {}

  lemma SecretFields(u: Encounter, w: Encounter, field: FieldName)
    requires forall g :: 0 <= g < FIELDS && g != field ==> w[g] == u[g]
    ensures var s := SecretPart(u);
            SecretPart(w) == if field == ENCOUNTERED then Placed(s, 0, w[ENCOUNTERED])
                             else if field == PREVIOUS then Placed(s, 256, w[PREVIOUS])
                             else if field == DURATION then Placed(s, 288, w[DURATION])
                             else if field == CONFIRMED then Placed(s, 304, w[CONFIRMED]) else s
  {}

  /** One case of the switch. */
  method TransferField(input: Bits, field: FieldName, i: nat, hashMe: array<bool>, encryptMe: array<bool>,
          ghost u: Encounter)
    requires i + Width(field) <= |input|
    requires hashMe.Length == LOOKUP_BITS && encryptMe.Length == ENCRYPTED_BITS
    requires hashMe[..] == LookupPart(u) && encryptMe[..] == SecretPart(u)
    modifies hashMe, encryptMe
    ensures hashMe[..] == LookupPart(UnpackedField(input, i, field, u))
    ensures encryptMe[..] == SecretPart(UnpackedField(input, i, field, u))
  {
    hide UnpackedField, LookupPart, SecretPart, Width, Placed;
    FieldParts(input, field, i, u);
    if field == DEVICE {
      WriteBits(hashMe, 0, input[i..i + 256]);
    } else if field == ENCOUNTERED {
      WriteBits(encryptMe, 0, input[i..i + 256]);
    } else if field == TIME {
      WriteBits(hashMe, 256, input[i..i + 32]);
    } else if field == PREVIOUS {
      WriteBits(encryptMe, 256, input[i..i + 32]);
    } else if field == DURATION {
      WriteBits(encryptMe, 288, input[i..i + 16]);
    } else if field == CONFIRMED {
      WriteBits(encryptMe, 304, input[i..i + 8]);
    }
  }

  /** Reading an integer that holds e brings exactly e's parts into the buffers, whatever stood there. */
  lemma CoveredParts(input: Bits, order: seq<FieldName>, e: Encounter, into: Encounter)
    requires |order| == 12 && Covers(order) && Holds(input, e, order)
    ensures Cursor(order, 12) <= |input|
    ensures LookupPart(Unpacked(input, order, 12, into)) == LookupPart(e)
    ensures SecretPart(Unpacked(input, order, 12, into)) == SecretPart(e)
  {
    assert order[..12] == order;
    UnpackOfPacked(e, order, 12, input, into, DEVICE);
    UnpackOfPacked(e, order, 12, input, into, TIME);
    UnpackOfPacked(e, order, 12, input, into, ENCOUNTERED);
    UnpackOfPacked(e, order, 12, input, into, PREVIOUS);
    UnpackOfPacked(e, order, 12, input, into, DURATION);
    UnpackOfPacked(e, order, 12, input, into, CONFIRMED);
    hide Unpacked, Packed, Holds, Cursor;
  }

  /** aes_128_ctr() over a buffer. */
  method CtrInPlace(c: Crypto, secret: Bits256, iv: Bits256, data: array<bool>)
    modifies data
    ensures data[..] == c.Ctr(secret, iv, old(data[..]))
  {
    var stream := c.pad(secret[..128], iv[..128]);
    for j := 0 to data.Length
      invariant forall k :: 0 <= k < j ==> data[k] == (old(data[k]) != stream(k))
      invariant forall k :: j <= k < data.Length ==> data[k] == old(data[k])
    {
      data[j] := data[j] != stream(j);
    }
  }

  /** The first n integers each hold the corresponding encounter. */
  ghost predicate AllHold(inputs: seq<Bits>, es: seq<Encounter>, order: seq<FieldName>) {
    |es| == |inputs| && forall k :: 0 <= k < |es| ==> Holds(inputs[k], es[k], order)
  }

  function StoredOf(c: Crypto, e: Encounter): StorableEncounter {
    Stored(c, LookupPart(e), SecretPart(e))
  }

  function StoredAll(c: Crypto, es: seq<Encounter>): (r: seq<StorableEncounter>)
    ensures |r| == |es|
  {
    seq(|es|, k requires 0 <= k < |es| => StoredOf(c, es[k]))
  }

  /** What a round leaves in a record: the key in any case, the data only if the equality check of the key passed. */
  function Written(c: Crypto, e: Encounter, checked: bool, before: StorableEncounter): StorableEncounter {
    if checked then StoredOf(c, e) else before.(key := VecOf(c.Mac(LookupPart(e))))
  }

  /** One round of store_path_encounter()'s loop; both buffers carry over from the round before. */
  method StoreOne(c: Crypto, input: Bits, fields: seq<FieldName>, hashMe: array<bool>, encryptMe: array<bool>,
          checked: bool, before: StorableEncounter, ghost e: Encounter)
    returns (stored: StorableEncounter)
    requires |fields| == 12 && Cursor(Order(fields), 12) <= |input|
    requires hashMe.Length == LOOKUP_BITS && encryptMe.Length == ENCRYPTED_BITS
    modifies hashMe, encryptMe
    ensures Covers(Order(fields)) && Holds(input, e, Order(fields)) ==> stored == Written(c, e, checked, before)
  {
    ghost var buffered := Buffered(hashMe[..], encryptMe[..]);
    Transfer(input, fields, hashMe, encryptMe);
    if Covers(Order(fields)) && Holds(input, e, Order(fields)) {
      CoveredParts(input, Order(fields), e, buffered);
    }
    var key := c.Mac(hashMe[..]);
    var mac := c.Mac(encryptMe[..]);
    CtrInPlace(c, c.right, key, encryptMe);
    stored := before.(key := VecOf(key));
    if checked {
      stored := Record(key, encryptMe[..] + mac[..MAC_KEPT]);
    }
    hide Unpacked, Covers, Holds, LookupPart, SecretPart, Crypto.Mac, Crypto.Ctr, Record, Buffered;
  }

  /**
   store_path_encounter() on the storing side: given integers in any field order that contains the
   needed fields, output[k] is keyed for the k-th encounter, and holds it sealed if the k-th equality
   check passed.
   */
  method StorePathEncounters(c: Crypto, inputs: seq<Bits>, fields: seq<FieldName>, output: array<StorableEncounter>,
                             checks: seq<bool>, ghost es: seq<Encounter>)
    requires |fields| == 12 && |inputs| <= output.Length && |es| == |inputs| == |checks|
    requires forall k :: 0 <= k < |inputs| ==> Cursor(Order(fields), 12) <= |inputs[k]|
    modifies output
    ensures output[|inputs|..] == old(output[|inputs|..])
    ensures Covers(Order(fields)) && AllHold(inputs, es, Order(fields)) ==>
              forall k :: 0 <= k < |inputs| ==> output[k] == Written(c, es[k], checks[k], old(output[k]))
    ensures Covers(Order(fields)) && AllHold(inputs, es, Order(fields)) ==>
              forall k :: 0 <= k < |inputs| ==>
                && BitsOf(output[k].key) == c.Mac(LookupPart(es[k]))
                && (checks[k] ==> output[k] == StoredOf(c, es[k]))
                && (!checks[k] ==> output[k].low == old(output[k]).low && output[k].high == old(output[k]).high)
  {
    var hashMe, encryptMe := new bool[LOOKUP_BITS], new bool[ENCRYPTED_BITS];
    hide Covers, Holds, Written, Order;
    for k := 0 to |inputs|
      invariant forall i :: k <= i < output.Length ==> output[i] == old(output[i])
      invariant Covers(Order(fields)) && AllHold(inputs, es, Order(fields)) ==>
                  forall i :: 0 <= i < k ==> output[i] == Written(c, es[i], checks[i], old(output[i]))
    {
      output[k] := StoreOne(c, inputs[k], fields, hashMe, encryptMe, checks[k], output[k], es[k]);
    }
    forall k | 0 <= k < |inputs|
      ensures var w, b := Written(c, es[k], checks[k], old(output[k])), old(output[k]);
              && BitsOf(w.key) == c.Mac(LookupPart(es[k]))
              && (checks[k] ==> w == StoredOf(c, es[k])) && (!checks[k] ==> w.low == b.low && w.high == b.high)
    {
      WrittenParts(c, es[k], checks[k], old(output[k]));
    }
    hide BitsOf, Crypto.Mac, LookupPart;
  }

  lemma WrittenParts(c: Crypto, e: Encounter, checked: bool, before: StorableEncounter)
    ensures var w := Written(c, e, checked, before);
            && BitsOf(w.key) == c.Mac(LookupPart(e))
            && (checked ==> w == StoredOf(c, e))
            && (!checked ==> w.low == before.low && w.high == before.high)
  {
    DecryptTwice(c, e);
    BitsOfVecOf(c.Mac(LookupPart(e)));
    hide BitsOf, VecOf, Crypto.Mac, LookupPart, Stored;
  }

  predicate AllPassed(checks: seq<bool>) {
    forall k :: 0 <= k < |checks| ==> checks[k]
  }

  lemma PassedStored(c: Crypto, es: seq<Encounter>, checks: seq<bool>, before: seq<StorableEncounter>,
          after: seq<StorableEncounter>)
    requires |es| == |checks| == |before| == |after| && AllPassed(checks)
    requires forall k :: 0 <= k < |es| ==> after[k] == Written(c, es[k], checks[k], before[k])
    ensures after == StoredAll(c, es)
  {
    hide StoredOf, VecOf, Crypto.Mac;
  }

  // ---- Dummies and shuffles ----

  /** The key of the i-th dummy. */
  function DummyKey(nonce: Bits256, i: nat): Bits256
    requires i < Pow2(WORD_BITS)
  {
    AdvancedLow(nonce, WORD_BITS, i)
  }

  function Dummy(e: StorableEncounter, nonce: Bits256, i: nat): StorableEncounter
    requires i < Pow2(WORD_BITS)
  {
    e.(key := VecOf(DummyKey(nonce, i)))
  }

  /** The records of s from count on turned into dummies: only their keys change. */
  function WithDummies(s: seq<StorableEncounter>, count: nat, nonce: Bits256): (r: seq<StorableEncounter>)
    requires count <= |s| && |s| - count <= Pow2(WORD_BITS)
    ensures |r| == |s|
  {
    seq(|s|, i requires 0 <= i < |s| => if i < count then s[i] else Dummy(s[i], nonce, i - count))
  }

  /** fill_dummies() on a[count..count + dummies). */
  method FillDummies(a: array<StorableEncounter>, count: nat, dummies: nat, nonce: Bits256)
    requires count + dummies <= a.Length && dummies <= Pow2(WORD_BITS)
    modifies a
    ensures a[..count + dummies] == WithDummies(old(a[..count + dummies]), count, nonce)
    ensures a[count + dummies..] == old(a[count + dummies..])
  {
    hide DummyKey, VecOf, Pow2;
    for i := 0 to dummies
      invariant forall k :: 0 <= k < a.Length && !(count <= k < count + i) ==> a[k] == old(a[k])
      invariant forall k :: count <= k < count + i ==> a[k] == Dummy(old(a[k]), nonce, k - count)
    {
      a[count + i] := a[count + i].(key := VecOf(DummyKey(nonce, i)));
    }
  }

  /** encrypt_storable_path_encounters(), in place. */
  method EncryptEncounters(c: Crypto, a: array<StorableEncounter>, size: nat, secret: Bits256)
    requires size <= a.Length
    modifies a
    ensures a[..size] == ReencryptAll(c, secret, old(a[..size]))
    ensures a[size..] == old(a[size..])
  {
    hide BitsOf, VecOf, KeyBits, DataBits, Record, Crypto.Ctr;
    for i := 0 to size
      invariant forall k :: 0 <= k < i ==> a[k] == Reencrypted(c, secret, old(a[k]))
      invariant forall k :: i <= k < a.Length ==> a[k] == old(a[k])
    {
      var key := c.hash(secret + KeyBits(a[i]));
      a[i] := Record(key, c.Ctr(secret, key, DataBits(a[i])));
    }
  }

  /** send_shuffle() on the LEFT side: what goes over the network. */
  method SendShuffle(c: Crypto, a: array<StorableEncounter>, count: nat, dummies: nat, nonce: Bits256)
    returns (sent: seq<StorableEncounter>)
    requires count + dummies <= a.Length && count + dummies <= Pow2(32) && dummies <= Pow2(WORD_BITS)
    modifies a
    ensures sent == Shuffle(c, c.left, WithDummies(old(a[..count + dummies]), count, nonce))
    ensures a[..count + dummies] == sent && a[count + dummies..] == old(a[count + dummies..])
  {
    hide *;
    FillDummies(a, count, dummies, nonce);
    ShuffleIsSort(c, c.left, a[..count + dummies]);
    EncryptEncounters(c, a, count + dummies, c.left);
    SortEncounters(a, count + dummies, true);
    sent := a[..count + dummies];
  }

  /** receive_shuffle() on the RIGHT side: re-encrypt, sort and keep what was received. */
  method ReceiveShuffle(c: Crypto, store: Store, id: ShuffleId, received: seq<StorableEncounter>)
    requires |received| <= Pow2(32)
    modifies store
    ensures id in store.shuffles && fresh(store.shuffles[id])
    ensures store.shuffles == old(store.shuffles)[id := store.shuffles[id]]
    ensures store.shuffles[id][..] == Shuffle(c, c.right, received)
  {
    hide *;
    var _, room := store.AddOrReplace(id, |received|);
    for i := 0 to |received|
      invariant store.shuffles == old(store.shuffles)[id := room]
      invariant room[..i] == received[..i]
    {
      room[i] := received[i];
    }
    assert room[..|received|] == received;
    ShuffleIsSort(c, c.right, received);
    EncryptEncounters(c, room, |received|, c.right);
    SortEncounters(room, |received|, true);
    assert room[..|received|] == room[..];
  }

  // ---- Fetching ----

  /** What a lookup in a shuffle yields for an original key. */
  ghost predicate FetchResult(c: Crypto, shuffle: seq<StorableEncounter>, key: Bits256, r: Option<Fetched>) {
    var final := VecOf(FinalKey(c, key));
    && (Sorted(shuffle, KeyRank(), true) ==> (r.Some? <==> HasKey(shuffle, final)))
    && (r.Some? ==> DecryptedFrom(c, shuffle, key, r.value))
  }

  ghost predicate DecryptedFrom(c: Crypto, shuffle: seq<StorableEncounter>, key: Bits256, f: Fetched) {
    exists p: Payload :: StoredUnder(shuffle, VecOf(FinalKey(c, key)), p) &&
                         f == Decrypt(c, key, BitsOf(p.0) + BitsOf(p.1))
  }

  /**
   f is what decrypting a payload stored under the key yields: the payload is some secret part and some tag
   under the three layers, the fields are those of the secret part, and the MAC is reported correct if and
   only if the tag is the start of the MAC of the secret part.
   */
  ghost predicate Reports(c: Crypto, shuffle: seq<StorableEncounter>, key: Bits256, f: Fetched) {
    exists p: Payload, secret: Bits, tag: Bits ::
      && StoredUnder(shuffle, VecOf(FinalKey(c, key)), p)
      && |secret| == ENCRYPTED_BITS && |tag| == MAC_KEPT
      && BitsOf(p.0) + BitsOf(p.1) == Layered(c, key, secret, tag)
      && f.encountered + f.previous + f.duration + f.confirmed == secret
      && (f.macCorrect <==> tag == c.Mac(secret)[..MAC_KEPT])
  }

  lemma DecryptReports(c: Crypto, shuffle: seq<StorableEncounter>, key: Bits256, p: Payload)
    requires StoredUnder(shuffle, VecOf(FinalKey(c, key)), p)
    ensures Reports(c, shuffle, key, Decrypt(c, key, BitsOf(p.0) + BitsOf(p.1)))
  {
    var data := BitsOf(p.0) + BitsOf(p.1);
    var secret, tag := AnyDataLayered(c, key, data);
    TagDecides(c, key, secret, tag);
    hide StoredUnder, Decrypt, Layered, FinalKey, VecOf, Crypto.Mac, BitsOf;
  }

  function OriginalKey(c: Crypto, device: Bits, timestamp: Bits, dummyNonce: Option<Bits256>): Bits256 {
    if dummyNonce.Some? then dummyNonce.value else c.Mac(device + timestamp)
  }

  /**
   fetch_and_decrypt_encounter(): by (device, time), or by a dummy's nonce.  Nothing is fetched if the
   equality check before the reveal of the key, or that reveal, failed.
   */
  method FetchAndDecrypt(c: Crypto, store: Store, id: ShuffleId, device: Bits, timestamp: Bits,
          dummyNonce: Option<Bits256>, checked: bool)
    returns (r: Option<Fetched>)
    ensures !checked || id !in store.shuffles ==> r.None?
    ensures checked && id in store.shuffles ==>
              FetchResult(c, store.shuffles[id][..], OriginalKey(c, device, timestamp, dummyNonce), r)
    ensures checked && id in store.shuffles && r.Some? ==>
              Reports(c, store.shuffles[id][..], OriginalKey(c, device, timestamp, dummyNonce), r.value)
  {
    var originalKey := match dummyNonce case Some(nonce) => nonce case None => c.Mac(device + timestamp);
    var rehash := c.hash(c.left + originalKey);
    if !checked {
      return None;
    }
    var finalKey := c.hash(c.right + rehash);
    hide *;
    KeysDerived(c, originalKey, rehash, finalKey);
    assert originalKey == OriginalKey(c, device, timestamp, dummyNonce) by {
      OriginalKeyIs(c, device, timestamp, dummyNonce);
    }
    var payload := store.Fetch(VecOf(finalKey), id);
    if id in store.shuffles {
      FetchResultIs(c, store.shuffles[id][..], originalKey, payload);
    }
    if payload.None? {
      return None;
    }
    r := Some(Decrypt(c, originalKey, BitsOf(payload.value.0) + BitsOf(payload.value.1)));
  }

  lemma KeysDerived(c: Crypto, key: Bits256, rehash: Bits256, finalKey: Bits256)
    requires rehash == c.hash(c.left + key) && finalKey == c.hash(c.right + rehash)
    ensures finalKey == FinalKey(c, key)
  {}

  lemma OriginalKeyIs(c: Crypto, device: Bits, timestamp: Bits, dummyNonce: Option<Bits256>)
    ensures OriginalKey(c, device, timestamp, dummyNonce)
         == match dummyNonce case Some(nonce) => nonce case None => c.Mac(device + timestamp)
  {
    hide Crypto.Mac;
  }

  /** What is decrypted of the payload found, if one is. */
  lemma FetchResultIs(c: Crypto, shuffle: seq<StorableEncounter>, key: Bits256, payload: Option<Payload>)
    requires payload.Some? ==> StoredUnder(shuffle, VecOf(FinalKey(c, key)), payload.value)
    requires Sorted(shuffle, KeyRank(), true) ==> (payload.Some? <==> HasKey(shuffle, VecOf(FinalKey(c, key))))
    ensures payload.None? ==> FetchResult(c, shuffle, key, None)
    ensures payload.Some? ==>
              var f := Decrypt(c, key, BitsOf(payload.value.0) + BitsOf(payload.value.1));
              FetchResult(c, shuffle, key, Some(f)) && Reports(c, shuffle, key, f)
  {
    hide Sorted, HasKey, StoredUnder, BitsOf, VecOf, FinalKey, Decrypt, Reports;
    if payload.Some? {
      DecryptReports(c, shuffle, key, payload.value);
      assert DecryptedFrom(c, shuffle, key, Decrypt(c, key, BitsOf(payload.value.0) + BitsOf(payload.value.1)));
    }
  }

  ghost predicate EndsUnder(c: Crypto, s: seq<StorableEncounter>, key: Bits256) {
    exists i :: 0 <= i < |s| && FinalKey(c, KeyBits(s[i])) == FinalKey(c, key)
  }

  lemma FoundEndsUnder(c: Crypto, s: seq<StorableEncounter>, key: Bits256, x: StorableEncounter)
    requires x in BothShuffles(c, s) && x.key == VecOf(FinalKey(c, key))
    ensures EndsUnder(c, s, key)
  {
    BothShufflesRecords(c, s, x);
    hide BothShuffles, FinalKey, VecOf, Sorted, Twice, BitsOf, KeyBits;
    var i :| 0 <= i < |s| && x == Twice(c, s[i]);
    FinalKeyOf(c, s[i]);
    BitsOfVecOf(FinalKey(c, KeyBits(s[i])));
    BitsOfVecOf(FinalKey(c, key));
  }

  lemma EndsUnderFound(c: Crypto, s: seq<StorableEncounter>, key: Bits256, i: nat)
    requires i < |s| && FinalKey(c, KeyBits(s[i])) == FinalKey(c, key)
    ensures HasKey(BothShuffles(c, s), VecOf(FinalKey(c, key)))
  {
    BothShufflesRecords(c, s, Twice(c, s[i]));
    FinalKeyOf(c, s[i]);
    hide BothShuffles, FinalKey, VecOf, Sorted, Twice, BitsOf, KeyBits;
    var both := BothShuffles(c, s);
    var j :| 0 <= j < |both| && both[j] == Twice(c, s[i]);
  }

  /** What is found after both shuffles is what ended up there. */
  lemma HasFinalKey(c: Crypto, s: seq<StorableEncounter>, key: Bits256)
    ensures HasKey(BothShuffles(c, s), VecOf(FinalKey(c, key))) <==> EndsUnder(c, s, key)
  {
    var both, final := BothShuffles(c, s), VecOf(FinalKey(c, key));
    hide BothShuffles, FinalKey, VecOf, KeyBits;
    if HasKey(both, final) {
      var j :| 0 <= j < |both| && both[j].key == final;
      FoundEndsUnder(c, s, key, both[j]);
    }
    if EndsUnder(c, s, key) {
      var i :| 0 <= i < |s| && FinalKey(c, KeyBits(s[i])) == FinalKey(c, key);
      EndsUnderFound(c, s, key, i);
    }
  }

  /** After both shuffles a fetch succeeds exactly when some stored record ends up under the key looked up. */
  lemma FetchFinds(c: Crypto, s: seq<StorableEncounter>, key: Bits256, r: Option<Fetched>)
    requires FetchResult(c, BothShuffles(c, s), key, r)
    ensures r.Some? <==> EndsUnder(c, s, key)
  {
    HasFinalKey(c, s, key);
    BothShufflesRecords(c, s, StorableEncounter(VecOf(key), VecOf(key), VecOf(key)));
    hide BothShuffles, FinalKey, VecOf, Sorted, Twice, HasKey, EndsUnder;
  }

  /** Under distinct keys a fetch decrypts the data of the very record stored under the key. */
  lemma FetchedData(c: Crypto, s: seq<StorableEncounter>, i: nat, r: Option<Fetched>)
    requires i < |s| && DistinctKeys(c, s)
    requires FetchResult(c, BothShuffles(c, s), KeyBits(s[i]), r)
    ensures r == Some(Decrypt(c, KeyBits(s[i]), DataBits(Twice(c, s[i]))))
  {
    var key, both := KeyBits(s[i]), BothShuffles(c, s);
    FetchFinds(c, s, key, r);
    hide BothShuffles, FinalKey, VecOf, Sorted, Twice, BitsOf, KeyBits, Decrypt;
    assert EndsUnder(c, s, key);
    assert DecryptedFrom(c, both, key, r.value);
    var p: Payload :| StoredUnder(both, VecOf(FinalKey(c, key)), p) &&
                       r.value == Decrypt(c, key, BitsOf(p.0) + BitsOf(p.1));
    OnlyPayload(c, s, i, p);
  }

  /** Under distinct keys, fetching a stored encounter by device and time returns its own fields, MAC correct. */
  lemma FetchReturnsStored(c: Crypto, s: seq<StorableEncounter>, i: nat, e: Encounter, r: Option<Fetched>)
    requires i < |s| && DistinctKeys(c, s) && s[i] == StoredOf(c, e)
    requires FetchResult(c, BothShuffles(c, s), c.Mac(LookupPart(e)), r)
    ensures r == Some(Revealed(e))
  {
    DecryptTwice(c, e);
    hide *;
    StoredOfIs(c, e);
    FetchedData(c, s, i, r);
  }

  lemma StoredOfIs(c: Crypto, e: Encounter)
    ensures StoredOf(c, e) == Stored(c, LookupPart(e), SecretPart(e))
  {
    hide Stored, LookupPart, SecretPart;
  }

  /**
   The MAC check of a fetch: whatever secret part and tag a record was stored with, under distinct keys a
   fetch under its key returns the fields of that secret part, and reports the MAC correct if and only if
   the tag is the start of the MAC of the secret part.
   */
  lemma FetchChecksTag(c: Crypto, s: seq<StorableEncounter>, i: nat, key: Bits256, secret: Bits, tag: Bits,
          r: Option<Fetched>)
    requires i < |s| && DistinctKeys(c, s) && |secret| == ENCRYPTED_BITS && |tag| == MAC_KEPT
    requires s[i] == Record(key, c.Ctr(c.right, key, secret) + tag)
    requires FetchResult(c, BothShuffles(c, s), key, r)
    ensures r.Some? && (r.value.macCorrect <==> tag == c.Mac(secret)[..MAC_KEPT])
    ensures r.value.encountered + r.value.previous + r.value.duration + r.value.confirmed == secret
  {
    hide *;
    StoredLayers(c, key, secret, tag);
    TagDecides(c, key, secret, tag);
    FetchedData(c, s, i, r);
  }

  /**
   A tag changed in the store is always reported: if the only payload a shuffle holds under a key agrees
   with data that pass the MAC check except for the tag, a fetch finds it and reports the MAC incorrect.
   */
  lemma ChangedTagReported(c: Crypto, shuffle: seq<StorableEncounter>, key: Bits256, data: Bits, p: Payload,
          r: Option<Fetched>)
    requires Sorted(shuffle, KeyRank(), true) && FetchResult(c, shuffle, key, r)
    requires forall q: Payload :: StoredUnder(shuffle, VecOf(FinalKey(c, key)), q) <==> q == p
    requires |data| == 512 && Decrypt(c, key, data).macCorrect
    requires (BitsOf(p.0) + BitsOf(p.1))[..ENCRYPTED_BITS] == data[..ENCRYPTED_BITS]
    requires BitsOf(p.0) + BitsOf(p.1) != data
    ensures r.Some? && !r.value.macCorrect
  {
    hide Decrypt, Sorted, FinalKey, VecOf, BitsOf, KeyRank;
    assert StoredUnder(shuffle, VecOf(FinalKey(c, key)), p);
    StoredHasKey(shuffle, VecOf(FinalKey(c, key)), p);
    ChangedTagFails(c, key, data, BitsOf(p.0) + BitsOf(p.1));
    hide StoredUnder, HasKey;
  }

  lemma WithDummiesAt(s: seq<StorableEncounter>, count: nat, nonce: Bits256, i: nat)
    requires count + i < |s| && |s| - count <= Pow2(WORD_BITS)
    ensures WithDummies(s, count, nonce)[count + i] == Dummy(s[count + i], nonce, i)
  {
    hide Dummy, Pow2;
  }

  lemma DummyAt(s: seq<StorableEncounter>, count: nat, nonce: Bits256, i: nat)
    requires count + i < |s| && |s| - count <= Pow2(WORD_BITS)
    ensures KeyBits(WithDummies(s, count, nonce)[count + i]) == DummyKey(nonce, i)
  {
    WithDummiesAt(s, count, nonce, i);
    BitsOfVecOf(DummyKey(nonce, i));
    hide DummyKey, VecOf, BitsOf, Pow2, WithDummies;
  }

  lemma DummyEndsUnder(c: Crypto, s: seq<StorableEncounter>, count: nat, nonce: Bits256, i: nat)
    requires count + i < |s| && |s| - count <= Pow2(WORD_BITS)
    ensures EndsUnder(c, WithDummies(s, count, nonce), DummyKey(nonce, i))
  {
    DummyAt(s, count, nonce, i);
    hide DummyKey, FinalKey, VecOf, BitsOf, Pow2, WithDummies, KeyBits;
    assert FinalKey(c, KeyBits(WithDummies(s, count, nonce)[count + i])) == FinalKey(c, DummyKey(nonce, i));
  }

  /** The i-th dummy is found under the in-circuit counter's i-th nonce, as long as the low word does not wrap. */
  lemma DummyFound(c: Crypto, s: seq<StorableEncounter>, count: nat, nonce: Bits256, i: nat, r: Option<Fetched>)
    requires count + i < |s| && |s| - count <= Pow2(WORD_BITS)
    requires Unsigned(nonce[..WORD_BITS]) + i < Pow2(WORD_BITS)
    requires i < Pow2(256) && FetchResult(c, BothShuffles(c, WithDummies(s, count, nonce)), Advanced(nonce, i), r)
    ensures r.Some?
  {
    CounterReaches(nonce, WORD_BITS, i, i);
    assert DummyKey(nonce, i) == AdvancedLow(nonce, WORD_BITS, i);
    hide *;
    DummyEndsUnder(c, s, count, nonce, i);
    FetchFinds(c, WithDummies(s, count, nonce), Advanced(nonce, i), r);
  }

  /** Only a dummy laid down under this very key ends up where the key is looked up: nothing else collides with it. */
  ghost predicate OnlyDummiesUnder(c: Crypto, laid: seq<StorableEncounter>, count: nat, key: Bits256) {
    forall j :: 0 <= j < |laid| && FinalKey(c, KeyBits(laid[j])) == FinalKey(c, key)
              ==> j >= count && KeyBits(laid[j]) == key
  }

  /** The key is one of the first n dummies'. */
  ghost predicate IsDummyKey(nonce: Bits256, n: nat, key: Bits256)
    requires n <= Pow2(WORD_BITS)
  {
    exists k :: 0 <= k < n && DummyKey(nonce, k) == key
  }

  lemma DummyEnds(c: Crypto, s: seq<StorableEncounter>, count: nat, nonce: Bits256, key: Bits256)
    requires count <= |s| && |s| - count <= Pow2(WORD_BITS) && IsDummyKey(nonce, |s| - count, key)
    ensures EndsUnder(c, WithDummies(s, count, nonce), key)
  {
    hide WithDummies, DummyKey, Pow2, EndsUnder;
    var k :| 0 <= k < |s| - count && DummyKey(nonce, k) == key;
    DummyEndsUnder(c, s, count, nonce, k);
  }

  lemma EndsAsDummy(c: Crypto, s: seq<StorableEncounter>, count: nat, nonce: Bits256, key: Bits256)
    requires count <= |s| && |s| - count <= Pow2(WORD_BITS)
    requires OnlyDummiesUnder(c, WithDummies(s, count, nonce), count, key)
    requires EndsUnder(c, WithDummies(s, count, nonce), key)
    ensures IsDummyKey(nonce, |s| - count, key)
  {
    hide WithDummies, DummyKey, Pow2, FinalKey, KeyBits;
    var laid := WithDummies(s, count, nonce);
    var j :| 0 <= j < |laid| && FinalKey(c, KeyBits(laid[j])) == FinalKey(c, key);
    DummyAt(s, count, nonce, j - count);
  }

  /** Without collisions a nonce is found exactly when it is the key of a dummy. */
  lemma NonceFound(c: Crypto, s: seq<StorableEncounter>, count: nat, nonce: Bits256, key: Bits256, r: Option<Fetched>)
    requires count <= |s| && |s| - count <= Pow2(WORD_BITS)
    requires OnlyDummiesUnder(c, WithDummies(s, count, nonce), count, key)
    requires FetchResult(c, BothShuffles(c, WithDummies(s, count, nonce)), key, r)
    ensures r.Some? <==> IsDummyKey(nonce, |s| - count, key)
  {
    hide *;
    FetchFinds(c, WithDummies(s, count, nonce), key, r);
    if r.Some? {
      EndsAsDummy(c, s, count, nonce, key);
    }
    if IsDummyKey(nonce, |s| - count, key) {
      DummyEnds(c, s, count, nonce, key);
    }
  }

  lemma DummyKeyReached(nonce: Bits256, n: nat, i: nat)
    requires n <= Pow2(WORD_BITS) && i < Pow2(WORD_BITS)
    ensures i < Pow2(256)
    ensures IsDummyKey(nonce, n, Advanced(nonce, i)) <==> i < n && Unsigned(nonce[..WORD_BITS]) + i < Pow2(WORD_BITS)
  {
    hide Unsigned, Pow2, Advanced, AdvancedLow;
    CounterReaches(nonce, WORD_BITS, 0, i);
    forall k | 0 <= k < n
      ensures DummyKey(nonce, k) == Advanced(nonce, i) <==> k == i && Unsigned(nonce[..WORD_BITS]) + i < Pow2(WORD_BITS)
    {
      CounterReaches(nonce, WORD_BITS, k, i);
    }
    if i < n && Unsigned(nonce[..WORD_BITS]) + i < Pow2(WORD_BITS) {
      assert DummyKey(nonce, i) == Advanced(nonce, i);
    }
  }

  /** So the in-circuit counter's i-th nonce is found exactly when fill_dummies reached it. */
  lemma DummyFoundExactly(c: Crypto, s: seq<StorableEncounter>, count: nat, nonce: Bits256, i: nat, r: Option<Fetched>)
    requires count <= |s| && |s| - count <= Pow2(WORD_BITS) && i < Pow2(WORD_BITS) && i < Pow2(256)
    requires OnlyDummiesUnder(c, WithDummies(s, count, nonce), count, Advanced(nonce, i))
    requires FetchResult(c, BothShuffles(c, WithDummies(s, count, nonce)), Advanced(nonce, i), r)
    ensures r.Some? <==> i < |s| - count && Unsigned(nonce[..WORD_BITS]) + i < Pow2(WORD_BITS)
  {
    hide *;
    NonceFound(c, s, count, nonce, Advanced(nonce, i), r);
    DummyKeyReached(nonce, |s| - count, i);
  }

  /** Storing, both shuffles and all the dummies, as one value. */
  ghost function Kept(c: Crypto, es: seq<Encounter>, rest: seq<StorableEncounter>,
          nonce: Bits256): (s: seq<StorableEncounter>)
    requires |rest| <= Pow2(WORD_BITS)
    ensures |s| == |es| + |rest| && s == WithDummies(StoredAll(c, es) + rest, |es|, nonce)
  {
    WithDummies(StoredAll(c, es) + rest, |es|, nonce)
  }

  lemma KeptAt(c: Crypto, es: seq<Encounter>, rest: seq<StorableEncounter>, nonce: Bits256, k: nat)
    requires |rest| <= Pow2(WORD_BITS) && k < |es|
    ensures Kept(c, es, rest, nonce)[k] == StoredOf(c, es[k])
  {
    hide Pow2, StoredOf, DummyKey, VecOf;
  }

  lemma FitsTheWord(n: nat)
    requires n <= Pow2(32)
    ensures n <= Pow2(WORD_BITS)
  {
    Pow2Order(32, WORD_BITS);
    hide Pow2;
  }

  lemma BothShufflesSteps(c: Crypto, s: seq<StorableEncounter>)
    ensures BothShuffles(c, s) == Shuffle(c, c.right, Shuffle(c, c.left, s))
  {
    hide Shuffle;
  }

  lemma KeyOf(c: Crypto, e: Encounter)
    ensures OriginalKey(c, e[DEVICE], e[TIME], None) == c.Mac(LookupPart(e))
  {
    hide Crypto.Mac;
  }

  /**
   The whole path: store encounters given in any field order that contains the needed fields, add
   dummies, shuffle on the LEFT, shuffle on the RIGHT, and fetch the k-th encounter by device and
   time.  Under distinct keys, and the equality checks passed, the fetch returns that encounter's own
   fields, and the MAC check passes.
   */
  method StoreShuffleFetch(c: Crypto, store: Store, id: ShuffleId, inputs: seq<Bits>, fields: seq<FieldName>,
                           a: array<StorableEncounter>, nonce: Bits256, k: nat, device: Bits, timestamp: Bits,
                           checks: seq<bool>, ghost es: seq<Encounter>)
    returns (r: Option<Fetched>)
    requires |inputs| <= a.Length <= Pow2(32) && k < |inputs| == |es| == |checks|
    requires |fields| == 12 && Covers(Order(fields)) && AllHold(inputs, es, Order(fields))
    requires forall i :: 0 <= i < |inputs| ==> Cursor(Order(fields), 12) <= |inputs[i]|
    requires device == es[k][DEVICE] && timestamp == es[k][TIME]
    modifies a, store
    ensures a.Length - |inputs| <= Pow2(WORD_BITS)
    ensures AllPassed(checks) && DistinctKeys(c, Kept(c, es, old(a[|inputs|..]), nonce)) ==> r == Some(Revealed(es[k]))
  {
    hide *;
    FitsTheWord(a.Length);
    var count := |inputs|;
    ghost var stored := Kept(c, es, a[count..], nonce);
    KeptAt(c, es, a[count..], nonce, k);
    BothShufflesSteps(c, stored);
    KeyOf(c, es[k]);
    ghost var before := a[..count];
    StorePathEncounters(c, inputs, fields, a, checks, es);
    if AllPassed(checks) {
      PassedStored(c, es, checks, before, a[..count]);
    }
    assert a[..count + (a.Length - count)] == a[..count] + a[count..];
    var sent := SendShuffle(c, a, count, a.Length - count, nonce);
    ReceiveShuffle(c, store, id, sent);
    r := FetchAndDecrypt(c, store, id, device, timestamp, None, true);
    if AllPassed(checks) && DistinctKeys(c, stored) {
      FetchReturnsStored(c, stored, k, es[k], r);
    }
  }
}
