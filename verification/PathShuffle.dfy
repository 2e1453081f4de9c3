/**
 The life of a stored path encounter: keyed and encrypted in circuit, re-keyed, re-encrypted and
 shuffled by the LEFT side and then by the RIGHT side, and finally fetched and decrypted.

 The hash and the keystream are uninterpreted.  Integers inside the circuit are bit sequences.
 */
module PathShuffle {
  import opened BitVectors
  import opened Network
  import opened ShuffleSort
  import opened ShuffleStore
  import opened Fields

  const LOOKUP_BITS: nat := 256 + 32
  const ENCRYPTED_BITS: nat := 256 + 32 + 16 + 8
  const MAC_KEPT: nat := 512 - ENCRYPTED_BITS

  /** sha3_256, the AES counter-mode keystream for a key and an initial value, and the two secrets. */
  datatype Crypto = Crypto(hash: Bits -> Bits256, pad: (Bits, Bits) -> (nat -> bool), left: Bits256, right: Bits256) {
    /** The hash keyed with both secrets. */
    function Mac(data: Bits): Bits256 {
      hash(seq(256, i requires 0 <= i < 256 => left[i] != right[i]) + data)
    }

    function Ctr(secret: Bits256, iv: Bits256, data: Bits): (r: Bits)
      ensures |r| == |data|
    {
      var stream := pad(secret[..128], iv[..128]);
      seq(|data|, i requires 0 <= i < |data| => data[i] != stream(i))
    }
  }

  lemma CtrInvolution(c: Crypto, secret: Bits256, iv: Bits256, data: Bits)
    ensures c.Ctr(secret, iv, c.Ctr(secret, iv, data)) == data
  {}

  // ---- Records as bits ----

  function DataBits(e: StorableEncounter): (d: Bits)
    ensures |d| == 512
  {
    BitsOf(e.low) + BitsOf(e.high)
  }

  function KeyBits(e: StorableEncounter): Bits256 {
    BitsOf(e.key)
  }

  function Record(key: Bits256, data: Bits): StorableEncounter
    requires |data| == 512
  {
    StorableEncounter(VecOf(key), VecOf(data[..256]), VecOf(data[256..]))
  }

  lemma RecordBits(key: Bits256, data: Bits)
    requires |data| == 512
    ensures KeyBits(Record(key, data)) == key && DataBits(Record(key, data)) == data
  {
    BitsOfVecOf(key);
    BitsOfVecOf(data[..256]);
    BitsOfVecOf(data[256..]);
    hide BitsOf, VecOf;
  }

  // ---- Storing ----

  function LookupPart(e: Encounter): (b: Bits)
    ensures |b| == LOOKUP_BITS
  {
    e[DEVICE] + e[TIME]
  }

  function SecretPart(e: Encounter): (b: Bits)
    ensures |b| == ENCRYPTED_BITS
  {
    e[ENCOUNTERED] + e[PREVIOUS] + e[DURATION] + e[CONFIRMED]
  }

  /**
   What is stored: the key is the MAC of the lookup part; the data are the encrypted secret part and the
   start of its MAC.
   */
  function Stored(c: Crypto, lookup: Bits, secret: Bits): StorableEncounter
    requires |secret| == ENCRYPTED_BITS
  {
    Record(c.Mac(lookup), c.Ctr(c.right, c.Mac(lookup), secret) + c.Mac(secret)[..MAC_KEPT])
  }

  // ---- Shuffling ----

  /** A side's re-keying and re-encryption of one record. */
  function Reencrypted(c: Crypto, secret: Bits256, e: StorableEncounter): StorableEncounter {
    var key := c.hash(secret + KeyBits(e));
    Record(key, c.Ctr(secret, key, DataBits(e)))
  }

  function ReencryptAll(c: Crypto, secret: Bits256, s: seq<StorableEncounter>): (r: seq<StorableEncounter>)
    ensures |r| == |s|
  {
    seq(|s|, i requires 0 <= i < |s| => Reencrypted(c, secret, s[i]))
  }

  /** A side's shuffle: re-encrypt, then sort by the new keys. */
  function Shuffle(c: Crypto, secret: Bits256, s: seq<StorableEncounter>): seq<StorableEncounter> {
    Sort(ReencryptAll(c, secret, s), KeyRank(), true)
  }

  function BothShuffles(c: Crypto, s: seq<StorableEncounter>): seq<StorableEncounter> {
    Shuffle(c, c.right, Shuffle(c, c.left, s))
  }

  function Twice(c: Crypto, e: StorableEncounter): StorableEncounter {
    Reencrypted(c, c.right, Reencrypted(c, c.left, e))
  }

  /** The key a record ends up under. */
  function FinalKey(c: Crypto, key: Bits256): Bits256 {
    c.hash(c.right + c.hash(c.left + key))
  }

  lemma FinalKeyOf(c: Crypto, e: StorableEncounter)
    ensures Twice(c, e).key == VecOf(FinalKey(c, KeyBits(e)))
  {
    RecordBits(c.hash(c.left + KeyBits(e)), c.Ctr(c.left, c.hash(c.left + KeyBits(e)), DataBits(e)));
    hide BitsOf, VecOf, KeyBits, DataBits;
  }

  lemma ReencryptedRecords(c: Crypto, secret: Bits256, s: seq<StorableEncounter>, x: StorableEncounter)
    ensures x in ReencryptAll(c, secret, s) <==> exists i :: 0 <= i < |s| && x == Reencrypted(c, secret, s[i])
  {
    var r := ReencryptAll(c, secret, s);
    assert forall i :: 0 <= i < |s| ==> r[i] == Reencrypted(c, secret, s[i]);
    hide ReencryptAll, Reencrypted;
  }

  lemma ShuffleIsSort(c: Crypto, secret: Bits256, s: seq<StorableEncounter>)
    ensures Shuffle(c, secret, s) == Sort(ReencryptAll(c, secret, s), KeyRank(), true)
  {
    hide Sort, ReencryptAll, KeyRank;
  }

  lemma ShuffleRecords(c: Crypto, secret: Bits256, s: seq<StorableEncounter>, x: StorableEncounter)
    ensures x in Shuffle(c, secret, s) <==> exists i :: 0 <= i < |s| && x == Reencrypted(c, secret, s[i])
  {
    ReencryptedRecords(c, secret, s, x);
    ShuffleIsSort(c, secret, s);
    hide *;
    SortCorrect(ReencryptAll(c, secret, s), KeyRank(), true);
    SameRecords(ReencryptAll(c, secret, s), Shuffle(c, secret, s), x);
  }

  /** After both shuffles the store holds exactly the doubly encrypted records, in key order. */
  lemma BothShufflesRecords(c: Crypto, s: seq<StorableEncounter>, x: StorableEncounter)
    ensures x in BothShuffles(c, s) <==> exists i :: 0 <= i < |s| && x == Twice(c, s[i])
    ensures Sorted(BothShuffles(c, s), KeyRank(), true)
  {
    var left := Shuffle(c, c.left, s);
    ShuffleRecords(c, c.right, left, x);
    SortCorrect(ReencryptAll(c, c.right, left), KeyRank(), true);
    hide Sort, Sorted, Reencrypted, ReencryptAll;
    if i :| 0 <= i < |left| && x == Reencrypted(c, c.right, left[i]) {
      ShuffleRecords(c, c.left, s, left[i]);
    }
    if i :| 0 <= i < |s| && x == Twice(c, s[i]) {
      ShuffleRecords(c, c.left, s, Reencrypted(c, c.left, s[i]));
      assert Reencrypted(c, c.left, s[i]) in left;
      var j :| 0 <= j < |left| && left[j] == Reencrypted(c, c.left, s[i]);
    }
  }

  // ---- Fetching ----

  datatype Fetched = Fetched(encountered: Bits, previous: Bits, duration: Bits, confirmed: Bits, macCorrect: bool)

  /** Undo the three encryptions, the innermost on the secret part only, and check the truncated MAC. */
  function Decrypt(c: Crypto, key: Bits256, data: Bits): Fetched
    requires |data| == 512
  {
    var rekey := c.hash(c.left + key);
    var outer := c.Ctr(c.right, c.hash(c.right + rekey), data);
    var middle := c.Ctr(c.left, rekey, outer);
    var secret := c.Ctr(c.right, key, middle[..ENCRYPTED_BITS]);
    Fetched(secret[..256], secret[256..288], secret[288..304], secret[304..312],
            middle[ENCRYPTED_BITS..] == c.Mac(secret)[..MAC_KEPT])
  }

  /** No two records end up under the same key. */
  ghost predicate DistinctKeys(c: Crypto, s: seq<StorableEncounter>) {
    forall i, j :: 0 <= i < j < |s| ==> FinalKey(c, KeyBits(s[i])) != FinalKey(c, KeyBits(s[j]))
  }

  /** The fields a fetch returns of an encounter, with the MAC found correct. */
  function Revealed(e: Encounter): Fetched {
    Fetched(e[ENCOUNTERED], e[PREVIOUS], e[DURATION], e[CONFIRMED], true)
  }

  lemma SecretParts(e: Encounter)
    ensures var s := SecretPart(e);
            && s[..256] == e[ENCOUNTERED] && s[256..288] == e[PREVIOUS]
            && s[288..304] == e[DURATION] && s[304..312] == e[CONFIRMED]
  {}

  /** Decrypting what the two shuffles made of a stored record gives its secret part back, and its MAC is correct. */
  lemma DecryptTwice(c: Crypto, e: Encounter)
    ensures var r := Stored(c, LookupPart(e), SecretPart(e));
            && KeyBits(r) == c.Mac(LookupPart(e))
            && Decrypt(c, KeyBits(r), DataBits(Twice(c, r))) == Revealed(e)
  {
    var key := c.Mac(LookupPart(e));
    var sealed := c.Ctr(c.right, key, SecretPart(e));
    var d0 := sealed + c.Mac(SecretPart(e))[..MAC_KEPT];
    RecordBits(key, d0);
    var key1 := c.hash(c.left + key);
    var d1 := c.Ctr(c.left, key1, d0);
    RecordBits(key1, d1);
    var key2 := c.hash(c.right + key1);
    RecordBits(key2, c.Ctr(c.right, key2, d1));
    CtrInvolution(c, c.right, key2, d1);
    CtrInvolution(c, c.left, key1, d0);
    CtrInvolution(c, c.right, key, SecretPart(e));
    assert d0[..ENCRYPTED_BITS] == sealed && d0[ENCRYPTED_BITS..] == c.Mac(SecretPart(e))[..MAC_KEPT];
    SecretParts(e);
    hide BitsOf, VecOf, KeyBits, DataBits, Record, Crypto.Ctr, Crypto.Mac, SecretPart, LookupPart;
  }

  // ---- When the MAC check passes ----

  /** The data of a record with the given secret part and tag, under its three layers of encryption. */
  function Layered(c: Crypto, key: Bits256, secret: Bits, tag: Bits): (data: Bits)
    requires |secret| == ENCRYPTED_BITS && |tag| == MAC_KEPT
    ensures |data| == 512
  {
    var rekey := c.hash(c.left + key);
    c.Ctr(c.right, c.hash(c.right + rekey), c.Ctr(c.left, rekey, c.Ctr(c.right, key, secret) + tag))
  }

  /**
   For every secret part and every tag: the fields are those of the secret part, and the MAC check passes if
   and only if the tag is the start of the MAC of that secret part.
   */
  lemma TagDecides(c: Crypto, key: Bits256, secret: Bits, tag: Bits)
    requires |secret| == ENCRYPTED_BITS && |tag| == MAC_KEPT
    ensures var f := Decrypt(c, key, Layered(c, key, secret, tag));
            && (f.macCorrect <==> tag == c.Mac(secret)[..MAC_KEPT])
            && f.encountered + f.previous + f.duration + f.confirmed == secret
            && |f.encountered| == 256 && |f.previous| == 32 && |f.duration| == 16 && |f.confirmed| == 8
  {
    var rekey := c.hash(c.left + key);
    var sealed := c.Ctr(c.right, key, secret);
    CtrInvolution(c, c.right, c.hash(c.right + rekey), c.Ctr(c.left, rekey, sealed + tag));
    CtrInvolution(c, c.left, rekey, sealed + tag);
    CtrInvolution(c, c.right, key, secret);
    assert (sealed + tag)[..ENCRYPTED_BITS] == sealed && (sealed + tag)[ENCRYPTED_BITS..] == tag;
    hide Crypto.Ctr, Crypto.Mac;
  }

  /** Whatever 512 bits a shuffle holds, they are some secret part and some tag under the three layers. */
  lemma AnyDataLayered(c: Crypto, key: Bits256, data: Bits) returns (secret: Bits, tag: Bits)
    requires |data| == 512
    ensures |secret| == ENCRYPTED_BITS && |tag| == MAC_KEPT && data == Layered(c, key, secret, tag)
  {
    var rekey := c.hash(c.left + key);
    var outer := c.Ctr(c.right, c.hash(c.right + rekey), data);
    var middle := c.Ctr(c.left, rekey, outer);
    secret, tag := c.Ctr(c.right, key, middle[..ENCRYPTED_BITS]), middle[ENCRYPTED_BITS..];
    CtrInvolution(c, c.right, key, middle[..ENCRYPTED_BITS]);
    CtrInvolution(c, c.left, rekey, outer);
    CtrInvolution(c, c.right, c.hash(c.right + rekey), data);
    assert middle[..ENCRYPTED_BITS] + tag == middle;
    hide Crypto.Ctr;
  }

  lemma CtrFrom(c: Crypto, secret: Bits256, iv: Bits256, x: Bits, y: Bits, n: nat)
    requires |x| == |y| && n <= |x|
    ensures x[..n] == y[..n] <==> c.Ctr(secret, iv, x)[..n] == c.Ctr(secret, iv, y)[..n]
    ensures x == y <==> c.Ctr(secret, iv, x) == c.Ctr(secret, iv, y)
  {
    var stream := c.pad(secret[..128], iv[..128]);
    var u, v := c.Ctr(secret, iv, x), c.Ctr(secret, iv, y);
    assert forall i :: 0 <= i < |x| ==> (u[i] == v[i] <==> x[i] == y[i]);
    if u[..n] == v[..n] {
      assert forall i :: 0 <= i < n ==> u[i] == u[..n][i] == v[..n][i] == v[i];
    }
    if x[..n] == y[..n] {
      assert forall i :: 0 <= i < n ==> x[i] == x[..n][i] == y[..n][i] == y[i];
    }
    hide Crypto.Ctr;
  }

  /** Data that differ from those of a correct record in the tag only fail the MAC check. */
  lemma ChangedTagFails(c: Crypto, key: Bits256, data: Bits, changed: Bits)
    requires |data| == |changed| == 512 && Decrypt(c, key, data).macCorrect
    requires data[..ENCRYPTED_BITS] == changed[..ENCRYPTED_BITS] && data != changed
    ensures !Decrypt(c, key, changed).macCorrect
  {
    var rekey := c.hash(c.left + key);
    var final := c.hash(c.right + rekey);
    var x, y := c.Ctr(c.right, final, data), c.Ctr(c.right, final, changed);
    CtrFrom(c, c.right, final, data, changed, ENCRYPTED_BITS);
    CtrFrom(c, c.left, rekey, x, y, ENCRYPTED_BITS);
    var u, v := c.Ctr(c.left, rekey, x), c.Ctr(c.left, rekey, y);
    assert u == u[..ENCRYPTED_BITS] + u[ENCRYPTED_BITS..] && v == v[..ENCRYPTED_BITS] + v[ENCRYPTED_BITS..];
    hide Crypto.Ctr, Crypto.Mac;
  }

  /** What is stored of an encounter has its layers, with the start of its MAC as the tag. */
  lemma StoredLayers(c: Crypto, key: Bits256, secret: Bits, tag: Bits)
    requires |secret| == ENCRYPTED_BITS && |tag| == MAC_KEPT
    ensures DataBits(Twice(c, Record(key, c.Ctr(c.right, key, secret) + tag))) == Layered(c, key, secret, tag)
    ensures KeyBits(Record(key, c.Ctr(c.right, key, secret) + tag)) == key
  {
    var d0 := c.Ctr(c.right, key, secret) + tag;
    RecordBits(key, d0);
    var key1 := c.hash(c.left + key);
    var d1 := c.Ctr(c.left, key1, d0);
    RecordBits(key1, d1);
    var key2 := c.hash(c.right + key1);
    RecordBits(key2, c.Ctr(c.right, key2, d1));
    hide BitsOf, VecOf, KeyBits, DataBits, Record, Crypto.Ctr;
  }

  /** Bit by bit, key says where the two secrets differ. */
  predicate IsMacKey(left: Bits256, right: Bits256, key: Bits256) {
    forall i :: 0 <= i < 256 ==> (key[i] <==> left[i] != right[i])
  }

  /** The MAC is the hash of the data behind the bitwise difference of the two secrets. */
  lemma MacKeyed(c: Crypto, key: Bits256, data: Bits)
    requires IsMacKey(c.left, c.right, key)
    ensures c.Mac(data) == c.hash(key + data)
  {
    assert key == seq(256, i requires 0 <= i < 256 => c.left[i] != c.right[i]);
  }

  /**
   The MAC depends on both secrets and on the data: where the hash does not collide, two MACs are equal if
   and only if the data are and the two pairs of secrets differ in the same places.
   */
  lemma MacDependsOnBoth(c: Crypto, left: Bits256, right: Bits256, x: Bits, y: Bits, k: Bits256, l: Bits256)
    requires IsMacKey(c.left, c.right, k) && IsMacKey(left, right, l)
    requires c.hash(k + x) == c.hash(l + y) ==> k + x == l + y
    ensures c.Mac(x) == c.(left := left, right := right).Mac(y) <==>
              x == y && forall i :: 0 <= i < 256 ==> (c.left[i] != c.right[i] <==> left[i] != right[i])
  {
    MacKeyed(c, k, x);
    MacKeyed(c.(left := left, right := right), l, y);
    hide Crypto.Mac;
    if k + x == l + y {
      assert k == (k + x)[..256] == (l + y)[..256] == l;
      assert x == (k + x)[256..] == (l + y)[256..] == y;
    }
    if forall i :: 0 <= i < 256 ==> (c.left[i] != c.right[i] <==> left[i] != right[i]) {
      assert k == l;
    }
  }

  /** Under distinct keys, whatever payload the shuffle stores under a record's final key is that record's. */
  lemma OnlyPayload(c: Crypto, s: seq<StorableEncounter>, i: nat, payload: Payload)
    requires i < |s| && DistinctKeys(c, s)
    requires StoredUnder(BothShuffles(c, s), VecOf(FinalKey(c, KeyBits(s[i]))), payload)
    ensures StorableEncounter(VecOf(FinalKey(c, KeyBits(s[i]))), payload.0, payload.1) == Twice(c, s[i])
  {
    var key := FinalKey(c, KeyBits(s[i]));
    var x := StorableEncounter(VecOf(key), payload.0, payload.1);
    hide VecOf, BitsOf, KeyBits, DataBits, FinalKey, Twice, BothShuffles;
    BothShufflesRecords(c, s, x);
    assert x in BothShuffles(c, s);
    var j :| 0 <= j < |s| && x == Twice(c, s[j]);
    FinalKeyOf(c, s[j]);
    BitsOfVecOf(key);
    BitsOfVecOf(FinalKey(c, KeyBits(s[j])));
  }
}
