/**
 The mapper: reading one tile of encounters bit by bit from the store, and the two queries on it.
 A garbled value is read as the bit it stands for.
 */
module Mapper {
  import opened Powers
  import opened Wrappers
  import opened BitVectors
  import opened Integers
  import opened Network
  import opened Reducer

  const DID_BITS: nat := 256
  const HASH_BITS: nat := 32
  const TILE_BITS: nat := 2 * 256 + 32 + 16 + 8

  /** Tiles stored under their keys; an absent key reads as an empty value. */
  type Redis = map<string, Bits>

  function Get(redis: Redis, key: string): Bits {
    if key in redis then redis[key] else []
  }

  // ---- What a stored tile means ----

  datatype Encounter = Encounter(device: Bits, encountered: Bits, confirmed: bool)

  predicate HoldsTile(value: Bits, tileSize: nat) {
    |value| == tileSize * TILE_BITS
  }

  function Slice(value: Bits, start: nat, length: nat): Bits
    requires start + length <= |value|
  {
    value[start..start + length]
  }

  lemma SliceOfSlice(value: Bits, start: nat, length: nat, from: nat, size: nat)
    requires start + length <= |value| && from + size <= length
    ensures Slice(value, start, length)[from..from + size] == Slice(value, start + from, size)
  {
    var outer, inner := Slice(value, start, length)[from..from + size], Slice(value, start + from, size);
    forall i | 0 <= i < size
      ensures outer[i] == inner[i]
    {
      assert inner[i] == value[start + from + i];
    }
  }

  /** Record j: first device, second device, and the confirmed flag in the record's last bit. */
  function EncounterAt(value: Bits, tileSize: nat, j: nat): Encounter
    requires HoldsTile(value, tileSize) && j < tileSize
  {
    RecordInside(value, tileSize, j);
    var record := Slice(value, j * TILE_BITS, TILE_BITS);
    Encounter(record[..DID_BITS], record[DID_BITS..2 * DID_BITS], record[TILE_BITS - 1])
  }

  lemma RecordInside(value: Bits, tileSize: nat, j: nat)
    requires HoldsTile(value, tileSize) && j < tileSize
    ensures 0 <= j * TILE_BITS && j * TILE_BITS + TILE_BITS <= |value|
  {}

  /** The low 32 bits of a device id, read as a signed integer: its fingerprint. */
  function Fingerprint(device: Bits): Int32
    requires |device| >= HASH_BITS
  {
    Pow2Of32();
    var v := Unsigned(device[..HASH_BITS]);
    if v >= 0x8000_0000 then v - 0x1_0000_0000 else v
  }

  /** The entry a record contributes: the fingerprint met, or none. */
  function Entry(e: Encounter, sick: Bits): Int32
    requires |e.encountered| == DID_BITS
  {
    if e.device == sick && e.confirmed then Fingerprint(e.encountered) else NONE
  }

  function Entries(value: Bits, tileSize: nat, sick: Bits, n: nat): (r: seq<Int32>)
    requires HoldsTile(value, tileSize) && n <= tileSize
    ensures |r| == n
  {
    if n == 0 then [] else Entries(value, tileSize, sick, n - 1) + [Entry(EncounterAt(value, tileSize, n - 1), sick)]
  }

  /** The fingerprints of the devices the sick device met in confirmed encounters of the tile. */
  ghost function Met(value: Bits, tileSize: nat, sick: Bits): set<Int32>
    requires HoldsTile(value, tileSize)
  {
    set j | 0 <= j < tileSize && EncounterAt(value, tileSize, j).device == sick &&
            EncounterAt(value, tileSize, j).confirmed
          :: Fingerprint(EncounterAt(value, tileSize, j).encountered)
  }

  lemma {:induction false} EntriesAt(value: Bits, tileSize: nat, sick: Bits, n: nat, j: nat)
    requires HoldsTile(value, tileSize) && j < n <= tileSize
    ensures Entries(value, tileSize, sick, n)[j] == Entry(EncounterAt(value, tileSize, j), sick)
  {
    if j < n - 1 {
      EntriesAt(value, tileSize, sick, n - 1, j);
    }
  }

  // ---- The same in the bits of the stored tile ----

  /** A value as 32 bits in two's complement, lowest first. */
  function Word(x: Int32): (w: Bits)
    ensures |w| == HASH_BITS
  {
    ToBits(if x < 0 then x + 0x1_0000_0000 else x, HASH_BITS)
  }

  lemma WordIs(x: Int32)
    ensures Unsigned(Word(x)) == if x < 0 then x + 0x1_0000_0000 else x
  {
    Pow2Of32();
    UnsignedOfToBits(if x < 0 then x + 0x1_0000_0000 else x, HASH_BITS);
    hide Unsigned, ToBits;
  }

  /** The bits of a fingerprint are the low 32 bits of the device id. */
  lemma FingerprintBits(device: Bits)
    requires |device| >= HASH_BITS
    ensures Word(Fingerprint(device)) == device[..HASH_BITS]
    ensures (Fingerprint(device) - Unsigned(device[..HASH_BITS])) % 0x1_0000_0000 == 0
  {
    Pow2Of32();
    assert |device[..HASH_BITS]| == 32;
    hide Unsigned, Word;
    WordIs(Fingerprint(device));
    UnsignedInjective(Word(Fingerprint(device)), device[..HASH_BITS]);
  }

  /** Two devices share a fingerprint if and only if their low 32 bits agree. */
  lemma SameFingerprint(d: Bits, e: Bits)
    requires |d| >= HASH_BITS && |e| >= HASH_BITS
    ensures Fingerprint(d) == Fingerprint(e) <==> d[..HASH_BITS] == e[..HASH_BITS]
  {
    FingerprintBits(d);
    FingerprintBits(e);
    WordIs(Fingerprint(d));
    WordIs(Fingerprint(e));
    hide Fingerprint, Word, Unsigned;
  }

  /** Record j of the stored bits is a confirmed encounter of the sick device. */
  predicate SickAt(value: Bits, tileSize: nat, sick: Bits, j: nat)
    requires HoldsTile(value, tileSize) && j < tileSize
  {
    RecordInside(value, tileSize, j);
    value[j * TILE_BITS..j * TILE_BITS + DID_BITS] == sick && value[j * TILE_BITS + TILE_BITS - 1]
  }

  /** The low 32 bits of the second device of record j. */
  function MetBits(value: Bits, tileSize: nat, j: nat): Bits
    requires HoldsTile(value, tileSize) && j < tileSize
  {
    RecordInside(value, tileSize, j);
    value[j * TILE_BITS + DID_BITS..j * TILE_BITS + DID_BITS + HASH_BITS]
  }

  /** x is the entry for record j: the low bits of the device met, or none. */
  predicate EntryFrom(value: Bits, tileSize: nat, sick: Bits, j: nat, x: Int32)
    requires HoldsTile(value, tileSize) && j < tileSize
  {
    if SickAt(value, tileSize, sick, j) then Word(x) == MetBits(value, tileSize, j) else x == NONE
  }

  lemma EncounterBits(value: Bits, tileSize: nat, sick: Bits, j: nat)
    requires HoldsTile(value, tileSize) && j < tileSize
    ensures var e := EncounterAt(value, tileSize, j);
            && |e.encountered| == DID_BITS
            && (e.device == sick && e.confirmed <==> SickAt(value, tileSize, sick, j))
            && e.encountered[..HASH_BITS] == MetBits(value, tileSize, j)
  {
    RecordInside(value, tileSize, j);
    SliceOfSlice(value, j * TILE_BITS, TILE_BITS, 0, DID_BITS);
    SliceOfSlice(value, j * TILE_BITS, TILE_BITS, DID_BITS, DID_BITS);
    SliceOfSlice(value, j * TILE_BITS + DID_BITS, DID_BITS, 0, HASH_BITS);
  }

  /** The list holds the entries of all records in order. */
  ghost predicate EntriesFrom(value: Bits, tileSize: nat, sick: Bits, list: seq<Int32>) {
    && HoldsTile(value, tileSize) && |list| == tileSize
    && forall j :: 0 <= j < tileSize ==> EntryFrom(value, tileSize, sick, j, list[j])
  }

  lemma EntriesBits(value: Bits, tileSize: nat, sick: Bits)
    requires HoldsTile(value, tileSize)
    ensures EntriesFrom(value, tileSize, sick, Entries(value, tileSize, sick, tileSize))
  {
    forall j | 0 <= j < tileSize
      ensures EntryFrom(value, tileSize, sick, j, Entries(value, tileSize, sick, tileSize)[j])
    {
      EntryBits(value, tileSize, sick, j);
    }
    hide EntryFrom, Entries, HoldsTile;
  }

  /** Each entry comes from the bits of its record. */
  lemma EntryBits(value: Bits, tileSize: nat, sick: Bits, j: nat)
    requires HoldsTile(value, tileSize) && j < tileSize
    ensures EntryFrom(value, tileSize, sick, j, Entries(value, tileSize, sick, tileSize)[j])
  {
    EntriesAt(value, tileSize, sick, tileSize, j);
    EncounterBits(value, tileSize, sick, j);
    FingerprintBits(EncounterAt(value, tileSize, j).encountered);
    hide EncounterAt, Entries, Fingerprint, SickAt, MetBits, Word, HoldsTile;
  }

  /** Some record is a confirmed encounter of the sick device with a device of these low bits. */
  ghost predicate MetWithBits(value: Bits, tileSize: nat, sick: Bits, w: Bits)
    requires HoldsTile(value, tileSize)
  {
    exists j :: 0 <= j < tileSize && SickAt(value, tileSize, sick, j) && MetBits(value, tileSize, j) == w
  }

  ghost predicate Lists(list: seq<Int32>, w: Bits) {
    exists i :: 0 <= i < |list| && Word(list[i]) == w
  }

  lemma MetInBits(value: Bits, tileSize: nat, sick: Bits, x: Int32)
    requires HoldsTile(value, tileSize)
    ensures x in Met(value, tileSize, sick) <==> MetWithBits(value, tileSize, sick, Word(x))
  {
    forall j | 0 <= j < tileSize
      ensures var e := EncounterAt(value, tileSize, j);
              && (e.device == sick && e.confirmed <==> SickAt(value, tileSize, sick, j))
              && |e.encountered| == DID_BITS
              && (Fingerprint(e.encountered) == x <==> MetBits(value, tileSize, j) == Word(x))
    {
      EncounterBits(value, tileSize, sick, j);
      FingerprintBits(EncounterAt(value, tileSize, j).encountered);
      WordIs(Fingerprint(EncounterAt(value, tileSize, j).encountered));
      WordIs(x);
      hide EncounterAt, Fingerprint, SickAt, MetBits, Word, HoldsTile, Unsigned;
    }
    hide EncounterAt, Fingerprint, SickAt, MetBits, Word, HoldsTile;
  }

  /** Apart from none, a list of the fingerprints met lists exactly the low bits of the devices met. */
  lemma ListedInBits(value: Bits, tileSize: nat, sick: Bits, list: seq<Int32>, w: Bits)
    requires HoldsTile(value, tileSize) && DescendingSet(list, Met(value, tileSize, sick))
    requires |w| == HASH_BITS && w != Word(NONE)
    ensures Lists(list, w) <==> MetWithBits(value, tileSize, sick, w)
  {
    var x := OfWord(w);
    MetInBits(value, tileSize, sick, x);
    forall y: Int32
      ensures Word(y) == w <==> y == x
    {
      WordIs(x);
      WordIs(y);
    }
    hide Met, MetWithBits, Word;
    var n: nat :| IsDescendingSet(list, Met(value, tileSize, sick), n);
  }

  lemma OfWord(w: Bits) returns (x: Int32)
    requires |w| == HASH_BITS
    ensures Word(x) == w
  {
    x := Fingerprint(w);
    FingerprintBits(w);
    assert w[..HASH_BITS] == w;
  }

  /** Apart from none, the entries of a tile are exactly the fingerprints met. */
  lemma EntriesAreMet(value: Bits, tileSize: nat, sick: Bits)
    requires HoldsTile(value, tileSize)
    ensures Elements(Entries(value, tileSize, sick, tileSize)) - {NONE} == Met(value, tileSize, sick) - {NONE}
  {
    var e := Entries(value, tileSize, sick, tileSize);
    forall x | x in e && x != NONE
      ensures x in Met(value, tileSize, sick)
    {
      var j :| 0 <= j < |e| && e[j] == x;
      EntriesAt(value, tileSize, sick, tileSize, j);
    }
    forall x | x in Met(value, tileSize, sick)
      ensures x in e
    {
      var j :| 0 <= j < tileSize && EncounterAt(value, tileSize, j).device == sick
               && EncounterAt(value, tileSize, j).confirmed
               && x == Fingerprint(EncounterAt(value, tileSize, j).encountered);
      EntriesAt(value, tileSize, sick, tileSize, j);
      assert e[j] == x;
    }
    hide EncounterAt, Entries, Fingerprint;
  }

  // ---- Reading a record bit by bit ----

  /** Copies length bits of value from offset on. */
  method CopyBits(value: Bits, offset: nat, length: nat) returns (bits: Bits)
    requires offset + length <= |value|
    ensures bits == Slice(value, offset, length)
  {
    bits := [];
    for i := 0 to length
      invariant bits == value[offset..offset + i]
    {
      bits := bits + [value[offset + i]];
    }
  }

  /** Copies the eight bits at offset in reverse, as both queries read the confirmed byte. */
  method CopyReversed(value: Bits, offset: nat) returns (bits: Bits)
    requires offset + 8 <= |value|
    ensures |bits| == 8 && forall i :: 0 <= i < 8 ==> bits[i] == value[offset + 7 - i]
  {
    var a := new bool[8](_ => false);
    for i := 0 to 8
      invariant forall k :: 8 - i <= k < 8 ==> a[k] == value[offset + 7 - k]
    {
      a[7 - i] := value[offset + i];
    }
    bits := a[..];
  }

  /** Reads the parts of record j that the queries look at. */
  method ReadRecord(value: Bits, tileSize: nat, j: nat) returns (did1: Bits, did2: Bits, conf: Bits)
    requires HoldsTile(value, tileSize) && j < tileSize
    ensures |conf| == 8 && Encounter(did1, did2, conf[0]) == EncounterAt(value, tileSize, j)
  {
    RecordInside(value, tileSize, j);
    var skip := TILE_BITS - 8;
    did1 := CopyBits(value, j * TILE_BITS, DID_BITS);
    did2 := CopyBits(value, j * TILE_BITS + DID_BITS, DID_BITS);
    conf := CopyReversed(value, j * TILE_BITS + skip);
    ghost var record := Slice(value, j * TILE_BITS, TILE_BITS);
    SliceOfSlice(value, j * TILE_BITS, TILE_BITS, 0, DID_BITS);
    SliceOfSlice(value, j * TILE_BITS, TILE_BITS, DID_BITS, DID_BITS);
    assert conf[0] == record[TILE_BITS - 1];
  }

  // ---- The two queries ----

  /** Appends to tile one entry per record; nothing is returned for an absent key. */
  method RunQueryUniqueDevices(redis: Redis, key: string, tile: seq<Int32>, tileSize: nat, sick: Bits)
    returns (r: Option<seq<Int32>>)
    requires Get(redis, key) == [] || HoldsTile(Get(redis, key), tileSize)
    ensures r.None? <==> Get(redis, key) == []
    ensures r.Some? ==> r.value == tile + Entries(Get(redis, key), tileSize, sick, tileSize)
    ensures r.Some? ==> key in redis && |r.value| == |tile| + tileSize && r.value[..|tile|] == tile
                        && EntriesFrom(redis[key], tileSize, sick, r.value[|tile|..])
  {
    var value := Get(redis, key);
    if |value| == 0 {
      return None;
    }
    var result := tile;
    for j := 0 to tileSize
      invariant result == tile + Entries(value, tileSize, sick, j)
    {
      var did1, did2, conf := ReadRecord(value, tileSize, j);
      hide EncounterAt, Fingerprint;
      result := result + [if did1 == sick && conf[0] then Fingerprint(did2) else NONE];
    }
    r := Some(result);
    EntriesBits(value, tileSize, sick);
    assert result[|tile|..] == Entries(value, tileSize, sick, tileSize);
    hide EntriesFrom, Entries;
  }

  /** The in-place variant: the entries go to the cells from startIdx on. */
  method RunQueryInPlace(redis: Redis, key: string, tile: array<Int32>, startIdx: nat, tileSize: nat, sick: Bits)
    returns (ok: bool)
    requires Get(redis, key) == [] || HoldsTile(Get(redis, key), tileSize)
    requires startIdx + tileSize <= tile.Length
    modifies tile
    ensures ok <==> Get(redis, key) != []
    ensures tile[..] == if !ok then old(tile[..])
                        else old(tile[..startIdx]) + Entries(Get(redis, key), tileSize, sick, tileSize)
                             + old(tile[startIdx + tileSize..])
    ensures ok ==> key in redis && EntriesFrom(redis[key], tileSize, sick, tile[startIdx..startIdx + tileSize])
  {
    var value := Get(redis, key);
    if |value| == 0 {
      return false;
    }
    for j := 0 to tileSize
      invariant tile[..startIdx] == old(tile[..startIdx])
      invariant tile[startIdx..startIdx + j] == Entries(value, tileSize, sick, j)
      invariant tile[startIdx + j..] == old(tile[startIdx + j..])
    {
      var did1, did2, conf := ReadRecord(value, tileSize, j);
      hide EncounterAt, Fingerprint;
      tile[startIdx + j] := if did1 == sick && conf[0] then Fingerprint(did2) else NONE;
      assert old(tile[startIdx + j..])[1..] == old(tile[startIdx + j + 1..]);
      assert tile[startIdx + j..][1..] == tile[startIdx + j + 1..];
    }
    assert tile[..] == tile[..startIdx] + tile[startIdx..startIdx + tileSize] + tile[startIdx + tileSize..];
    ok := true;
    EntriesBits(value, tileSize, sick);
    hide EntriesFrom, Entries;
  }

  /**
   process_first_pair(): map the same tile twice, sort descending, mark duplicates, compact.  The
   result is the strictly descending list of the fingerprints met, followed by none.
   */
  method ProcessFirstPair(redis: Redis, key: string, tileSize: nat, sick: Bits) returns (r: Option<seq<Int32>>)
    requires Get(redis, key) == [] || HoldsTile(Get(redis, key), tileSize)
    ensures r.None? <==> Get(redis, key) == []
    ensures r.Some? ==> |r.value| == 2 * tileSize
    ensures r.Some? ==> DescendingSet(r.value, Met(Get(redis, key), tileSize, sick))
    ensures r.Some? ==> Sorted(r.value, Signed(), false)
    ensures r.Some? ==> key in redis && forall w: Bits :: |w| == HASH_BITS && w != Word(NONE) ==>
                          (Lists(r.value, w) <==> MetWithBits(redis[key], tileSize, sick, w))
  {
    var first := RunQueryUniqueDevices(redis, key, [], tileSize, sick);
    if first.None? {
      return None;
    }
    var both := RunQueryUniqueDevices(redis, key, first.value, tileSize, sick);
    var lists := Sort(both.value, Signed(), false);
    SortCorrect(both.value, Signed(), false);
    hide Sort, Sorted, DescendingSet, Met, Entries;
    var data := MarkAndCompact(lists);
    ghost var value := Get(redis, key);
    EntriesAreMet(value, tileSize, sick);
    SameNonNone(both.value, lists, Entries(value, tileSize, sick, tileSize), data, Met(value, tileSize, sick));
    r := Some(data);
    forall w: Bits | |w| == HASH_BITS && w != Word(NONE)
      ensures Lists(data, w) <==> MetWithBits(value, tileSize, sick, w)
    {
      ListedInBits(value, tileSize, sick, data, w);
    }
  }

  /** Only the non-none elements of the sorted list matter for what the compacted list contains. */
  lemma SameNonNone(both: seq<Int32>, lists: seq<Int32>, entries: seq<Int32>, r: seq<Int32>, met: set<Int32>)
    requires both == [] + entries + entries && multiset(lists) == multiset(both)
    requires Elements(entries) - {NONE} == met - {NONE} && DescendingSet(r, Elements(lists))
    ensures DescendingSet(r, met)
  {
    var n: nat :| IsDescendingSet(r, Elements(lists), n);
    forall x
      ensures x in lists <==> x in entries
    {
      SameRecords(both, lists, x);
    }
    forall x | x != NONE
      ensures x in met <==> x in entries
    {
      assert x in Elements(entries) - {NONE} <==> x in met - {NONE};
    }
    assert IsDescendingSet(r, met, n);
  }
}
