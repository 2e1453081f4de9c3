/**
 Ingress of a tile: sort by encounter id, confirm what two devices both reported, store the tile bit
 by bit; and the query that counts a device's confirmed encounters in what was stored.
 */
module Ingress {
  import opened Powers
  import opened Wrappers
  import opened BitVectors
  import opened Network
  import opened Mapper

  const CONFIRMED_INDEX: nat := TILE_BITS - 1

  /** One tile record: device, encountered device, time, duration, confirmed byte. */
  type TileRecord = r: Bits | |r| == TILE_BITS witness seq(TILE_BITS, _ => false)

  /** An uploaded encounter: its id, and its record. */
  datatype Row = Row(id: int, record: TileRecord)

  function IdRank(): Row -> int {
    (r: Row) => r.id
  }

  function DeviceOf(r: TileRecord): (d: Bits)
    ensures |d| == DID_BITS
  {
    r[..DID_BITS]
  }

  function WithMet(r: TileRecord, device: Bits): TileRecord
    requires |device| == DID_BITS
  {
    r[..DID_BITS] + device + r[2 * DID_BITS..]
  }

  // ---- What confirmation computes ----

  /** A neighbour has the same id. */
  predicate Doubled(rows: seq<Row>, i: nat)
    requires i < |rows|
  {
    (i > 0 && rows[i].id == rows[i - 1].id) || (i + 1 < |rows| && rows[i].id == rows[i + 1].id)
  }

  /** Where the scan copies the encountered device from. */
  function Partner(rows: seq<Row>, i: nat): (j: nat)
    requires i < |rows| && |rows| >= 2
    ensures j < |rows| && j != i
  {
    if i == 0 then 1
    else if i == |rows| - 1 then i - 1
    else if rows[i].id == rows[i + 1].id then i + 1 else i - 1
  }

  function ConfirmedRecord(rows: seq<Row>, i: nat): TileRecord
    requires i < |rows| && |rows| >= 2
  {
    WithMet(rows[i].record[CONFIRMED_INDEX := Doubled(rows, i)], DeviceOf(rows[Partner(rows, i)].record))
  }

  lemma ConfirmedParts(rows: seq<Row>, i: nat)
    requires i < |rows| && |rows| >= 2
    ensures var r := ConfirmedRecord(rows, i);
            && r[..DID_BITS] == DeviceOf(rows[i].record)
            && r[DID_BITS..2 * DID_BITS] == DeviceOf(rows[Partner(rows, i)].record)
            && r[CONFIRMED_INDEX] == Doubled(rows, i)
  {
    hide Doubled, Partner;
  }

  /**
   What the scan makes of record i: its own device and middle part; the device of the next record if i is the
   first or the next has its id and i is not the last, and of the previous one otherwise; and in the last bit
   whether a neighbour has its id.
   */
  predicate ScannedFrom(rows: seq<Row>, i: nat, r: TileRecord)
    requires i < |rows| && |rows| >= 2
  {
    var source :=
      if i == 0 || (i + 1 < |rows| && rows[i].id == rows[i + 1].id) then rows[i + 1].record else rows[i - 1].record;
    && r[..256] == rows[i].record[..256]
    && r[256..512] == source[..256]
    && r[512..567] == rows[i].record[512..567]
    && (r[567] <==> (i > 0 && rows[i - 1].id == rows[i].id) || (i + 1 < |rows| && rows[i + 1].id == rows[i].id))
  }

  lemma ConfirmedIsScanned(rows: seq<Row>, i: nat)
    requires i < |rows| && |rows| >= 2
    ensures ScannedFrom(rows, i, ConfirmedRecord(rows, i))
  {
    ConfirmedParts(rows, i);
    var own := rows[i].record[CONFIRMED_INDEX := Doubled(rows, i)];
    assert WithMet(own, DeviceOf(rows[Partner(rows, i)].record))[512..567] == own[512..567] == rows[i].record[512..567];
  }

  // ---- Counting rows ----

  function CountIf<T>(s: seq<T>, f: T -> bool): (n: nat)
    ensures n <= |s|
  {
    if s == [] then 0 else CountIf(s[..|s| - 1], f) + if f(s[|s| - 1]) then 1 else 0
  }

  lemma {:induction false} CountRemove<T>(s: seq<T>, f: T -> bool, i: nat)
    requires i < |s|
    ensures CountIf(s, f) == CountIf(s[..i] + s[i + 1..], f) + if f(s[i]) then 1 else 0
  {
    var last := |s| - 1;
    if i < last {
      CountRemove(s[..last], f, i);
      assert s[..last][..i] + s[..last][i + 1..] == (s[..i] + s[i + 1..])[..last - 1];
    } else {
      assert s[..i] + s[i + 1..] == s[..last];
    }
  }

  lemma OneLess<T>(s: seq<T>, i: nat)
    requires i < |s|
    ensures multiset(s[..i] + s[i + 1..]) == multiset(s) - multiset{s[i]}
  {
    assert s == s[..i] + [s[i]] + s[i + 1..];
  }

  /** Counting does not depend on the order. */
  lemma {:induction false} CountPermuted<T>(s: seq<T>, t: seq<T>, f: T -> bool)
    requires multiset(s) == multiset(t)
    ensures CountIf(s, f) == CountIf(t, f)
    decreases |s|
  {
    assert |s| == |multiset(s)| == |multiset(t)| == |t|;
    if s != [] {
      var last := |s| - 1;
      SameRecords(s, t, s[last]);
      var i :| 0 <= i < |t| && t[i] == s[last];
      CountRemove(t, f, i);
      OneLess(s, last);
      OneLess(t, i);
      assert s[..last] + s[last + 1..] == s[..last];
      CountPermuted(s[..last], t[..i] + t[i + 1..], f);
    }
  }

  lemma {:induction false} CountTwo<T>(s: seq<T>, f: T -> bool, i: nat, j: nat)
    requires i < j < |s| && f(s[i]) && f(s[j])
    ensures CountIf(s, f) >= 2
  {
    CountRemove(s, f, j);
    var rest := s[..j] + s[j + 1..];
    assert rest[i] == s[i];
    CountRemove(rest, f, i);
  }

  /** A second one, besides the one at i. */
  lemma {:induction false} AnotherOne<T>(s: seq<T>, f: T -> bool, i: nat) returns (j: nat)
    requires i < |s| && CountIf(s, f) >= 2
    ensures j < |s| && j != i && f(s[j])
  {
    CountRemove(s, f, i);
    var rest := s[..i] + s[i + 1..];
    j := SomeOne(rest, f);
    j := if j < i then j else j + 1;
  }

  lemma {:induction false} SomeOne<T>(s: seq<T>, f: T -> bool) returns (j: nat)
    requires CountIf(s, f) >= 1
    ensures j < |s| && f(s[j])
  {
    j := |s| - 1;
    if !f(s[j]) {
      j := SomeOne(s[..j], f);
    }
  }

  function HasId(id: int): Row -> bool {
    (r: Row) => r.id == id
  }

  /** How many uploaded encounters have the id. */
  function Occurrences(rows: seq<Row>, id: int): nat {
    CountIf(rows, HasId(id))
  }

  // ---- What confirmation means on a sorted tile ----

  lemma SortedIds(rows: seq<Row>, i: nat, j: nat)
    requires Sorted(rows, IdRank(), true) && i <= j < |rows|
    ensures rows[i].id <= rows[j].id
  {
    assert i == j || Dir(IdRank(), true, rows[i]) <= Dir(IdRank(), true, rows[j]);
  }

  /** On a tile sorted by id the bit is set exactly on the records whose id occurs at least twice. */
  lemma DoubledMeansTwice(rows: seq<Row>, i: nat)
    requires Sorted(rows, IdRank(), true) && i < |rows|
    ensures Doubled(rows, i) <==> Occurrences(rows, rows[i].id) >= 2
  {
    hide Sorted, CountIf;
    var f := HasId(rows[i].id);
    if i > 0 && rows[i].id == rows[i - 1].id {
      CountTwo(rows, f, i - 1, i);
    }
    if i + 1 < |rows| && rows[i].id == rows[i + 1].id {
      CountTwo(rows, f, i, i + 1);
    }
    if Occurrences(rows, rows[i].id) >= 2 {
      var j := AnotherOne(rows, f, i);
      if j < i {
        SortedIds(rows, j, i - 1);
        SortedIds(rows, i - 1, i);
      } else {
        SortedIds(rows, i, i + 1);
        SortedIds(rows, i + 1, j);
      }
    }
  }

  /** Where an id occurs at least twice, the scan copies from another record of that id, next to this one. */
  lemma PartnerOfDoubled(rows: seq<Row>, i: nat)
    requires Sorted(rows, IdRank(), true) && i < |rows| && Occurrences(rows, rows[i].id) >= 2
    ensures |rows| >= 2
    ensures var j := Partner(rows, i); j != i && rows[j].id == rows[i].id && (j == i + 1 || j + 1 == i)
  {
    DoubledMeansTwice(rows, i);
    hide Sorted, CountIf;
  }

  /** Where an id occurs exactly twice, the scan copies from the other occurrence. */
  lemma PartnerOfPair(rows: seq<Row>, i: nat, j: nat)
    requires Sorted(rows, IdRank(), true) && i < |rows| && j < |rows| && i != j
    requires rows[i].id == rows[j].id && Occurrences(rows, rows[i].id) == 2
    ensures Partner(rows, i) == j
  {
    hide Sorted;
    var f := HasId(rows[i].id);
    AdjacentPair(rows, i, j);
    CountThree(rows, f, i, j);
    assert forall k :: 0 <= k < |rows| && rows[k].id == rows[i].id ==> f(rows[k]) && (k == i || k == j);
    if i < j {
      assert i + 1 == j by { assert rows[i + 1].id == rows[i].id; }
    } else {
      assert j + 1 == i by { assert rows[j + 1].id == rows[i].id; }
    }
  }

  /** Two occurrences of an id on a sorted tile have only occurrences between them. */
  lemma AdjacentPair(rows: seq<Row>, i: nat, j: nat)
    requires Sorted(rows, IdRank(), true) && i < |rows| && j < |rows| && i != j && rows[i].id == rows[j].id
    ensures forall k :: (i < k < j || j < k < i) ==> rows[k].id == rows[i].id
  {
    hide Sorted;
    forall k | i < k < j || j < k < i
      ensures rows[k].id == rows[i].id
    {
      SortedIds(rows, if i < j then i else j, k);
      SortedIds(rows, k, if i < j then j else i);
    }
  }

  lemma CountThree(rows: seq<Row>, f: Row -> bool, i: nat, j: nat)
    requires i < |rows| && j < |rows| && i != j && f(rows[i]) && f(rows[j]) && CountIf(rows, f) == 2
    ensures forall k :: 0 <= k < |rows| && f(rows[k]) ==> k == i || k == j
  {
    hide CountIf;
    forall k | 0 <= k < |rows| && f(rows[k])
      ensures k == i || k == j
    {
      if k != i && k != j {
        CountRemove(rows, f, i);
        var rest := rows[..i] + rows[i + 1..];
        var j', k' := if j < i then j else j - 1, if k < i then k else k - 1;
        assert rest[j'] == rows[j] && rest[k'] == rows[k];
        CountTwo(rest, f, if j' < k' then j' else k', if j' < k' then k' else j');
      }
    }
  }

  // ---- The scan ----

  /** Copies the device of other into the met field of tile[i], bit by bit. */
  method SetEncounteredDeviceId(tile: array<TileRecord>, i: nat, other: TileRecord)
    requires i < tile.Length
    modifies tile
    ensures tile[..] == old(tile[..])[i := WithMet(old(tile[i]), DeviceOf(other))]
  {
    for j := 0 to DID_BITS
      invariant forall k :: 0 <= k < tile.Length && k != i ==> tile[k] == old(tile[k])
      invariant tile[i] == old(tile[i])[..DID_BITS] + other[..j] + old(tile[i])[DID_BITS + j..]
    {
      tile[i] := tile[i][DID_BITS + j := other[j]];
    }
  }

  /** Sets record i's bit and copies its partner's device, given that no device field has changed so far. */
  method ConfirmOne(tile: array<TileRecord>, i: nat, confirmed: bool, other: TileRecord, ghost rows: seq<Row>)
    requires |rows| == tile.Length >= 2 && i < tile.Length
    requires tile[i] == rows[i].record && confirmed == Doubled(rows, i)
    requires DeviceOf(other) == DeviceOf(rows[Partner(rows, i)].record)
    modifies tile
    ensures tile[..] == old(tile[..])[i := ConfirmedRecord(rows, i)]
  {
    hide Doubled, Partner, WithMet;
    tile[i] := tile[i][CONFIRMED_INDEX := confirmed];
    SetEncounteredDeviceId(tile, i, other);
  }

  /** confirm_encounters(): one scan over the tile, in place. */
  method ConfirmEncounters(tile: array<TileRecord>, ids: seq<int>, ghost rows: seq<Row>)
    requires |rows| == |ids| == tile.Length >= 2
    requires forall k :: 0 <= k < |rows| ==> rows[k] == Row(ids[k], tile[k])
    modifies tile
    ensures forall k :: 0 <= k < tile.Length ==> tile[k] == ConfirmedRecord(rows, k)
    ensures forall k :: 0 <= k < tile.Length ==> ScannedFrom(rows, k, tile[k])
  {
    hide ConfirmedRecord, DeviceOf, ScannedFrom;
    var n := tile.Length;
    ConfirmOne(tile, 0, ids[0] == ids[1], tile[1], rows);
    for i := 1 to n - 1
      invariant forall k :: 0 <= k < i ==> tile[k] == ConfirmedRecord(rows, k)
      invariant forall k :: i <= k < n ==> tile[k] == rows[k].record
    {
      SameDevice(rows, i - 1);
      var tmp := if ids[i] == ids[i + 1] then tile[i + 1] else tile[i - 1];
      ConfirmOne(tile, i, ids[i] == ids[i - 1] || ids[i] == ids[i + 1], tmp, rows);
    }
    SameDevice(rows, n - 2);
    ConfirmOne(tile, n - 1, ids[n - 1] == ids[n - 2], tile[n - 2], rows);
    forall k | 0 <= k < n
      ensures ScannedFrom(rows, k, tile[k])
    {
      ConfirmedIsScanned(rows, k);
    }
  }

  lemma SameDevice(rows: seq<Row>, i: nat)
    requires i < |rows| && |rows| >= 2
    ensures DeviceOf(ConfirmedRecord(rows, i)) == DeviceOf(rows[i].record)
  {
    ConfirmedParts(rows, i);
    hide ConfirmedRecord;
  }

  // ---- The stored tile ----

  /** The records of a tile one after the other. */
  function Serialised(tile: seq<TileRecord>): (b: Bits)
    ensures |b| == |tile| * TILE_BITS
  {
    if tile == [] then [] else Serialised(tile[..|tile| - 1]) + tile[|tile| - 1]
  }

  lemma {:induction false} SerialisedPrefix(tile: seq<TileRecord>, n: nat)
    requires n <= |tile|
    ensures n * TILE_BITS <= |tile| * TILE_BITS && Serialised(tile)[..n * TILE_BITS] == Serialised(tile[..n])
  {
    if n == |tile| {
      assert tile[..n] == tile;
    } else {
      SerialisedPrefix(tile[..|tile| - 1], n);
      assert tile[..|tile| - 1][..n] == tile[..n];
    }
  }

  /** What the mapper reads back for record j are the parts of record j. */
  lemma ReadBack(tile: seq<TileRecord>, j: nat)
    requires j < |tile|
    ensures HoldsTile(Serialised(tile), |tile|)
    ensures EncounterAt(Serialised(tile), |tile|, j)
         == Mapper.Encounter(tile[j][..DID_BITS], tile[j][DID_BITS..2 * DID_BITS], tile[j][CONFIRMED_INDEX])
  {
    SerialisedPrefix(tile, j + 1);
    RecordInside(Serialised(tile), |tile|, j);
    var value, upTo := Serialised(tile), Serialised(tile[..j + 1]);
    assert tile[..j + 1][..j] == tile[..j];
    assert upTo == Serialised(tile[..j]) + tile[j];
    hide Serialised;
    assert value[j * TILE_BITS..j * TILE_BITS + TILE_BITS] == upTo[j * TILE_BITS..] == tile[j];
  }

  /** store_garbled_data(): record j, bit i goes to position j * TILE_BITS + i. */
  method StoreGarbledData(tile: array<TileRecord>) returns (data: Bits)
    ensures data == Serialised(tile[..])
  {
    var blocks := new bool[tile.Length * TILE_BITS];
    for j := 0 to tile.Length
      invariant blocks[..j * TILE_BITS] == Serialised(tile[..j])
    {
      assert tile[..j + 1][..j] == tile[..j];
      hide Serialised;
      for i := 0 to TILE_BITS
        invariant blocks[..j * TILE_BITS] == Serialised(tile[..j])
        invariant blocks[j * TILE_BITS..j * TILE_BITS + i] == tile[j][..i]
      {
        blocks[j * TILE_BITS + i] := tile[j][i];
      }
      StoredOneMore(tile[..j + 1], blocks[..(j + 1) * TILE_BITS], blocks[..j * TILE_BITS]);
    }
    data := blocks[..];
    assert tile[..tile.Length] == tile[..];
  }

  lemma StoredOneMore(tile: seq<TileRecord>, now: Bits, before: Bits)
    requires tile != [] && before == Serialised(tile[..|tile| - 1]) && now == before + tile[|tile| - 1]
    ensures now == Serialised(tile)
  {}

  // ---- The count query ----

  /** How many of the first n records belong to the sick device and are confirmed. */
  function ConfirmedCount(value: Bits, tileSize: nat, sick: Bits, n: nat): (c: nat)
    requires HoldsTile(value, tileSize) && n <= tileSize
    ensures c <= n
  {
    if n == 0 then 0
    else
      var e := EncounterAt(value, tileSize, n - 1);
      ConfirmedCount(value, tileSize, sick, n - 1) + if e.device == sick && e.confirmed then 1 else 0
  }

  /** floor(log2(tileSize)) + 1 bits hold every count up to the tile size. */
  lemma CounterFits(tileSize: nat, c: nat)
    requires 0 < tileSize && c <= tileSize
    ensures c < Pow2(Log2(tileSize) + 1)
  {
    Log2Bounds(tileSize);
  }

  /** Addition in a counter of the given number of bits. */
  function AddWrapped(a: nat, b: nat, bits: nat): nat {
    (a + b) % Pow2(bits)
  }

  lemma NoWrap(a: nat, b: nat, bits: nat)
    requires a + b < Pow2(bits)
    ensures AddWrapped(a, b, bits) == a + b
  {
    SmallRemainder(a + b, Pow2(bits));
    hide Pow2;
  }

  lemma SmallRemainder(x: nat, p: nat)
    requires x < p
    ensures x % p == x
  {}

  /** run_query_count_encounters(): the counter never overflows, so the count is exact. */
  method RunQueryCountEncounters(redis: Redis, key: string, tileSize: nat, sick: Bits) returns (r: Option<nat>)
    requires tileSize > 0 && (Get(redis, key) == [] || HoldsTile(Get(redis, key), tileSize))
    ensures r.None? <==> Get(redis, key) == []
    ensures r.Some? ==> r.value == ConfirmedCount(Get(redis, key), tileSize, sick, tileSize)
  {
    var value := Get(redis, key);
    if |value| == 0 {
      return None;
    }
    var counterBits := Log2(tileSize) + 1;
    var count := 0;
    for j := 0 to tileSize
      invariant count == ConfirmedCount(value, tileSize, sick, j)
    {
      hide EncounterAt, Pow2, Log2, HoldsTile, AddWrapped;
      var did, met, conf := ReadRecord(value, tileSize, j);
      CounterFits(tileSize, j + 1);
      var one := if did == sick && conf[0] then 1 else 0;
      NoWrap(count, one, counterBits);
      count := AddWrapped(count, one, counterBits);
    }
    r := Some(count);
  }

  // ---- From upload to count ----

  function ConfirmedTile(rows: seq<Row>): (tile: seq<TileRecord>)
    requires |rows| >= 2
    ensures |tile| == |rows|
  {
    seq(|rows|, i requires 0 <= i < |rows| => ConfirmedRecord(rows, i))
  }

  /** Sort by encounter id, confirm, store. */
  method IngestTile(rows: seq<Row>) returns (value: Bits)
    requires |rows| >= 2
    ensures value == Serialised(ConfirmedTile(Sort(rows, IdRank(), true)))
  {
    hide Sort, ConfirmedRecord;
    var sorted := Sort(rows, IdRank(), true);
    var tile := new TileRecord[|sorted|](i requires 0 <= i < |sorted| => sorted[i].record);
    var ids := seq(|sorted|, i requires 0 <= i < |sorted| => sorted[i].id);
    ConfirmEncounters(tile, ids, sorted);
    assert tile[..] == ConfirmedTile(sorted);
    value := StoreGarbledData(tile);
  }

  /** Belongs to the sick device, and its id was uploaded at least twice. */
  function SickConfirmed(rows: seq<Row>, sick: Bits): Row -> bool {
    (r: Row) => DeviceOf(r.record) == sick && Occurrences(rows, r.id) >= 2
  }

  /**
   What is read back of each stored record: its device, whether its id occurs twice or more, and of a pair
   the other's device.
   */
  lemma StoredEncounter(rows: seq<Row>, sorted: seq<Row>, k: nat)
    requires |rows| == |sorted| >= 2 && k < |rows|
    requires Sorted(sorted, IdRank(), true) && multiset(sorted) == multiset(rows)
    ensures HoldsTile(Serialised(ConfirmedTile(sorted)), |sorted|)
    ensures var e := EncounterAt(Serialised(ConfirmedTile(sorted)), |sorted|, k);
            && e.device == DeviceOf(sorted[k].record)
            && (e.confirmed <==> Occurrences(rows, sorted[k].id) >= 2)
            && (Occurrences(rows, sorted[k].id) >= 2 ==>
                  exists j :: 0 <= j < |sorted| && j != k && sorted[j].id == sorted[k].id
                              && e.encountered == DeviceOf(sorted[j].record))
            && (Occurrences(rows, sorted[k].id) == 2 ==>
                  forall j :: 0 <= j < |sorted| && j != k && sorted[j].id == sorted[k].id ==>
                    e.encountered == DeviceOf(sorted[j].record))
  {
    hide Sorted, DeviceOf, Doubled, Partner, ConfirmedRecord, EncounterAt, Serialised, HoldsTile;
    ReadBack(ConfirmedTile(sorted), k);
    ConfirmedParts(sorted, k);
    DoubledMeansTwice(sorted, k);
    CountPermuted(sorted, rows, HasId(sorted[k].id));
    if Occurrences(rows, sorted[k].id) >= 2 {
      PartnerOfDoubled(sorted, k);
    }
    if Occurrences(rows, sorted[k].id) == 2 {
      forall j | 0 <= j < |sorted| && j != k && sorted[j].id == sorted[k].id
        ensures Partner(sorted, k) == j
      {
        PartnerOfPair(sorted, k, j);
      }
    }
  }

  lemma {:induction false} CountOverRows(rows: seq<Row>, sorted: seq<Row>, sick: Bits, n: nat)
    requires |rows| == |sorted| >= 2 && n <= |rows|
    requires Sorted(sorted, IdRank(), true) && multiset(sorted) == multiset(rows)
    ensures HoldsTile(Serialised(ConfirmedTile(sorted)), |sorted|)
    ensures ConfirmedCount(Serialised(ConfirmedTile(sorted)), |sorted|, sick, n)
            == CountIf(sorted[..n], SickConfirmed(rows, sick))
  {
    hide Sorted, DeviceOf, EncounterAt, Serialised, ConfirmedTile, Occurrences;
    StoredEncounter(rows, sorted, if n > 0 then n - 1 else 0);
    if n > 0 {
      CountOverRows(rows, sorted, sick, n - 1);
      assert sorted[..n][..n - 1] == sorted[..n - 1];
    }
  }

  /**
   Upload to count: after ingress of a tile, the count query returns exactly the number of uploaded
   encounters of the sick device whose id was uploaded at least twice.
   */
  method IngestAndCount(rows: seq<Row>, redis: Redis, key: string, sick: Bits) returns (redis': Redis, r: Option<nat>)
    requires |rows| >= 2
    ensures key in redis' && redis' == redis[key := redis'[key]]
    ensures r == Some(CountIf(rows, SickConfirmed(rows, sick)))
  {
    hide *;
    var value := IngestTile(rows);
    redis' := redis[key := value];
    StoredUnderKey(redis, key, value);
    var sorted := Sort(rows, IdRank(), true);
    SortCorrect(rows, IdRank(), true);
    CountOverRows(rows, sorted, sick, |rows|);
    NotEmpty(value, |rows|);
    r := RunQueryCountEncounters(redis', key, |rows|, sick);
    CountPermuted(sorted, rows, SickConfirmed(rows, sick));
    assert sorted[..|rows|] == sorted;
  }

  lemma StoredUnderKey(redis: Redis, key: string, value: Bits)
    ensures Get(redis[key := value], key) == value
  {}

  lemma NotEmpty(value: Bits, tileSize: nat)
    requires HoldsTile(value, tileSize) && tileSize > 0
    ensures value != []
  {}
}
