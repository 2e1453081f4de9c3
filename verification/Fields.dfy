/**
 Encounters as named fields, packed into one integer in any order of up to twelve fields and read back.
 */
module Fields {
  import opened BitVectors

  type FieldName = f: nat | f < 256

  const NONE: FieldName := 0
  const ID: FieldName := 1
  const DEVICE: FieldName := 2
  const ENCOUNTERED: FieldName := 3
  const LATITUDE: FieldName := 4
  const LONGITUDE: FieldName := 5
  const TILE: FieldName := 6
  const TIME: FieldName := 7
  const PREVIOUS: FieldName := 8
  const NEXT: FieldName := 9
  const DURATION: FieldName := 10
  const CONFIRMED: FieldName := 11
  const RECIPROCATED: FieldName := 12

  const FIELDS: nat := 13
  const BUFFER_BITS: nat := 8 * 124
  const DEFAULT_ORDER: seq<FieldName> := [1, 2, 3, 4, 5, 6, 7, 8, 9, 10, 11, 12]

  /** Bits a field takes; names the switch does not know take none. */
  function Width(f: FieldName): nat {
    if ID <= f <= ENCOUNTERED then 256
    else if LATITUDE <= f <= NEXT then 32
    else if f == DURATION then 16
    else if f == CONFIRMED then 8
    else if f == RECIPROCATED then 1
    else 0
  }

  /** One bit string per field name, each of its field's width. */
  predicate IsEncounter(e: seq<Bits>) {
    |e| == FIELDS && forall f :: 0 <= f < FIELDS ==> |e[f]| == Width(f)
  }

  type Encounter = e: seq<Bits> | IsEncounter(e)
    witness seq(FIELDS, f requires 0 <= f < FIELDS => seq(Width(f), _ => false))

  function FieldBits(e: Encounter, f: FieldName): (b: Bits)
    ensures |b| == Width(f)
  {
    if f < FIELDS then e[f] else []
  }

  /** The order in force: the traditional one when the first name is none. */
  function Order(fields: seq<FieldName>): (r: seq<FieldName>)
    requires |fields| == 12
    ensures |r| == 12
  {
    if fields[0] == NONE then DEFAULT_ORDER else fields
  }

  /** Where the bit cursor stands after the first n fields. */
  function Cursor(fields: seq<FieldName>, n: nat): nat
    requires n <= |fields|
  {
    if n == 0 then 0 else Cursor(fields, n - 1) + Width(fields[n - 1])
  }

  lemma {:induction false} CursorMonotone(fields: seq<FieldName>, m: nat, n: nat)
    requires m <= n <= |fields|
    ensures Cursor(fields, m) <= Cursor(fields, n)
  {
    if m < n {
      CursorMonotone(fields, m, n - 1);
    }
  }

  /** The integer that holds the first n fields of e. */
  function Packed(e: Encounter, fields: seq<FieldName>, n: nat): (b: Bits)
    requires n <= |fields|
    ensures |b| == Cursor(fields, n)
  {
    if n == 0 then [] else Packed(e, fields, n - 1) + FieldBits(e, fields[n - 1])
  }

  /** What reading the first n fields from bits makes of an encounter. */
  function Unpacked(bits: Bits, fields: seq<FieldName>, n: nat, into: Encounter): (e: Encounter)
    requires n <= |fields| && Cursor(fields, n) <= |bits|
    decreases n
  {
    if n == 0 then into else
    UnpackedField(bits, Cursor(fields, n - 1), fields[n - 1], Unpacked(bits, fields, n - 1, into))
  }

  function UnpackedField(bits: Bits, from: nat, f: FieldName, into: Encounter): (e: Encounter)
    requires from + Width(f) <= |bits|
    ensures forall g :: 0 <= g < FIELDS && g != f ==> e[g] == into[g]
    ensures f < FIELDS ==> e[f] == bits[from..from + Width(f)]
  {
    if f < FIELDS then into[f := bits[from..from + Width(f)]] else into
  }

  lemma {:induction false} PackedPrefix(e: Encounter, fields: seq<FieldName>, n: nat, m: nat)
    requires n <= m <= |fields|
    ensures Cursor(fields, n) <= Cursor(fields, m) && Packed(e, fields, m)[..Cursor(fields, n)] == Packed(e, fields, n)
  {
    hide Width, FieldBits;
    if n < m {
      PackedPrefix(e, fields, n, m - 1);
      assert Packed(e, fields, m)[..Cursor(fields, m - 1)] == Packed(e, fields, m - 1);
    }
  }

  lemma FieldInPacked(e: Encounter, fields: seq<FieldName>, n: nat, bits: Bits)
    requires n < |fields| && Packed(e, fields, |fields|) <= bits
    ensures Cursor(fields, n) + Width(fields[n]) == Cursor(fields, n + 1) <= |bits|
    ensures bits[Cursor(fields, n)..Cursor(fields, n + 1)] == FieldBits(e, fields[n])
  {
    PackedPrefix(e, fields, n + 1, |fields|);
    var all, upTo := Packed(e, fields, |fields|), Packed(e, fields, n + 1);
    assert upTo == Packed(e, fields, n) + FieldBits(e, fields[n]);
    assert Cursor(fields, n + 1) == Cursor(fields, n) + Width(fields[n]);
    hide Width, FieldBits, Cursor, Packed;
    TailOfPrefix(bits, all, upTo, Packed(e, fields, n), FieldBits(e, fields[n]));
  }

  lemma TailOfPrefix(bits: Bits, all: Bits, upTo: Bits, head: Bits, tail: Bits)
    requires all <= bits && |upTo| <= |all| && all[..|upTo|] == upTo && upTo == head + tail
    ensures |upTo| <= |bits| && bits[|head|..|upTo|] == tail
  {
    assert bits[..|upTo|] == upTo;
    assert bits[|head|..|upTo|] == upTo[|head|..];
  }

  /**
   Reading an integer in the order it was packed in: every field named is recovered, whatever the
   order and however often it is named, and every other field is left alone.
   */
  lemma {:induction false} UnpackOfPacked(e: Encounter, fields: seq<FieldName>, n: nat, bits: Bits,
          into: Encounter, f: nat)
    requires n <= |fields| && Packed(e, fields, |fields|) <= bits && f < FIELDS
    ensures Cursor(fields, n) <= |bits|
    ensures Unpacked(bits, fields, n, into)[f] == if f in fields[..n] then e[f] else into[f]
  {
    hide Width, Packed, Cursor, Unpacked;
    CursorMonotone(fields, n, |fields|);
    UnpackedStep(bits, fields, n, into);
    if n > 0 {
      UnpackOfPacked(e, fields, n - 1, bits, into, f);
      FieldInPacked(e, fields, n - 1, bits);
      assert fields[..n] == fields[..n - 1] + [fields[n - 1]];
    }
  }

  lemma UnpackedStep(bits: Bits, fields: seq<FieldName>, n: nat, into: Encounter)
    requires n <= |fields| && Cursor(fields, n) <= |bits|
    ensures n == 0 ==> Unpacked(bits, fields, n, into) == into
    ensures n > 0 ==>
              && Cursor(fields, n - 1) + Width(fields[n - 1]) == Cursor(fields, n)
              && Unpacked(bits, fields, n, into)
                 == UnpackedField(bits, Cursor(fields, n - 1), fields[n - 1], Unpacked(bits, fields, n - 1, into))
  {
    hide Width, UnpackedField;
  }

  /** Without names the fields stand in the order in which the record declares them. */
  lemma TraditionalLayout(e: Encounter, fields: seq<FieldName>)
    requires |fields| == 12 && fields[0] == NONE
    ensures Packed(e, Order(fields), 12)
         == e[ID] + e[DEVICE] + e[ENCOUNTERED] + e[LATITUDE] + e[LONGITUDE] + e[TILE] + e[TIME] + e[PREVIOUS] + e[NEXT]
            + e[DURATION] + e[CONFIRMED] + e[RECIPROCATED]
  {
    var order := Order(fields);
    PackedNext(e, order, 0);
    PackedNext(e, order, 1);
    PackedNext(e, order, 2);
    PackedNext(e, order, 3);
    PackedNext(e, order, 4);
    PackedNext(e, order, 5);
    PackedNext(e, order, 6);
    PackedNext(e, order, 7);
    PackedNext(e, order, 8);
    PackedNext(e, order, 9);
    PackedNext(e, order, 10);
    PackedNext(e, order, 11);
    hide Cursor, Width, Packed;
  }

  lemma PackedNext(e: Encounter, order: seq<FieldName>, n: nat)
    requires n < |order|
    ensures Packed(e, order, 0) == []
    ensures Packed(e, order, n + 1) == Packed(e, order, n) + FieldBits(e, order[n])
  {
    hide Cursor, Width, FieldBits;
  }

  /** With names they stand in the order named. */
  lemma NamedLayout(fields: seq<FieldName>)
    requires |fields| == 12 && fields[0] != NONE
    ensures Order(fields) == fields
  {}

  // ---- The loops ----

  /** s with b in place at offset i. */
  ghost function Placed(s: Bits, i: nat, b: Bits): (r: Bits)
    requires i + |b| <= |s|
    ensures |r| == |s|
  {
    s[..i] + b + s[i + |b|..]
  }

  /** to_bool() into a buffer at offset i. */
  method WriteBits(bools: array<bool>, i: nat, b: Bits)
    requires i + |b| <= bools.Length
    modifies bools
    ensures bools[..] == Placed(old(bools[..]), i, b)
  {
    ghost var s := bools[..];
    for j := 0 to |b|
      invariant forall k :: 0 <= k < bools.Length ==> bools[k] == if i <= k < i + j then b[k - i] else s[k]
    {
      bools[i + j] := b[j];
    }
    IsPlaced(s, i, b, bools[..]);
  }

  lemma IsPlaced(s: Bits, i: nat, b: Bits, t: Bits)
    requires i + |b| <= |s| == |t|
    requires forall k :: 0 <= k < |s| ==> t[k] == if i <= k < i + |b| then b[k - i] else s[k]
    ensures t == Placed(s, i, b)
  {}

  /** fillIntegers(), one encounter: the integer is what stands before the cursor at the end. */
  method FillInteger(e: Encounter, fields: seq<FieldName>) returns (integer: Bits)
    requires |fields| == 12 && Cursor(Order(fields), 12) <= BUFFER_BITS
    ensures integer == Packed(e, Order(fields), 12)
  {
    var order := Order(fields);
    var bools := new bool[BUFFER_BITS];
    var i := 0;
    for n := 0 to 12
      invariant i == Cursor(order, n) <= BUFFER_BITS
      invariant bools[..i] == Packed(e, order, n)
    {
      CursorMonotone(order, n + 1, 12);
      hide Width;
      ghost var before := bools[..i];
      WriteBits(bools, i, FieldBits(e, order[n]));
      assert bools[..i] == before;
      i := i + Width(order[n]);
    }
    integer := bools[..i];
  }

  /** fillIntegers(): one integer per encounter, or integers of the same size whose bits do not matter. */
  method FillIntegers(es: seq<Encounter>, dummy: bool, fields: seq<FieldName>) returns (integers: seq<Bits>)
    requires |fields| == 12 && Cursor(Order(fields), 12) <= BUFFER_BITS
    ensures |integers| == |es|
    ensures forall j :: 0 <= j < |es| ==> |integers[j]| == Cursor(Order(fields), 12)
    ensures !dummy ==> forall j :: 0 <= j < |es| ==> integers[j] == Packed(es[j], Order(fields), 12)
  {
    hide Packed, Order;
    integers := [];
    if dummy {
      var order := Order(fields);
      var bools := new bool[BUFFER_BITS];
      var i := 0;
      for n := 0 to 12
        invariant i == Cursor(order, n)
      {
        i := i + Width(order[n]);
      }
      for j := 0 to |es|
        invariant |integers| == j && forall k :: 0 <= k < j ==> |integers[k]| == i
      {
        integers := integers + [bools[..i]];
      }
    } else {
      for j := 0 to |es|
        invariant |integers| == j && forall k :: 0 <= k < j ==> integers[k] == Packed(es[k], Order(fields), 12)
      {
        var integer := FillInteger(es[j], fields);
        integers := integers + [integer];
      }
    }
  }

  /** fromIntegers(): every encounter is read from its own integer; dummies leave the array alone. */
  method FromIntegers(encounters: array<Encounter>, integers: seq<Bits>, dummy: bool, fields: seq<FieldName>)
    requires |fields| == 12 && |integers| <= encounters.Length
    requires forall j :: 0 <= j < |integers| ==> Cursor(Order(fields), 12) <= |integers[j]|
    modifies encounters
    ensures forall j :: 0 <= j < encounters.Length ==>
              encounters[j] == if dummy || j >= |integers| then old(encounters[j])
                               else Unpacked(integers[j], Order(fields), 12, old(encounters[j]))
  {
    hide Unpacked, Cursor, Order;
    if !dummy {
      for j := 0 to |integers|
        invariant forall k :: 0 <= k < j ==>
                    encounters[k] == Unpacked(integers[k], Order(fields), 12, old(encounters[k]))
        invariant forall k :: j <= k < encounters.Length ==> encounters[k] == old(encounters[k])
      {
        var e: Encounter := encounters[j];
        var parts := new Bits[FIELDS](i requires 0 <= i < FIELDS => e[i]);
        assert parts[..] == e;
        FromInteger(parts, integers[j], fields);
        encounters[j] := parts[..];
      }
    }
  }

  /** fromIntegers(), one encounter: the fields are updated in place, one cell per field. */
  method FromInteger(encounter: array<Bits>, integer: Bits, fields: seq<FieldName>)
    requires |fields| == 12 && Cursor(Order(fields), 12) <= |integer| && IsEncounter(encounter[..])
    modifies encounter
    ensures IsEncounter(encounter[..])
    ensures encounter[..] == Unpacked(integer, Order(fields), 12, old(encounter[..]))
  {
    var order := Order(fields);
    var i := 0;
    for n := 0 to 12
      invariant i == Cursor(order, n) <= |integer|
      invariant IsEncounter(encounter[..])
      invariant encounter[..] == Unpacked(integer, order, n, old(encounter[..]))
    {
      CursorMonotone(order, n + 1, 12);
      UnpackedStep(integer, order, n + 1, old(encounter[..]));
      hide Width, Unpacked, UnpackedField, Cursor, Order;
      FromField(encounter, integer, i, order[n]);
      i := i + Width(order[n]);
    }
  }

  /** One case of the switch. */
  method FromField(encounter: array<Bits>, integer: Bits, i: nat, f: FieldName)
    requires i + Width(f) <= |integer| && IsEncounter(encounter[..])
    modifies encounter
    ensures IsEncounter(encounter[..])
    ensures encounter[..] == UnpackedField(integer, i, f, old(encounter[..]))
  {
    hide Width;
    if f < FIELDS {
      encounter[f] := integer[i..i + Width(f)];
    }
  }
}
