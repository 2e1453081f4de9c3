/**
 The per-device time chains that fillEncounters builds through its map of most recent encounters.
 The pseudorandom contents of an encounter are parameters, and so is the hash a device is keyed by.
 */
module Chains {

  type Device = int
  type Key = int

  datatype Encounter = Encounter(device: Device, time: int, previous: int, next: int)

  // ---- Nearest records of the same key ----

  /** The latest position before n with the given key, or -1. */
  function LastBefore(keys: seq<Key>, n: nat, key: Key): (j: int)
    requires n <= |keys|
    ensures -1 <= j < n
    ensures j >= 0 ==> keys[j] == key
    ensures forall k :: j < k < n ==> keys[k] != key
  {
    if n == 0 then -1 else if keys[n - 1] == key then n - 1 else LastBefore(keys, n - 1, key)
  }

  /** The earliest position after i and before n with the given key, or n. */
  function FirstAfter(keys: seq<Key>, i: int, n: nat, key: Key): (j: nat)
    requires -1 <= i < n <= |keys|
    ensures i < j <= n
    ensures j < n ==> keys[j] == key
    ensures forall k :: i < k < j ==> keys[k] != key
    decreases n - i
  {
    if i + 1 == n then n else if keys[i + 1] == key then i + 1 else FirstAfter(keys, i + 1, n, key)
  }

  function Earlier(keys: seq<Key>, i: nat): int
    requires i < |keys|
  {
    LastBefore(keys, i, keys[i])
  }

  function Later(keys: seq<Key>, i: nat, n: nat): nat
    requires i < n <= |keys|
  {
    FirstAfter(keys, i, n, keys[i])
  }

  /** The two links are inverse: j is i's predecessor exactly when i is j's successor. */
  lemma LinksInverse(keys: seq<Key>, i: nat, j: nat, n: nat)
    requires j < n && i < n <= |keys|
    ensures Earlier(keys, i) == j <==> Later(keys, j, n) == i
  {
    hide LastBefore, FirstAfter;
  }

  lemma LaterGrows(keys: seq<Key>, i: nat, n: nat)
    requires i < n < |keys|
    ensures Later(keys, i, n + 1) == if Later(keys, i, n) == n && keys[n] != keys[i] then n + 1 else Later(keys, i, n)
  {
    hide LastBefore, FirstAfter;
  }

  /** The positions met by following predecessors from the latest one before n. */
  function History(keys: seq<Key>, n: nat, key: Key): seq<nat>
    requires n <= |keys|
    decreases n
  {
    var j := LastBefore(keys, n, key);
    if j < 0 then [] else [j as nat] + History(keys, j, key)
  }

  ghost predicate Descending(s: seq<nat>) {
    forall a, b :: 0 <= a < b < |s| ==> s[b] < s[a]
  }

  lemma DescendingCons(j: nat, s: seq<nat>)
    requires Descending(s) && forall x :: x in s ==> x < j
    ensures Descending([j] + s)
  {
    forall a, b | 0 <= a < b < 1 + |s|
      ensures ([j] + s)[b] < ([j] + s)[a]
    {
      assert s[b - 1] in s;
    }
  }

  lemma HistoryStep(keys: seq<Key>, n: nat, key: Key)
    requires n <= |keys|
    ensures History(keys, n, key) ==
            var j := LastBefore(keys, n, key);
            if j < 0 then [] else [j as nat] + History(keys, j, key)
  {
    hide LastBefore;
  }

  /** Following predecessors from the latest record visits every record of the device, once each, latest first. */
  lemma {:induction false} HistoryComplete(keys: seq<Key>, n: nat, key: Key)
    requires n <= |keys|
    ensures forall i :: i in History(keys, n, key) <==> 0 <= i < n && keys[i] == key
    ensures Descending(History(keys, n, key))
    decreases n
  {
    HistoryStep(keys, n, key);
    hide LastBefore, History, Descending;
    var j := LastBefore(keys, n, key);
    if j >= 0 {
      HistoryComplete(keys, j, key);
      DescendingCons(j, History(keys, j, key));
    } else {
      assert Descending([]) by { EmptyDescends(); }
    }
  }

  lemma EmptyDescends()
    ensures Descending([])
  {}

  // ---- Filling ----

  /** A record as it stands once n records are filled. */
  ghost predicate Chained(e: Encounter, data: seq<(Device, int)>, keys: seq<Key>, i: nat, n: nat, minTime: int,
          maxTime: int)
    requires i < n <= |keys| == |data|
  {
    var p, s := Earlier(keys, i), Later(keys, i, n);
    e == Encounter(data[i].0, data[i].1, if p >= 0 then data[p].1 else minTime, if s < n then data[s].1 else maxTime)
  }

  /** The nearest earlier record alike, or none: time is its time, or the default. */
  ghost predicate LinkedBack(data: seq<(Device, int)>, alike: (Device, Device) -> bool, i: nat, time: int, default: int)
    requires i < |data|
  {
    if exists k :: 0 <= k < i && alike(data[k].0, data[i].0) then
      exists p :: && 0 <= p < i && alike(data[p].0, data[i].0) && time == data[p].1
                  && forall k :: p < k < i ==> !alike(data[k].0, data[i].0)
    else time == default
  }

  /** The same for the nearest later record alike. */
  ghost predicate LinkedOn(data: seq<(Device, int)>, alike: (Device, Device) -> bool, i: nat, time: int, default: int)
    requires i < |data|
  {
    if exists k :: i < k < |data| && alike(data[k].0, data[i].0) then
      exists p :: && i < p < |data| && alike(data[p].0, data[i].0) && time == data[p].1
                  && forall k :: i < k < p ==> !alike(data[k].0, data[i].0)
    else time == default
  }

  /** A record as it should be filled: its own device and time, and the times of its nearest neighbours alike. */
  ghost predicate Linked(e: Encounter, data: seq<(Device, int)>, alike: (Device, Device) -> bool, i: nat, minTime: int,
          maxTime: int)
    requires i < |data|
  {
    && e.device == data[i].0 && e.time == data[i].1
    && LinkedBack(data, alike, i, e.previous, minTime) && LinkedOn(data, alike, i, e.next, maxTime)
  }

  lemma ChainedIsLinked(e: Encounter, data: seq<(Device, int)>, hash: Device -> Key, alike: (Device, Device) -> bool,
          i: nat, minTime: int, maxTime: int)
    requires i < |data| && Chained(e, data, Keys(data, hash), i, |data|, minTime, maxTime)
    requires forall k :: 0 <= k < |data| ==> (alike(data[k].0, data[i].0) <==> hash(data[k].0) == hash(data[i].0))
    ensures Linked(e, data, alike, i, minTime, maxTime)
  {
    hide LastBefore, FirstAfter;
    var keys := Keys(data, hash);
    assert forall k :: 0 <= k < |data| ==> (keys[k] == keys[i] <==> alike(data[k].0, data[i].0));
    var p, s := Earlier(keys, i), Later(keys, i, |data|);
    assert p >= 0 ==> alike(data[p].0, data[i].0);
    assert s < |data| ==> alike(data[s].0, data[i].0);
  }

  /** The hash does not collide on the devices at hand. */
  ghost predicate Separate(data: seq<(Device, int)>, hash: Device -> Key) {
    forall i, j :: 0 <= i < |data| && 0 <= j < |data| && hash(data[i].0) == hash(data[j].0) ==> data[i].0 == data[j].0
  }

  function Keys(data: seq<(Device, int)>, hash: Device -> Key): (keys: seq<Key>)
    ensures |keys| == |data|
  {
    seq(|data|, i requires 0 <= i < |data| => hash(data[i].0))
  }

  /**
   fillEncounters(): every record is linked to the nearest earlier and the nearest later record of its
   device, and the map always points at the latest record of each device.
   */
  method FillEncounters(e: array<Encounter>, data: seq<(Device, int)>, hash: Device -> Key, minTime: int, maxTime: int)
    requires e.Length == |data|
    modifies e
    ensures forall i :: 0 <= i < e.Length ==> Chained(e[i], data, Keys(data, hash), i, e.Length, minTime, maxTime)
    ensures forall i :: 0 <= i < e.Length ==>
              Linked(e[i], data, (d, d') => hash(d) == hash(d'), i, minTime, maxTime)
    ensures Separate(data, hash) ==>
              forall i :: 0 <= i < e.Length ==> Linked(e[i], data, (d, d') => d == d', i, minTime, maxTime)
  {
    hide LastBefore, FirstAfter, Chained, Linked;
    ghost var keys := Keys(data, hash);
    var mostRecent: map<Key, nat> := map[];
    for i := 0 to e.Length
      invariant forall k :: 0 <= k < i ==> Chained(e[k], data, keys, k, i, minTime, maxTime)
      invariant forall key :: key in mostRecent ==> mostRecent[key] == LastBefore(keys, i, key)
      invariant forall key :: key !in mostRecent ==> LastBefore(keys, i, key) == -1
    {
      e[i] := Encounter(data[i].0, data[i].1, minTime, maxTime);
      var deviceKey := hash(e[i].device);
      LinkStep(e[..], data, keys, i, minTime, maxTime);
      if deviceKey in mostRecent {
        var recent := mostRecent[deviceKey];
        e[recent] := e[recent].(next := e[i].time);
        e[i] := e[i].(previous := e[recent].time);
      }
      LastBeforeNext(keys, i, i + 1);
      mostRecent := mostRecent[deviceKey := i];
    }
    forall i | 0 <= i < e.Length
      ensures Linked(e[i], data, (d, d') => hash(d) == hash(d'), i, minTime, maxTime)
      ensures Separate(data, hash) ==> Linked(e[i], data, (d, d') => d == d', i, minTime, maxTime)
    {
      ChainedIsLinked(e[i], data, hash, (d, d') => hash(d) == hash(d'), i, minTime, maxTime);
      if Separate(data, hash) {
        ChainedIsLinked(e[i], data, hash, (d, d') => d == d', i, minTime, maxTime);
      }
    }
  }

  lemma LastBeforeStep(keys: seq<Key>, n: nat, key: Key)
    requires n < |keys|
    ensures LastBefore(keys, n + 1, key) == if key == keys[n] then n else LastBefore(keys, n, key)
  {}

  lemma LastBeforeNext(keys: seq<Key>, n: nat, m: nat)
    requires m == n + 1 <= |keys|
    ensures forall key :: LastBefore(keys, m, key) == if key == keys[n] then n else LastBefore(keys, n, key)
  {
    hide LastBefore;
    forall key
      ensures LastBefore(keys, m, key) == if key == keys[n] then n else LastBefore(keys, n, key)
    {
      LastBeforeStep(keys, n, key);
    }
  }

  /** What linking record n in changes: its own two links, and the next link of its predecessor. */
  lemma LinkStep(e: seq<Encounter>, data: seq<(Device, int)>, keys: seq<Key>, n: nat, minTime: int, maxTime: int)
    requires n < |e| == |data| == |keys|
    requires forall k :: 0 <= k < n ==> Chained(e[k], data, keys, k, n, minTime, maxTime)
    ensures forall k :: 0 <= k < n && k != Earlier(keys, n) ==> Chained(e[k], data, keys, k, n + 1, minTime, maxTime)
    ensures var p := Earlier(keys, n);
            && (p >= 0 ==> e[p].time == data[p].1)
            && (p >= 0 ==> Chained(e[p].(next := data[n].1), data, keys, p, n + 1, minTime, maxTime))
            && Chained(Encounter(data[n].0, data[n].1, if p >= 0 then data[p].1 else minTime, maxTime),
                       data, keys, n, n + 1, minTime, maxTime)
  {
    hide LastBefore, FirstAfter;
    forall k | 0 <= k < n
      ensures k != Earlier(keys, n) ==> Chained(e[k], data, keys, k, n + 1, minTime, maxTime)
      ensures k == Earlier(keys, n) ==> Chained(e[k].(next := data[n].1), data, keys, k, n + 1, minTime, maxTime)
    {
      LaterGrows(keys, k, n);
    }
  }
}
