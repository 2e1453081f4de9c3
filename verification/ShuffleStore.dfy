/**
 Stored shuffles, and the binary search for a key in one.
 */
module ShuffleStore {
  import opened Wrappers
  import opened HashOrder
  import opened Network
  import opened ShuffleSort

  type ShuffleId = nat
  type Payload = (Vec256, Vec256)

  ghost predicate HasKey(s: seq<StorableEncounter>, key: Vec256) {
    exists i :: 0 <= i < |s| && s[i].key == key
  }

  ghost predicate StoredUnder(s: seq<StorableEncounter>, key: Vec256, payload: Payload) {
    exists i :: 0 <= i < |s| && s[i] == StorableEncounter(key, payload.0, payload.1)
  }

  lemma StoredHasKey(s: seq<StorableEncounter>, key: Vec256, p: Payload)
    requires StoredUnder(s, key, p)
    ensures HasKey(s, key)
  {}

  /** On a sorted shuffle, no record up to min or from max on has the key. */
  lemma SearchNarrows(s: seq<StorableEncounter>, key: Vec256, guess: nat, i: nat)
    requires Sorted(s, KeyRank(), true) && guess < |s| && i < |s|
    ensures CompareHash(s[guess].key, key) && guess <= i ==> s[i].key != key
    ensures !CompareHash(s[guess].key, key) && !CompareHashEq(s[guess].key, key) && i <= guess ==> s[i].key != key
    ensures CompareHashEq(s[guess].key, key) <==> s[guess].key == key
  {
    CompareHashIsRank(s[guess].key, key);
    CompareHashIsLex(s[guess].key, key);
    CompareHashTotalOrder(s[guess].key, key, key);
    if guess < i {
      assert Dir(KeyRank(), true, s[guess]) <= Dir(KeyRank(), true, s[i]);
    } else if i < guess {
      assert Dir(KeyRank(), true, s[i]) <= Dir(KeyRank(), true, s[guess]);
    }
    hide CompareHash, CompareHashEq, Rank;
  }

  class Store {
    var shuffles: map<ShuffleId, array<StorableEncounter>>

    constructor ()
      ensures shuffles == map[]
    {
      shuffles := map[];
    }

    /**
     Makes room for a shuffle under its id, dropping any earlier one; tells whether there was one.  The room
     is not filled.
     */
    method AddOrReplace(id: ShuffleId, count: nat) returns (existed: bool, room: array<StorableEncounter>)
      modifies this
      ensures existed == (id in old(shuffles))
      ensures fresh(room) && room.Length == count && shuffles == old(shuffles)[id := room]
    {
      existed := id in shuffles;
      room := new StorableEncounter[count];
      shuffles := shuffles[id := room];
    }

    /**
     fetch_stored_path_encounter(): what is returned was stored under the key, and on a sorted shuffle
     a key is found exactly when it is present.
     */
    method Fetch(key: Vec256, id: ShuffleId) returns (r: Option<Payload>)
      ensures id !in shuffles ==> r.None?
      ensures id in shuffles && r.Some? ==> StoredUnder(shuffles[id][..], key, r.value)
      ensures id in shuffles && Sorted(shuffles[id][..], KeyRank(), true) ==>
                (r.Some? <==> HasKey(shuffles[id][..], key))
    {
      if id !in shuffles {
        return None;
      }
      var encounters := shuffles[id];
      ghost var s := encounters[..];
      hide CompareHash, CompareHashEq, Rank, Sorted;
      if encounters.Length > 0 {
        CompareHashIsLex(s[0].key, key);
        if CompareHashEq(encounters[0].key, key) {
          return Some((encounters[0].low, encounters[0].high));
        }
      }
      var min, max := 0, encounters.Length;
      while min + 1 < max
        invariant 0 <= min && max <= |s| && (min < max || |s| == 0)
        invariant Sorted(s, KeyRank(), true) ==>
                    forall i :: 0 <= i < |s| && (i <= min || max <= i) ==> s[i].key != key
      {
        var guess := min + (max - min) / 2;
        CompareHashIsLex(s[guess].key, key);
        if CompareHashEq(encounters[guess].key, key) {
          return Some((encounters[guess].low, encounters[guess].high));
        }
        if Sorted(s, KeyRank(), true) {
          forall i | 0 <= i < |s|
            ensures CompareHash(s[guess].key, key) && guess <= i ==> s[i].key != key
            ensures !CompareHash(s[guess].key, key) && i <= guess ==> s[i].key != key
          {
            SearchNarrows(s, key, guess, i);
          }
        }
        if CompareHash(encounters[guess].key, key) {
          max := guess;
        } else {
          min := guess;
        }
      }
      r := None;
    }
  }
}
