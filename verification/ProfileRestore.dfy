// What a bounded restore keeps (src/shmem/profiles.rs:104-113 and 275-318).
module ProfileRestore {
  import opened Profiles
  import opened ProfileCache

  // The cache holds an entry of e's key at least as new as e: e itself, or one that superseded it.
  ghost predicate KeptOrSuperseded(c: Cache, e: Entry) {
    exists i :: 0 <= i < |c| && c[i].key == e.key && c[i].profile.lastSeen >= e.profile.lastSeen
  }

  ghost predicate NoNewerThanAny(c: Cache, e: Entry) {
    forall i :: 0 <= i < |c| ==> e.profile.lastSeen <= c[i].profile.lastSeen
  }

  // e was kept or superseded, or else the cache is full of entries no older than it.
  ghost predicate Covered(c: Cache, capacity: nat, e: Entry) {
    KeptOrSuperseded(c, e) || (|c| == capacity && NoNewerThanAny(c, e))
  }

  lemma RestoreCovers(c: Cache, capacity: nat, r: Entry, e: Entry)
    requires WellFormed(c, capacity) && capacity > 0
    requires Covered(c, capacity, e) || e == r
    ensures Covered(RestoreOne(c, capacity, r).value, capacity, e)
  {
    TargetIsOnlyHome(c, capacity, r.key);
    var slot := TargetSlot(c, capacity, r.key).value;
    var d := RestoreOne(c, capacity, r).value;
    if FindSlot(c, r.key).None? && |c| == capacity {
      forall i: nat | i < |c| && i != slot ensures c[slot].profile.lastSeen <= c[i].profile.lastSeen {
        EvictionIsLeast(c, i);
      }
    }
    if d == Put(c, slot, r) {
      assert d[slot] == r;
      assert forall i :: 0 <= i < |c| && i != slot ==> d[i] == c[i];
      if KeptOrSuperseded(c, e) {
        var i :| 0 <= i < |c| && c[i].key == e.key && c[i].profile.lastSeen >= e.profile.lastSeen;
        assert i != slot ==> d[i] == c[i];
      }
    }
  }

  // Streaming top-k: merging any snapshots, in any order, into any cache, every live entry and every
  // snapshot that is not in the result was superseded by a newer entry of its own key, or is no newer
  // than anything that survived; and nothing survives that was not there or restored.
  lemma {:induction false} RestoreKeepsNewest(c: Cache, capacity: nat, restored: seq<Entry>)
    requires WellFormed(c, capacity) && capacity > 0
    ensures var r := RestoreAll(c, capacity, restored);
      && r.Ok? && WellFormed(r.value, capacity)
      && (forall e :: e in c || e in restored ==> Covered(r.value, capacity, e))
      && (forall e :: e in r.value ==> e in c || e in restored)
  {
    RestoreWellFormed(c, capacity, restored);
    if restored == [] {
      forall e | e in c ensures KeptOrSuperseded(c, e) {
        var i :| 0 <= i < |c| && c[i] == e;
      }
    } else {
      var n := |restored| - 1;
      RestoreKeepsNewest(c, capacity, restored[..n]);
      RestoreWellFormed(c, capacity, restored[..n]);
      var before := RestoreAll(c, capacity, restored[..n]).value;
      forall e | e in c || e in restored ensures Covered(RestoreAll(c, capacity, restored).value, capacity, e) {
        if e != restored[n] && e in restored {
          assert e in restored[..n];
        }
        RestoreCovers(before, capacity, restored[n], e);
      }
      TargetIsOnlyHome(before, capacity, restored[n].key);
    }
  }

  // ----- With room for every key -----

  // The simple form: for each key the newer entry wins, the restored one on a tie.
  function MergeNewer(m: map<ProfileKey, QueryWalProfile>, restored: seq<Entry>): map<ProfileKey, QueryWalProfile> {
    if restored == [] then m
    else
      var earlier := MergeNewer(m, restored[..|restored| - 1]);
      var e := restored[|restored| - 1];
      if e.key in earlier && earlier[e.key].lastSeen > e.profile.lastSeen then earlier
      else earlier[e.key := e.profile]
  }

  function KeysOf(entries: seq<Entry>): set<ProfileKey> {
    set i | 0 <= i < |entries| :: entries[i].key
  }

  lemma {:induction false} MergeKeys(m: map<ProfileKey, QueryWalProfile>, restored: seq<Entry>)
    ensures MergeNewer(m, restored).Keys == m.Keys + KeysOf(restored)
  {
    if restored != [] {
      var n := |restored| - 1;
      MergeKeys(m, restored[..n]);
      assert KeysOf(restored) == KeysOf(restored[..n]) + {restored[n].key};
    }
  }

  // With room, restoring one entry is one step of the merge.
  lemma RestoreOneMerges(c: Cache, capacity: nat, e: Entry)
    requires WellFormed(c, capacity) && capacity > 0 && (Has(c, e.key) || |c| < capacity)
    ensures RestoreOne(c, capacity, e).Ok? && WellFormed(RestoreOne(c, capacity, e).value, capacity)
    ensures View(RestoreOne(c, capacity, e).value)
         == if e.key in View(c) && View(c)[e.key].lastSeen > e.profile.lastSeen then View(c)
            else View(c)[e.key := e.profile]
  {
    ViewHas(c, e.key);
    RestoreLaw(c, capacity, e);
  }

  lemma KeysBeforeLast(m: map<ProfileKey, QueryWalProfile>, restored: seq<Entry>)
    requires restored != []
    ensures var front, keys := restored[..|restored| - 1], m.Keys + KeysOf(restored);
      && MergeNewer(m, front).Keys <= keys && restored[|restored| - 1].key in keys
      && |m.Keys + KeysOf(front)| <= |keys|
  {
    var front := restored[..|restored| - 1];
    assert KeysOf(restored) == KeysOf(front) + {restored[|restored| - 1].key};
    MergeKeys(m, front);
    SubsetSize(m.Keys + KeysOf(front), m.Keys + KeysOf(restored));
  }

  // With enough room the bounded restore is that merge.
  lemma {:induction false} RestoreIsMergeWithRoom(c: Cache, capacity: nat, restored: seq<Entry>)
    requires WellFormed(c, capacity) && capacity > 0
    requires |View(c).Keys + KeysOf(restored)| <= capacity
    ensures var r := RestoreAll(c, capacity, restored);
      r.Ok? && WellFormed(r.value, capacity) && View(r.value) == MergeNewer(View(c), restored)
  {
    if restored != [] {
      var front, e := restored[..|restored| - 1], restored[|restored| - 1];
      KeysBeforeLast(View(c), restored);
      RestoreIsMergeWithRoom(c, capacity, front);
      var before := RestoreAll(c, capacity, front).value;
      RoomFor(before, capacity, View(c).Keys + KeysOf(restored), e.key);
      RestoreOneMerges(before, capacity, e);
    }
  }
}
