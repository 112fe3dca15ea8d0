// The profile cache (src/shmem/profiles.rs): a fixed array whose occupied slots form a prefix. The
// value of the cache is that prefix, a sequence of entries in slot order.
module ProfileCache {
  import opened Numbers
  import opened Wrappers
  import opened Profiles

  // No scope means the global profile of the query.
  datatype ProfileKey = ProfileKey(scope: Option<ScopeHash>, query: QueryId)

  datatype Entry = Entry(key: ProfileKey, profile: QueryWalProfile)

  datatype CacheError = CapacityExhausted

  type Cache = seq<Entry>

  ghost predicate Unique(c: Cache) {
    forall i, j :: 0 <= i < j < |c| ==> c[i].key != c[j].key
  }

  function View(c: Cache): map<ProfileKey, QueryWalProfile> {
    if c == [] then map[] else View(c[..|c| - 1])[c[|c| - 1].key := c[|c| - 1].profile]
  }

  ghost predicate Has(c: Cache, k: ProfileKey) {
    exists i :: 0 <= i < |c| && c[i].key == k
  }

  // ----- Slots -----

  function FindSlot(c: Cache, k: ProfileKey): (r: Option<nat>)
    ensures r.None? <==> !Has(c, k)
    ensures r.Some? ==> r.value < |c| && c[r.value].key == k
  {
    if c == [] then None
    else
      var earlier := FindSlot(c[..|c| - 1], k);
      if earlier.Some? then earlier
      else if c[|c| - 1].key == k then Some(|c| - 1)
      else None
  }

  // (lastSeen, slot) of slot i comes before that of slot j.
  predicate Older(c: Cache, i: nat, j: nat)
    requires i < |c| && j < |c|
  {
    c[i].profile.lastSeen < c[j].profile.lastSeen
    || (c[i].profile.lastSeen == c[j].profile.lastSeen && i < j)
  }

  // The slot with the least (lastSeen, slot).
  function EvictionSlot(c: Cache): (m: nat)
    requires c != []
    ensures m < |c|
  {
    var n := |c| - 1;
    if n == 0 then 0
    else
      var m := EvictionSlot(c[..n]);
      if Older(c, n, m) then n else m
  }

  lemma {:induction false} EvictionIsLeast(c: Cache, j: nat)
    requires j < |c| && j != EvictionSlot(c)
    ensures Older(c, EvictionSlot(c), j)
  {
    var n := |c| - 1;
    var m := EvictionSlot(c[..n]);
    if j < n && j != m {
      EvictionIsLeast(c[..n], j);
      assert Older(c, m, j);
    }
  }

  function TargetSlot(c: Cache, capacity: nat, k: ProfileKey): Option<nat> {
    if FindSlot(c, k).Some? then FindSlot(c, k)
    else if |c| < capacity then Some(|c|)
    else if c == [] then None
    else Some(EvictionSlot(c))
  }

  function Put(c: Cache, slot: nat, e: Entry): Cache
    requires slot <= |c|
  {
    if slot == |c| then c + [e] else c[slot := e]
  }

  // ----- Operations -----

  function Upsert(c: Cache, capacity: nat, k: ProfileKey, actual: WalBytes, now: EpochMillis, w: Weights)
    : Result<Cache, CacheError>
    requires ValidWeights(w)
  {
    match TargetSlot(c, capacity, k)
    case None => Err(CapacityExhausted)
    case Some(slot) =>
      var profile := if FindSlot(c, k).Some? then Observe(c[slot].profile, actual, now, w)
                     else FirstProfile(actual, now);
      Ok(Put(c, slot, Entry(k, profile)))
  }

  function UpsertPair(c: Cache, capacity: nat, scope: ScopeHash, query: QueryId,
                      actual: WalBytes, now: EpochMillis, w: Weights): Result<Cache, CacheError>
    requires ValidWeights(w)
  {
    var scoped :- Upsert(c, capacity, ProfileKey(Some(scope), query), actual, now, w);
    Upsert(scoped, capacity, ProfileKey(None, query), actual, now, w)
  }

  // A restored entry loses to a newer one of its own key, and to a full cache of newer entries.
  function RestoreOne(c: Cache, capacity: nat, e: Entry): Result<Cache, CacheError> {
    if capacity == 0 then Err(CapacityExhausted)
    else
      match TargetSlot(c, capacity, e.key)
      case None => Err(CapacityExhausted)
      case Some(slot) =>
        if slot < |c| && c[slot].profile.lastSeen > e.profile.lastSeen then Ok(c)
        else Ok(Put(c, slot, e))
  }

  function RestoreAll(c: Cache, capacity: nat, restored: seq<Entry>): Result<Cache, CacheError> {
    if restored == [] then Ok(c)
    else
      var earlier :- RestoreAll(c, capacity, restored[..|restored| - 1]);
      RestoreOne(earlier, capacity, restored[|restored| - 1])
  }

  function Lookup(c: Cache, scope: ScopeHash, query: QueryId): Option<QueryWalProfile> {
    var scoped, global := FindSlot(c, ProfileKey(Some(scope), query)), FindSlot(c, ProfileKey(None, query));
    if scoped.Some? then Some(c[scoped.value].profile)
    else if global.Some? then Some(c[global.value].profile)
    else None
  }

  // ----- The cache refines a capped map -----

  lemma {:induction false} ViewAt(c: Cache, i: nat)
    requires Unique(c) && i < |c|
    ensures c[i].key in View(c) && View(c)[c[i].key] == c[i].profile
  {
    if i < |c| - 1 {
      ViewAt(c[..|c| - 1], i);
    }
  }

  lemma {:induction false} ViewDomain(c: Cache)
    requires Unique(c)
    ensures forall k :: k in View(c) <==> Has(c, k)
    ensures |View(c)| == |c|
  {
    if c != [] {
      var n := |c| - 1;
      ViewDomain(c[..n]);
      forall k ensures k in View(c) <==> Has(c, k) {
        if Has(c[..n], k) {
          var i :| 0 <= i < n && c[..n][i].key == k;
          assert c[i].key == k;
        }
        assert c[n].key == k ==> Has(c, k);
      }
      assert !Has(c[..n], c[n].key);
    }
  }

  lemma ViewHas(c: Cache, k: ProfileKey)
    requires Unique(c)
    ensures Has(c, k) <==> k in View(c)
    ensures FindSlot(c, k).Some? ==> View(c)[k] == c[FindSlot(c, k).value].profile
    ensures |View(c)| == |c|
  {
    ViewDomain(c);
    if FindSlot(c, k).Some? {
      ViewAt(c, FindSlot(c, k).value);
    }
  }

  lemma PutUnique(c: Cache, slot: nat, e: Entry)
    requires Unique(c) && slot <= |c|
    requires forall i :: 0 <= i < |c| && i != slot ==> c[i].key != e.key
    ensures Unique(Put(c, slot, e))
  {
  }

  lemma UpdatesCommute(m: map<ProfileKey, QueryWalProfile>, removed: ProfileKey, e: Entry, last: Entry)
    requires last.key != removed && last.key != e.key
    ensures (m - {removed})[e.key := e.profile][last.key := last.profile]
         == (m[last.key := last.profile] - {removed})[e.key := e.profile]
  {
  }

  lemma FrontView(c: Cache)
    requires Unique(c) && c != []
    ensures var front, last := c[..|c| - 1], c[|c| - 1];
      Unique(front) && last.key !in View(front) && View(c) == View(front)[last.key := last.profile]
  {
    ViewDomain(c[..|c| - 1]);
  }

  lemma UpdateThenRemove(m: map<ProfileKey, QueryWalProfile>, e: Entry)
    requires e.key !in m
    ensures m[e.key := e.profile] - {e.key} == m
  {
  }

  lemma PutAtEndsView(c: Cache, slot: nat, e: Entry)
    requires Unique(c) && |c| - 1 <= slot <= |c|
    requires forall i :: 0 <= i < |c| && i != slot ==> c[i].key != e.key
    ensures View(Put(c, slot, e))
         == (if slot < |c| then View(c) - {c[slot].key} else View(c))[e.key := e.profile]
  {
    if slot == |c| {
      assert (c + [e])[..|c|] == c;
    } else {
      FrontView(c);
      assert c[slot := e][..slot] == c[..slot];
      UpdateThenRemove(View(c[..slot]), c[slot]);
    }
  }

  lemma {:induction false} PutView(c: Cache, slot: nat, e: Entry)
    requires Unique(c) && slot <= |c|
    requires forall i :: 0 <= i < |c| && i != slot ==> c[i].key != e.key
    ensures Unique(Put(c, slot, e))
    ensures View(Put(c, slot, e))
         == (if slot < |c| then View(c) - {c[slot].key} else View(c))[e.key := e.profile]
  {
    PutUnique(c, slot, e);
    var n := |c| - 1;
    if slot >= n {
      PutAtEndsView(c, slot, e);
    } else {
      PutView(c[..n], slot, e);
      var last := c[n];
      assert c[slot := e][..n] == c[..n][slot := e];
      assert View(c[slot := e]) == View(c[..n][slot := e])[last.key := last.profile];
      UpdatesCommute(View(c[..n]), c[slot].key, e, last);
    }
  }

  lemma TargetIsOnlyHome(c: Cache, capacity: nat, k: ProfileKey)
    requires Unique(c) && |c| <= capacity && capacity > 0
    ensures TargetSlot(c, capacity, k).Some? && TargetSlot(c, capacity, k).value <= |c|
    ensures forall i :: 0 <= i < |c| && i != TargetSlot(c, capacity, k).value ==> c[i].key != k
  {
  }

  // Writing a key at its target slot is a map update, and if the key is new and the cache full, what
  // it removes is exactly the entry of least (lastSeen, slot).
  lemma PutRefinesMap(c: Cache, capacity: nat, e: Entry)
    requires Unique(c) && |c| <= capacity && capacity > 0
    ensures var slot := TargetSlot(c, capacity, e.key).value;
      && slot <= |c| && Unique(Put(c, slot, e))
      && |Put(c, slot, e)| == (if slot == |c| then |c| + 1 else |c|) <= capacity
      && View(Put(c, slot, e))
         == (if !Has(c, e.key) && |c| == capacity then View(c) - {c[EvictionSlot(c)].key} else View(c))
              [e.key := e.profile]
  {
    TargetIsOnlyHome(c, capacity, e.key);
    PutView(c, TargetSlot(c, capacity, e.key).value, e);
  }

  // The scoped profile if there is one, otherwise the global one, wherever they are in the array.
  lemma LookupPrefersScope(c: Cache, scope: ScopeHash, query: QueryId)
    requires Unique(c)
    ensures var scoped, global := ProfileKey(Some(scope), query), ProfileKey(None, query);
      Lookup(c, scope, query)
        == if scoped in View(c) then Some(View(c)[scoped])
           else if global in View(c) then Some(View(c)[global]) else None
  {
    ViewHas(c, ProfileKey(Some(scope), query));
    ViewHas(c, ProfileKey(None, query));
  }

  datatype Op =
    | Observed(scope: ScopeHash, query: QueryId, actual: WalBytes, now: EpochMillis, weights: Weights)
    | Restored(entries: seq<Entry>)
    | Reset

  // A failing operation of the original leaves what it had written; only an empty array fails.
  function Apply(c: Cache, capacity: nat, op: Op): Cache
    requires op.Observed? ==> ValidWeights(op.weights)
  {
    match op
    case Observed(scope, query, actual, now, w) =>
      var r := UpsertPair(c, capacity, scope, query, actual, now, w);
      if r.Ok? then r.value else c
    case Restored(entries) =>
      var r := RestoreAll(c, capacity, entries);
      if r.Ok? then r.value else c
    case Reset => []
  }

  ghost predicate WellFormed(c: Cache, capacity: nat) {
    Unique(c) && |c| <= capacity
  }

  lemma UpsertWellFormed(c: Cache, capacity: nat, k: ProfileKey, actual: WalBytes, now: EpochMillis, w: Weights)
    requires WellFormed(c, capacity) && ValidWeights(w)
    ensures var r := Upsert(c, capacity, k, actual, now, w);
      if capacity == 0 then r.Err? else r.Ok? && WellFormed(r.value, capacity) && Has(r.value, k)
  {
    if capacity > 0 {
      var slot := TargetSlot(c, capacity, k).value;
      var profile := if FindSlot(c, k).Some? then Observe(c[slot].profile, actual, now, w)
                     else FirstProfile(actual, now);
      PutRefinesMap(c, capacity, Entry(k, profile));
      assert Put(c, slot, Entry(k, profile))[slot].key == k;
    }
  }

  lemma {:induction false} RestoreWellFormed(c: Cache, capacity: nat, restored: seq<Entry>)
    requires WellFormed(c, capacity)
    ensures var r := RestoreAll(c, capacity, restored);
      if capacity == 0 && restored != [] then r.Err? else r.Ok? && WellFormed(r.value, capacity)
  {
    if restored != [] {
      var n := |restored| - 1;
      RestoreWellFormed(c, capacity, restored[..n]);
      if capacity > 0 {
        PutRefinesMap(RestoreAll(c, capacity, restored[..n]).value, capacity, restored[n]);
      }
    }
  }

  // Every operation keeps the keys unique and the count within the capacity.
  lemma ApplyWellFormed(c: Cache, capacity: nat, op: Op)
    requires WellFormed(c, capacity) && (op.Observed? ==> ValidWeights(op.weights))
    ensures WellFormed(Apply(c, capacity, op), capacity)
  {
    match op {
      case Observed(scope, query, actual, now, w) =>
        UpsertWellFormed(c, capacity, ProfileKey(Some(scope), query), actual, now, w);
        if capacity > 0 {
          var scoped := Upsert(c, capacity, ProfileKey(Some(scope), query), actual, now, w).value;
          UpsertWellFormed(scoped, capacity, ProfileKey(None, query), actual, now, w);
        }
      case Restored(entries) => RestoreWellFormed(c, capacity, entries);
      case Reset =>
    }
  }

  ghost predicate ValidOps(ops: seq<Op>) {
    forall op :: op in ops && op.Observed? ==> ValidWeights(op.weights)
  }

  function ApplyAll(c: Cache, capacity: nat, ops: seq<Op>): Cache
    requires ValidOps(ops)
  {
    if ops == [] then c
    else Apply(ApplyAll(c, capacity, ops[..|ops| - 1]), capacity, ops[|ops| - 1])
  }

  // Every reachable cache is a capped map with one slot a key, and the stored count is its size.
  lemma {:induction false} ReachableIsCappedMap(capacity: nat, ops: seq<Op>)
    requires ValidOps(ops)
    ensures var c := ApplyAll([], capacity, ops);
      && WellFormed(c, capacity) && |View(c)| == |c|
      && forall i :: 0 <= i < |c| ==> c[i].key in View(c) && View(c)[c[i].key] == c[i].profile
  {
    if ops != [] {
      ReachableIsCappedMap(capacity, ops[..|ops| - 1]);
      assert ops[|ops| - 1] in ops;
      ApplyWellFormed(ApplyAll([], capacity, ops[..|ops| - 1]), capacity, ops[|ops| - 1]);
    }
    var c := ApplyAll([], capacity, ops);
    ViewDomain(c);
    forall i | 0 <= i < |c| ensures c[i].key in View(c) && View(c)[c[i].key] == c[i].profile {
      ViewAt(c, i);
    }
  }

  // What the cache holds after room was made for a key it does not have: all it held, or, when it is
  // full, all but the entry of least (lastSeen, slot).
  function Roomy(c: Cache, capacity: nat): map<ProfileKey, QueryWalProfile> {
    if c != [] && |c| == capacity then View(c) - {c[EvictionSlot(c)].key} else View(c)
  }

  // An observation folds into the profile of its key; a key the cache does not hold starts afresh from
  // this one observation, whatever was in its slot.
  lemma UpsertLaw(c: Cache, capacity: nat, k: ProfileKey, actual: WalBytes, now: EpochMillis, w: Weights)
    requires WellFormed(c, capacity) && capacity > 0 && ValidWeights(w)
    ensures var r := Upsert(c, capacity, k, actual, now, w);
      && r.Ok? && WellFormed(r.value, capacity)
      && View(r.value)
         == if k in View(c) then View(c)[k := Observe(View(c)[k], actual, now, w)]
            else Roomy(c, capacity)[k := QueryWalProfile(1, actual, actual, now)]
  {
    UpsertWellFormed(c, capacity, k, actual, now, w);
    ViewHas(c, k);
    PutRefinesMap(c, capacity, Entry(k, if k in View(c) then Observe(View(c)[k], actual, now, w)
                                        else FirstProfile(actual, now)));
  }

  // The profile of a key after one more observation, if the cache has a place for it.
  function ObservedOnce(c: Cache, k: ProfileKey, actual: WalBytes, now: EpochMillis, w: Weights): QueryWalProfile
    requires ValidWeights(w)
  {
    if k in View(c) then Observe(View(c)[k], actual, now, w) else QueryWalProfile(1, actual, actual, now)
  }

  // With room for what is missing, a statement's observation folds into both profiles of its query, and
  // no other profile changes.
  lemma PairLaw(c: Cache, capacity: nat, scope: ScopeHash, query: QueryId,
                actual: WalBytes, now: EpochMillis, w: Weights)
    requires WellFormed(c, capacity) && capacity > 0 && ValidWeights(w)
    requires var (scoped, global) := (ProfileKey(Some(scope), query), ProfileKey(None, query));
      |View(c).Keys + {scoped, global}| <= capacity
    ensures var (scoped, global) := (ProfileKey(Some(scope), query), ProfileKey(None, query));
      var r := UpsertPair(c, capacity, scope, query, actual, now, w);
      && r.Ok? && WellFormed(r.value, capacity)
      && View(r.value) == View(c)[scoped := ObservedOnce(c, scoped, actual, now, w)]
                                 [global := ObservedOnce(c, global, actual, now, w)]
  {
    var scoped, global := ProfileKey(Some(scope), query), ProfileKey(None, query);
    RoomFor(c, capacity, View(c).Keys + {scoped, global}, scoped);
    UpsertLaw(c, capacity, scoped, actual, now, w);
    var d := Upsert(c, capacity, scoped, actual, now, w).value;
    assert View(d).Keys <= View(c).Keys + {scoped, global};
    RoomFor(d, capacity, View(c).Keys + {scoped, global}, global);
    UpsertLaw(d, capacity, global, actual, now, w);
  }

  // With or without room: whatever profile a statement's observation leaves is the one that was there, or,
  // for the two of its query, that with the observation folded in; the global profile starts afresh if the
  // scoped one took its place.
  lemma PairValues(c: Cache, capacity: nat, scope: ScopeHash, query: QueryId,
                   actual: WalBytes, now: EpochMillis, w: Weights)
    requires WellFormed(c, capacity) && capacity > 0 && ValidWeights(w)
    ensures var (scoped, global) := (ProfileKey(Some(scope), query), ProfileKey(None, query));
      var r := UpsertPair(c, capacity, scope, query, actual, now, w);
      var displaced := scoped !in View(c) && global !in Roomy(c, capacity);
      && r.Ok? && WellFormed(r.value, capacity) && global in View(r.value)
      && View(r.value)[global] == (if displaced then QueryWalProfile(1, actual, actual, now)
                                   else ObservedOnce(c, global, actual, now, w))
      && (scoped in View(r.value) ==> View(r.value)[scoped] == ObservedOnce(c, scoped, actual, now, w))
      && (forall k :: k in View(r.value) && k != scoped && k != global ==>
            k in View(c) && View(r.value)[k] == View(c)[k])
  {
    var scoped, global := ProfileKey(Some(scope), query), ProfileKey(None, query);
    UpsertLaw(c, capacity, scoped, actual, now, w);
    UpsertLaw(Upsert(c, capacity, scoped, actual, now, w).value, capacity, global, actual, now, w);
  }

  // While all of these keys fit, one the cache does not hold finds a free slot.
  lemma RoomFor(c: Cache, capacity: nat, keys: set<ProfileKey>, k: ProfileKey)
    requires Unique(c) && View(c).Keys <= keys && k in keys && |keys| <= capacity
    ensures Has(c, k) <==> k in View(c)
    ensures k !in View(c) ==> |c| < capacity
  {
    ViewHas(c, k);
    if k !in View(c) {
      SubsetSize(View(c).Keys + {k}, keys);
      assert |View(c).Keys + {k}| == |c| + 1;
    }
  }

  lemma SubsetSize(a: set<ProfileKey>, b: set<ProfileKey>)
    requires a <= b
    ensures |a| <= |b|
  {
    assert |b| == |a| + |b - a| by {
      assert b == a + (b - a);
    }
  }

  // A restored entry replaces an entry of its own key that is not newer; a key the cache does not hold
  // takes a free slot, or the place of the entry of least (lastSeen, slot) when that is not newer.
  lemma RestoreLaw(c: Cache, capacity: nat, e: Entry)
    requires WellFormed(c, capacity) && capacity > 0
    ensures var r := RestoreOne(c, capacity, e);
      && r.Ok? && WellFormed(r.value, capacity)
      && View(r.value)
         == if e.key in View(c) then
              if View(c)[e.key].lastSeen <= e.profile.lastSeen then View(c)[e.key := e.profile] else View(c)
            else if |c| < capacity || c[EvictionSlot(c)].profile.lastSeen <= e.profile.lastSeen then
              Roomy(c, capacity)[e.key := e.profile]
            else View(c)
  {
    ViewHas(c, e.key);
    PutRefinesMap(c, capacity, e);
  }

  // ----- The paired upsert -----

  lemma UpsertAtSlot(c: Cache, capacity: nat, k: ProfileKey, actual: WalBytes, now: EpochMillis, w: Weights)
    requires WellFormed(c, capacity) && capacity > 0 && ValidWeights(w)
    ensures var d := Upsert(c, capacity, k, actual, now, w).value;
      var s := TargetSlot(c, capacity, k).value;
      && s <= |c| && |d| == Max(|c|, s + 1) && s < |d|
      && d[s].key == k && d[s].profile.lastSeen == now
      && forall j :: 0 <= j < |d| && j != s ==> j < |c| && d[j] == c[j]
  {
  }

  // Which pairs survive, told from the cache before the call: after the scoped profile has gone to
  // its slot s, the global one has an entry of its own, or room, or an older entry to replace.
  ghost predicate PairFits(c: Cache, capacity: nat, scope: ScopeHash, query: QueryId, now: EpochMillis) {
    var s := TargetSlot(c, capacity, ProfileKey(Some(scope), query));
    s.Some? &&
    (|| (exists j :: 0 <= j < |c| && j != s.value && c[j].key == ProfileKey(None, query))
     || Max(|c|, s.value + 1) < capacity
     || (exists j :: 0 <= j < |c| && j != s.value
           && (c[j].profile.lastSeen < now || (c[j].profile.lastSeen == now && j < s.value))))
  }

  lemma PairedUpsertKeepsBothIff(c: Cache, capacity: nat, scope: ScopeHash, query: QueryId,
                                 actual: WalBytes, now: EpochMillis, w: Weights)
    requires WellFormed(c, capacity) && capacity > 0 && ValidWeights(w)
    ensures var r := UpsertPair(c, capacity, scope, query, actual, now, w);
      && r.Ok? && Has(r.value, ProfileKey(None, query))
      && (Has(r.value, ProfileKey(Some(scope), query)) <==> PairFits(c, capacity, scope, query, now))
  {
    var scopedKey, globalKey := ProfileKey(Some(scope), query), ProfileKey(None, query);
    UpsertWellFormed(c, capacity, scopedKey, actual, now, w);
    UpsertAtSlot(c, capacity, scopedKey, actual, now, w);
    var d := Upsert(c, capacity, scopedKey, actual, now, w).value;
    var s := TargetSlot(c, capacity, scopedKey).value;
    UpsertWellFormed(d, capacity, globalKey, actual, now, w);
    UpsertAtSlot(d, capacity, globalKey, actual, now, w);
    var r := Upsert(d, capacity, globalKey, actual, now, w).value;
    var g := TargetSlot(d, capacity, globalKey).value;
    if g != s {
      assert r[s] == d[s];
    } else {
      assert forall j :: 0 <= j < |r| && j != s ==> r[j].key != scopedKey;
      assert r[s].key == globalKey;
    }
    GlobalMissesSlot(c, d, capacity, s, scopedKey, globalKey, now);
  }

  lemma GlobalMissesSlot(c: Cache, d: Cache, capacity: nat, s: nat, scopedKey: ProfileKey, globalKey: ProfileKey,
                         now: EpochMillis)
    requires WellFormed(d, capacity) && s < |d| == Max(|c|, s + 1) && scopedKey != globalKey
    requires d[s].key == scopedKey && d[s].profile.lastSeen == now
    requires forall j :: 0 <= j < |d| && j != s ==> j < |c| && d[j] == c[j]
    ensures TargetSlot(d, capacity, globalKey).Some?
    ensures TargetSlot(d, capacity, globalKey) != Some(s) <==>
      || (exists j :: 0 <= j < |c| && j != s && c[j].key == globalKey)
      || |d| < capacity
      || (exists j :: 0 <= j < |c| && j != s
            && (c[j].profile.lastSeen < now || (c[j].profile.lastSeen == now && j < s)))
  {
    var found := FindSlot(d, globalKey);
    if found.Some? {
      assert c[found.value].key == globalKey;
    } else {
      forall j | 0 <= j < |c| && j != s ensures c[j].key != globalKey {
        assert d[j].key != globalKey;
      }
      if |d| == capacity {
        var m := EvictionSlot(d);
        if m != s {
          EvictionIsLeast(d, s);
          assert c[m] == d[m];
        } else {
          forall j | 0 <= j < |c| && j != s
            ensures !(c[j].profile.lastSeen < now || (c[j].profile.lastSeen == now && j < s))
          {
            EvictionIsLeast(d, j);
          }
        }
      }
    }
  }

  // With two slots or more and every stored entry strictly older, both entries are always kept.
  lemma PairedUpsertKeepsBoth(c: Cache, capacity: nat, scope: ScopeHash, query: QueryId,
                              actual: WalBytes, now: EpochMillis, w: Weights)
    requires WellFormed(c, capacity) && capacity >= 2 && ValidWeights(w)
    requires forall i :: 0 <= i < |c| ==> c[i].profile.lastSeen < now
    ensures var r := UpsertPair(c, capacity, scope, query, actual, now, w);
      r.Ok? && Has(r.value, ProfileKey(Some(scope), query)) && Has(r.value, ProfileKey(None, query))
  {
    PairedUpsertKeepsBothIff(c, capacity, scope, query, actual, now, w);
    var s := TargetSlot(c, capacity, ProfileKey(Some(scope), query)).value;
    if Max(|c|, s + 1) >= capacity {
      var j := if s == 0 then 1 else 0;
      assert j < |c| && c[j].profile.lastSeen < now;
    }
  }

  // A tie loses the scoped entry just written: its slot comes first.
  lemma TieLosesScopedEntry(w: Weights)
    requires ValidWeights(w)
    ensures var c := [Entry(ProfileKey(None, 1), FirstProfile(5, 9)), Entry(ProfileKey(None, 2), FirstProfile(5, 10))];
      var r := UpsertPair(c, 2, 7, 3, 5, 10, w);
      Unique(c) && r.Ok? && !Has(r.value, ProfileKey(Some(7), 3))
  {
    var a, b := Entry(ProfileKey(None, 1), FirstProfile(5, 9)), Entry(ProfileKey(None, 2), FirstProfile(5, 10));
    var c := [a, b];
    assert c[..1] == [a] && Older(c, 0, 1);
    assert EvictionSlot(c) == 0;
    PairedUpsertKeepsBothIff(c, 2, 7, 3, 5, 10, w);
  }
}
