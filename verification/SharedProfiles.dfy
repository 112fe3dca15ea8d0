// The profile region of shared memory: the array behind the cache, and the state of its restore and
// of its persistence (src/shmem/profiles.rs). Each method is one critical section.
module SharedProfiles {
  import opened Numbers
  import opened Wrappers
  import opened Profiles
  import opened ProfileCache

  // ----- Who may load the durable profiles -----

  datatype RestoreState = NotAttempted | InProgress(started: EpochMillis) | Loaded | Failed

  function BeginRestore(r: RestoreState, now: EpochMillis, staleAfter: EpochMillis): (RestoreState, bool) {
    if r == NotAttempted || r == Failed
       || (r.InProgress? && SaturatingSub(now, r.started) >= staleAfter)
    then (InProgress(now), true)
    else (r, false)
  }

  function MarkRestoreFailed(r: RestoreState): RestoreState {
    if r.InProgress? then Failed else r
  }

  datatype RestoreEvent = Begin(now: EpochMillis) | Finish | Fail | ResetProfiles

  function RestoreStep(r: RestoreState, e: RestoreEvent, staleAfter: EpochMillis): RestoreState {
    match e
    case Begin(now) => BeginRestore(r, now, staleAfter).0
    case Finish => Loaded
    case Fail => MarkRestoreFailed(r)
    case ResetProfiles => Loaded
  }

  function RestoreRun(r: RestoreState, events: seq<RestoreEvent>, staleAfter: EpochMillis): RestoreState {
    if events == [] then r
    else RestoreStep(RestoreRun(r, events[..|events| - 1], staleAfter), events[|events| - 1], staleAfter)
  }

  predicate GrantedAt(r: RestoreState, events: seq<RestoreEvent>, i: nat, staleAfter: EpochMillis)
    requires i < |events|
  {
    events[i].Begin? && BeginRestore(RestoreRun(r, events[..i], staleAfter), events[i].now, staleAfter).1
  }

  lemma RunPrefixStep(r: RestoreState, events: seq<RestoreEvent>, i: nat, staleAfter: EpochMillis)
    requires i < |events|
    ensures RestoreRun(r, events[..i + 1], staleAfter)
         == RestoreStep(RestoreRun(r, events[..i], staleAfter), events[i], staleAfter)
  {
    assert events[..i + 1][..i] == events[..i];
  }

  // Once loaded, always loaded, whatever finishes, fails or resets arrive, and no load is granted.
  lemma {:induction false} LoadedIsAbsorbing(r: RestoreState, events: seq<RestoreEvent>, i: nat, j: nat,
                                             staleAfter: EpochMillis)
    requires i <= j <= |events| && RestoreRun(r, events[..i], staleAfter) == Loaded
    ensures RestoreRun(r, events[..j], staleAfter) == Loaded
    ensures j < |events| ==> !GrantedAt(r, events, j, staleAfter)
    decreases j - i
  {
    if i < j {
      LoadedIsAbsorbing(r, events, i, j - 1, staleAfter);
      RunPrefixStep(r, events, j - 1, staleAfter);
    }
  }

  lemma {:induction false} HeldAfterGrant(r: RestoreState, events: seq<RestoreEvent>, i: nat, j: nat,
                                          staleAfter: EpochMillis)
    requires i < j <= |events| && staleAfter > 0 && GrantedAt(r, events, i, staleAfter)
    requires forall q :: i < q < j ==> events[q] != Fail
    ensures var s := RestoreRun(r, events[..j], staleAfter);
      s == Loaded || (s.InProgress? && s.started >= events[i].now)
    decreases j
  {
    RunPrefixStep(r, events, j - 1, staleAfter);
    if i < j - 1 {
      HeldAfterGrant(r, events, i, j - 1, staleAfter);
    }
  }

  // Two grants with no failure mark between them are at least `staleAfter` apart. No assumption on
  // the clocks of the sessions is needed.
  lemma GrantsAreApart(r: RestoreState, events: seq<RestoreEvent>, i: nat, j: nat, staleAfter: EpochMillis)
    requires i < j < |events| && staleAfter > 0
    requires GrantedAt(r, events, i, staleAfter) && GrantedAt(r, events, j, staleAfter)
    requires forall q :: i < q < j ==> events[q] != Fail
    ensures events[j].now >= events[i].now + staleAfter
  {
    HeldAfterGrant(r, events, i, j, staleAfter);
  }

  // Strictly between events i and j nobody finishes, resets, or is granted the load.
  ghost predicate NothingSettledBetween(r: RestoreState, events: seq<RestoreEvent>, i: nat, j: nat,
                                        staleAfter: EpochMillis)
    requires j <= |events|
  {
    forall q :: i < q < j ==>
      !events[q].Finish? && !events[q].ResetProfiles? && !GrantedAt(r, events, q, staleAfter)
  }

  ghost predicate FailedBetween(events: seq<RestoreEvent>, i: nat, j: nat)
    requires j <= |events|
  {
    exists q :: i < q < j && events[q] == Fail
  }

  lemma FailedBetweenStep(events: seq<RestoreEvent>, i: nat, j: nat)
    requires i < j < |events|
    ensures FailedBetween(events, i, j + 1) <==> FailedBetween(events, i, j) || events[j] == Fail
  {
  }

  lemma StepWhileHeld(s: RestoreState, e: RestoreEvent, started: EpochMillis, failed: bool, staleAfter: EpochMillis)
    requires s == if failed then Failed else InProgress(started)
    requires !e.Finish? && !e.ResetProfiles? && (e.Begin? ==> !BeginRestore(s, e.now, staleAfter).1)
    ensures RestoreStep(s, e, staleAfter) == if failed || e == Fail then Failed else InProgress(started)
  {
  }

  lemma HeldAtFirst(r: RestoreState, events: seq<RestoreEvent>, i: nat, staleAfter: EpochMillis)
    requires i < |events| && GrantedAt(r, events, i, staleAfter)
    ensures RestoreRun(r, events[..i + 1], staleAfter) == InProgress(events[i].now)
  {
    RunPrefixStep(r, events, i, staleAfter);
  }

  lemma QuietStep(r: RestoreState, events: seq<RestoreEvent>, i: nat, q: nat, j: nat, staleAfter: EpochMillis)
    requires i < q < j <= |events| && NothingSettledBetween(r, events, i, j, staleAfter)
    ensures NothingSettledBetween(r, events, i, q, staleAfter)
    ensures !events[q].Finish? && !events[q].ResetProfiles?
    ensures events[q].Begin? ==>
      !BeginRestore(RestoreRun(r, events[..q], staleAfter), events[q].now, staleAfter).1
  {
    assert !GrantedAt(r, events, q, staleAfter);
  }

  function Held(events: seq<RestoreEvent>, i: nat, failed: bool): RestoreState
    requires i < |events| && events[i].Begin?
  {
    if failed then Failed else InProgress(events[i].now)
  }

  lemma HeldStep(r: RestoreState, events: seq<RestoreEvent>, i: nat, q: nat, failed: bool, staleAfter: EpochMillis)
    requires i < q < |events| && events[i].Begin?
    requires RestoreRun(r, events[..q], staleAfter) == Held(events, i, failed)
    requires !events[q].Finish? && !events[q].ResetProfiles?
    requires events[q].Begin? ==> !BeginRestore(Held(events, i, failed), events[q].now, staleAfter).1
    ensures RestoreRun(r, events[..q + 1], staleAfter) == Held(events, i, failed || events[q] == Fail)
  {
    RunPrefixStep(r, events, q, staleAfter);
    StepWhileHeld(Held(events, i, failed), events[q], events[i].now, failed, staleAfter);
  }

  // Until the next finish, reset or grant, the load is the granted one's until someone marks it failed.
  lemma {:induction false} HeldUntilFail(r: RestoreState, events: seq<RestoreEvent>, i: nat, j: nat,
                                         staleAfter: EpochMillis)
    requires i < j <= |events| && GrantedAt(r, events, i, staleAfter)
    requires NothingSettledBetween(r, events, i, j, staleAfter)
    ensures RestoreRun(r, events[..j], staleAfter) == Held(events, i, FailedBetween(events, i, j))
    decreases j
  {
    if i == j - 1 {
      HeldAtFirst(r, events, i, staleAfter);
    } else {
      QuietStep(r, events, i, j - 1, j, staleAfter);
      HeldUntilFail(r, events, i, j - 1, staleAfter);
      FailedBetweenStep(events, i, j - 1);
      HeldStep(r, events, i, j - 1, FailedBetween(events, i, j - 1), staleAfter);
    }
  }

  // The converse: with nothing settled since a grant, the next asker is granted the load if and only if
  // a failure mark lies between or the stale time is over.
  lemma GrantIffFailedOrStale(r: RestoreState, events: seq<RestoreEvent>, i: nat, j: nat, staleAfter: EpochMillis)
    requires i < j < |events| && GrantedAt(r, events, i, staleAfter)
    requires NothingSettledBetween(r, events, i, j, staleAfter) && events[j].Begin?
    ensures GrantedAt(r, events, j, staleAfter) <==>
      || FailedBetween(events, i, j)
      || events[j].now >= events[i].now + staleAfter
      || staleAfter == 0
  {
    HeldUntilFail(r, events, i, j, staleAfter);
  }

  // The first asker is granted the load.
  lemma FirstIsGranted(events: seq<RestoreEvent>, i: nat, staleAfter: EpochMillis)
    requires i < |events| && events[i].Begin? && forall q :: 0 <= q < i ==> events[q] == Fail
    ensures GrantedAt(NotAttempted, events, i, staleAfter)
  {
    StillNotAttempted(events, i, staleAfter);
  }

  lemma {:induction false} StillNotAttempted(events: seq<RestoreEvent>, i: nat, staleAfter: EpochMillis)
    requires i <= |events| && forall q :: 0 <= q < i ==> events[q] == Fail
    ensures RestoreRun(NotAttempted, events[..i], staleAfter) == NotAttempted
  {
    if i > 0 {
      StillNotAttempted(events, i - 1, staleAfter);
      RunPrefixStep(NotAttempted, events, i - 1, staleAfter);
    }
  }

  // From the first finish or reset on the profiles are loaded for good.
  lemma SettledIsLoaded(r: RestoreState, events: seq<RestoreEvent>, q: nat, j: nat, staleAfter: EpochMillis)
    requires q < j <= |events| && (events[q].Finish? || events[q].ResetProfiles?)
    ensures RestoreRun(r, events[..j], staleAfter) == Loaded
    ensures j < |events| ==> !GrantedAt(r, events, j, staleAfter)
  {
    RunPrefixStep(r, events, q, staleAfter);
    LoadedIsAbsorbing(r, events, q + 1, j, staleAfter);
  }

  // The failure mark matters: a loader that was overtaken and then fails frees the slot of the loader
  // that overtook it, so two loads run at once.
  lemma LateFailureFreesSuccessor(staleAfter: EpochMillis, now: EpochMillis)
    requires 0 < staleAfter <= now < U64_MAX
    ensures var events := [Begin(0), Begin(now), Fail, Begin(now + 1)];
      GrantedAt(NotAttempted, events, 0, staleAfter) && GrantedAt(NotAttempted, events, 1, staleAfter)
      && GrantedAt(NotAttempted, events, 3, staleAfter)
  {
    var events := [Begin(0), Begin(now), Fail, Begin(now + 1)];
    RunPrefixStep(NotAttempted, events, 0, staleAfter);
    RunPrefixStep(NotAttempted, events, 1, staleAfter);
    RunPrefixStep(NotAttempted, events, 2, staleAfter);
  }

  // ----- The array and its state -----

  datatype Slot = Free | Used(entry: Entry)

  class ProfileRegion {
    const slots: array<Slot>
    var profilesLen: nat
    var restore: RestoreState
    var lastPersist: EpochMillis
    var dirtyCount: U64
    ghost var Value: Cache

    ghost predicate Valid()
      reads this, slots
    {
      && profilesLen == |Value| <= slots.Length
      && Unique(Value)
      && (forall i :: 0 <= i < |Value| ==> slots[i] == Used(Value[i]))
      && (forall i :: |Value| <= i < slots.Length ==> slots[i] == Free)
    }

    constructor (capacity: nat)
      ensures Valid() && fresh(slots) && slots.Length == capacity
      ensures Value == [] && restore == NotAttempted && lastPersist == 0 && dirtyCount == 0
    {
      slots := new Slot[capacity](_ => Free);
      profilesLen, restore, lastPersist, dirtyCount := 0, NotAttempted, 0, 0;
      Value := [];
    }

    method FindProfileSlot(k: ProfileKey) returns (r: Option<nat>)
      requires Valid()
      ensures r == FindSlot(Value, k)
    {
      for i := 0 to slots.Length
        invariant forall j :: 0 <= j < i && j < |Value| ==> Value[j].key != k
      {
        if slots[i].Used? && slots[i].entry.key == k {
          return Some(i);
        }
      }
      r := None;
    }

    method FindEmptySlot() returns (r: Option<nat>)
      requires Valid()
      ensures r == if |Value| < slots.Length then Some(|Value|) else None
    {
      for i := 0 to slots.Length
        invariant i <= |Value|
      {
        if slots[i] == Free {
          return Some(i);
        }
      }
      r := None;
    }

    // The scan skips free slots.
    method FindEvictionSlot() returns (r: Option<nat>)
      requires Valid()
      ensures r == if Value == [] then None else Some(EvictionSlot(Value))
    {
      r := None;
      for i := 0 to slots.Length
        invariant r == if Min(i, |Value|) == 0 then None else Some(EvictionSlot(Value[..Min(i, |Value|)]))
      {
        if slots[i].Used? {
          assert Value[..i + 1][..i] == Value[..i];
          if r.None? || slots[i].entry.profile.lastSeen < slots[r.value].entry.profile.lastSeen {
            r := Some(i);
          }
        }
      }
      assert Value[..|Value|] == Value;
    }

    method Write(slot: nat, e: Entry)
      requires Valid() && slot < slots.Length && slot <= |Value|
      requires forall i :: 0 <= i < |Value| && i != slot ==> Value[i].key != e.key
      modifies slots, `profilesLen, `Value
      ensures Valid() && Value == Put(old(Value), slot, e)
    {
      PutUnique(Value, slot, e);
      profilesLen := if slots[slot].Free? then Min(profilesLen + 1, slots.Length) else profilesLen;
      slots[slot] := Used(e);
      Value := Put(Value, slot, e);
    }

    method UpsertProfile(k: ProfileKey, actual: WalBytes, now: EpochMillis, w: Weights)
      returns (r: Result<(), CacheError>)
      requires Valid() && ValidWeights(w)
      modifies slots, `profilesLen, `Value
      ensures Valid()
      ensures var spec := Upsert(old(Value), slots.Length, k, actual, now, w);
        if spec.Ok? then r == Ok(()) && Value == spec.value else r == Err(spec.error) && Value == old(Value)
    {
      var found := FindProfileSlot(k);
      if found.Some? {
        var state := new ProfileState(slots[found.value].entry.profile);
        state.RecordObservation(actual, now, w);
        Write(found.value, Entry(k, state.Value()));
        return Ok(());
      }
      var slot := FindEmptySlot();
      if slot.None? {
        slot := FindEvictionSlot();
        if slot.None? {
          return Err(CapacityExhausted);
        }
      }
      Write(slot.value, Entry(k, FirstProfile(actual, now)));
      r := Ok(());
    }

    method UpsertScopedAndGlobal(scope: ScopeHash, query: QueryId, actual: WalBytes, now: EpochMillis, w: Weights)
      returns (r: Result<(), CacheError>)
      requires Valid() && ValidWeights(w)
      modifies slots, `profilesLen, `Value, `dirtyCount
      ensures Valid()
      ensures Value == Apply(old(Value), slots.Length, Observed(scope, query, actual, now, w))
      ensures r.Ok? <==> slots.Length > 0
      ensures dirtyCount == if r.Ok? then SaturatingAdd(old(dirtyCount), 1) else old(dirtyCount)
    {
      UpsertWellFormed(Value, slots.Length, ProfileKey(Some(scope), query), actual, now, w);
      r := UpsertProfile(ProfileKey(Some(scope), query), actual, now, w);
      if r.Err? {
        return;
      }
      UpsertWellFormed(Value, slots.Length, ProfileKey(None, query), actual, now, w);
      r := UpsertProfile(ProfileKey(None, query), actual, now, w);
      dirtyCount := SaturatingAdd(dirtyCount, 1);
    }

    method LookupScopedOrGlobal(scope: ScopeHash, query: QueryId) returns (r: Option<QueryWalProfile>)
      requires Valid()
      ensures r == Lookup(Value, scope, query)
    {
      var global: Option<QueryWalProfile> := None;
      for i := 0 to slots.Length
        invariant forall j :: 0 <= j < i && j < |Value| ==> Value[j].key != ProfileKey(Some(scope), query)
        invariant global.None? ==> forall j :: 0 <= j < i && j < |Value| ==> Value[j].key != ProfileKey(None, query)
        invariant global.Some? ==>
          exists j :: 0 <= j < |Value| && Value[j].key == ProfileKey(None, query) && Value[j].profile == global.value
      {
        if slots[i].Used? && slots[i].entry.key.query == query {
          if slots[i].entry.key.scope == Some(scope) {
            return Some(slots[i].entry.profile);
          }
          if slots[i].entry.key.scope.None? && global.None? {
            global := Some(slots[i].entry.profile);
          }
        }
      }
      r := global;
    }

    method RestoreProfile(e: Entry) returns (r: Result<(), CacheError>)
      requires Valid()
      modifies slots, `profilesLen, `Value
      ensures Valid()
      ensures var spec := RestoreOne(old(Value), slots.Length, e);
        if spec.Ok? then r == Ok(()) && Value == spec.value else r == Err(spec.error) && Value == old(Value)
    {
      if slots.Length == 0 {
        return Err(CapacityExhausted);
      }
      var found := FindProfileSlot(e.key);
      if found.Some? {
        if slots[found.value].entry.profile.lastSeen <= e.profile.lastSeen {
          Write(found.value, e);
        }
        return Ok(());
      }
      var slot := FindEmptySlot();
      if slot.None? {
        slot := FindEvictionSlot();
        if slot.None? {
          return Err(CapacityExhausted);
        }
        if slots[slot.value].entry.profile.lastSeen > e.profile.lastSeen {
          return Ok(());
        }
      }
      Write(slot.value, e);
      r := Ok(());
    }

    method FinishRestore(restored: seq<Entry>) returns (r: Result<(), CacheError>)
      requires Valid()
      modifies slots, `profilesLen, `Value, `restore
      ensures Valid()
      ensures var spec := RestoreAll(old(Value), slots.Length, restored);
        if spec.Ok? then r == Ok(()) && Value == spec.value && restore == RestoreStep(old(restore), Finish, 0)
        else r == Err(spec.error) && restore == old(restore)
      ensures Value == Apply(old(Value), slots.Length, Restored(restored))
    {
      RestoreWellFormed(Value, slots.Length, restored);
      for i := 0 to |restored|
        invariant Valid() && restore == old(restore)
        invariant RestoreAll(old(Value), slots.Length, restored[..i]) == Ok(Value)
      {
        assert restored[..i + 1][..i] == restored[..i];
        r := RestoreProfile(restored[i]);
        if r.Err? {
          ErrorIsFinal(old(Value), slots.Length, restored, i + 1);
          return;
        }
      }
      assert restored[..|restored|] == restored;
      restore := Loaded;
      r := Ok(());
    }

    method TryBeginRestore(now: EpochMillis, staleAfter: EpochMillis) returns (granted: bool)
      modifies `restore
      ensures (restore, granted) == BeginRestore(old(restore), now, staleAfter)
    {
      var stale := restore.InProgress? && SaturatingSub(now, restore.started) >= staleAfter;
      if restore == NotAttempted || restore == Failed || stale {
        restore := InProgress(now);
        return true;
      }
      granted := false;
    }

    method MarkFailed()
      modifies `restore
      ensures restore == MarkRestoreFailed(old(restore))
    {
      if restore.InProgress? {
        restore := Failed;
      }
    }

    method ResetAll()
      requires Valid()
      modifies this, slots
      ensures Valid() && Value == Apply(old(Value), slots.Length, Op.Reset)
      ensures restore == RestoreStep(old(restore), ResetProfiles, 0) && lastPersist == 0 && dirtyCount == 0
    {
      profilesLen, restore, lastPersist, dirtyCount := 0, Loaded, 0, 0;
      forall i | 0 <= i < slots.Length {
        slots[i] := Free;
      }
      Value := [];
    }

    // A flush is due when something was observed since the last one and the interval has passed.
    method ReservePersist(now: EpochMillis, interval: EpochMillis) returns (snapshot: Option<seq<Entry>>)
      requires Valid()
      modifies `lastPersist
      ensures snapshot.Some? <==> dirtyCount > 0 && SaturatingSub(now, old(lastPersist)) >= interval
      ensures snapshot.Some? ==> snapshot.value == Value
      ensures lastPersist == if snapshot.Some? then now else old(lastPersist)
    {
      if dirtyCount == 0 || SaturatingSub(now, lastPersist) < interval {
        return None;
      }
      var entries := Snapshot();
      lastPersist := now;
      snapshot := Some(entries);
    }

    // A flush on demand takes the whole cache whatever the dirty count and the interval.
    method SnapshotForPersist(now: EpochMillis) returns (entries: seq<Entry>)
      requires Valid()
      modifies `lastPersist
      ensures entries == Value && lastPersist == now
    {
      lastPersist := now;
      entries := Snapshot();
    }

    method Snapshot() returns (entries: seq<Entry>)
      requires Valid()
      ensures entries == Value
    {
      entries := [];
      for i := 0 to slots.Length
        invariant entries == Value[..Min(i, |Value|)]
      {
        if slots[i].Used? {
          entries := entries + [slots[i].entry];
        }
      }
    }

    method CompletePersist(success: bool)
      modifies `dirtyCount
      ensures dirtyCount == if success then 0 else old(dirtyCount)
    {
      if success {
        dirtyCount := 0;
      }
    }
  }

  lemma {:induction false} ErrorIsFinal(c: Cache, capacity: nat, restored: seq<Entry>, i: nat)
    requires i <= |restored| && RestoreAll(c, capacity, restored[..i]).Err?
    ensures RestoreAll(c, capacity, restored) == RestoreAll(c, capacity, restored[..i])
  {
    if i < |restored| {
      assert restored[..|restored| - 1][..i] == restored[..i];
      ErrorIsFinal(c, capacity, restored[..|restored| - 1], i);
    } else {
      assert restored[..i] == restored;
    }
  }
}
