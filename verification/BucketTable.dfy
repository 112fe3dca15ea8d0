// The fixed-size table of buckets (src/shmem/budget_buckets.rs) as a bounded map, the operations
// that reach a bucket through it (src/budget.rs, src/shmem/transactions.rs), and the array that
// implements it. Each operation runs under the one exclusive lock, so it is one atomic step.
module BucketTable {
  import opened Numbers
  import opened Wrappers
  import opened Budget

  datatype Key = Key(policyId: PolicyId, scopeHash: ScopeHash)

  type Buckets = map<Key, Bucket>

  // A callback yields the changed bucket and a result, or an error that discards the change.
  type Callback<R> = Bucket -> Result<(Bucket, R), Error>

  function ApplyBudgetBucket<R>(m: Buckets, capacity: nat, k: Key, initial: Bucket, callback: Callback<R>)
    : (Buckets, Result<R, Error>)
  {
    if k !in m && |m| >= capacity then
      (m, Err(CapacityExhausted))
    else
      match callback(if k in m then m[k] else initial)
      case Ok((b, r)) => (m[k := b], Ok(r))
      case Err(e) => (m, Err(e))
  }

  function WithExistingBudgetBucket<R>(m: Buckets, k: Key, callback: Callback<R>)
    : (Buckets, Result<Option<R>, Error>)
  {
    if k !in m then
      (m, Ok(None))
    else
      match callback(m[k])
      case Ok((b, r)) => (m[k := b], Ok(Some(r)))
      case Err(e) => (m, Err(e))
  }

  // ----- The operations as steps on the table -----

  datatype Op =
    | RejectOp(policy: Policy, predicted: WalBytes, now: EpochMillis)
    | QueueOp(policy: Policy, predicted: WalBytes, now: EpochMillis)
    | ShadowOp(policy: Policy, predicted: WalBytes, now: EpochMillis)
    | RefundOp(bytes: WalBytes)
    | DebtOp(bytes: WalBytes)

  datatype Reply = Decided(decision: Decision) | MustWait(waitMs: EpochMillis) | Done | Missing

  datatype KeyedOp = KeyedOp(key: Key, op: Op)

  predicate Creates(op: Op) {
    op.RejectOp? || op.QueueOp?
  }

  predicate Refreshes(op: Op) {
    Creates(op) || op.ShadowOp?
  }

  function RunOp(b: Bucket, op: Op): Result<(Bucket, Reply), Error> {
    match op
    case RejectOp(p, predicted, now) =>
      var (c, d) :- AdmitReject(b, p, predicted, now);
      Ok((c, Decided(d)))
    case QueueOp(p, predicted, now) =>
      var (c, a) :- AttemptQueueCharge(b, p, predicted, now);
      Ok((c, match a case Admitted(d) => Decided(d) case WouldWait(w) => MustWait(w)))
    case ShadowOp(p, predicted, now) =>
      var (c, d) := AdmitShadow(b, p, predicted, now);
      Ok((c, Decided(d)))
    case RefundOp(bytes) => Ok((RefundCharge(b, bytes), Done))
    case DebtOp(bytes) => Ok((RecordDebt(b, bytes), Done))
  }

  // Shadow mode on an absent bucket answers from a bucket it throws away.
  function Perform(m: Buckets, capacity: nat, o: KeyedOp): (Buckets, Result<Reply, Error>) {
    if Creates(o.op) then
      ApplyBudgetBucket(m, capacity, o.key, InitialBucket(o.op.policy, o.op.now), b => RunOp(b, o.op))
    else
      var (m', r) := WithExistingBudgetBucket(m, o.key, b => RunOp(b, o.op));
      (m', match r
           case Ok(Some(reply)) => Ok(reply)
           case Ok(None) =>
             if o.op.ShadowOp? then
               var initial := InitialBucket(o.op.policy, o.op.now);
               Ok(Decided(AdmitShadow(initial, o.op.policy, o.op.predicted, o.op.now).1))
             else Ok(Missing)
           case Err(e) => Err(e))
  }

  function RunTable(m: Buckets, capacity: nat, ops: seq<KeyedOp>): Buckets {
    if ops == [] then m
    else Perform(RunTable(m, capacity, ops[..|ops| - 1]), capacity, ops[|ops| - 1]).0
  }

  // ----- What every operation keeps -----

  // One step touches its own key only; a failing step changes nothing; the table refuses exactly an
  // absent key in a full table; a bucket that exists stays.
  lemma StepFrame(m: Buckets, capacity: nat, o: KeyedOp)
    requires |m| <= capacity
    ensures var (m', r) := Perform(m, capacity, o);
      && (forall k :: k != o.key ==> (k in m <==> k in m') && (k in m ==> m'[k] == m[k]))
      && (r.Err? ==> m' == m)
      && (r == Err(CapacityExhausted) <==> Creates(o.op) && o.key !in m && |m| == capacity)
      && m.Keys <= m'.Keys
      && |m'| <= capacity
      && (o.key !in m && o.key in m' ==> Creates(o.op) && |m'| == |m| + 1)
  {
    var m' := Perform(m, capacity, o).0;
    if o.key in m {
      OnlyTheTableIsFull(m[o.key], o.op);
    } else if Creates(o.op) {
      OnlyTheTableIsFull(InitialBucket(o.op.policy, o.op.now), o.op);
    }
    if m' != m {
      PutSize(m, o.key, m'[o.key]);
    }
  }

  lemma OnlyTheTableIsFull(b: Bucket, op: Op)
    ensures RunOp(b, op) != Err(CapacityExhausted)
  {
  }

  lemma PutSize(m: Buckets, k: Key, b: Bucket)
    ensures |m[k := b]| == if k in m then |m| else |m| + 1
  {
    assert m[k := b].Keys == m.Keys + {k};
    assert |m.Keys| == |m|;
  }

  // Over any run, no bucket ever disappears and the capacity is never passed.
  lemma {:induction false} RunKeepsBuckets(m: Buckets, capacity: nat, ops: seq<KeyedOp>)
    requires |m| <= capacity
    ensures m.Keys <= RunTable(m, capacity, ops).Keys
    ensures |RunTable(m, capacity, ops)| <= capacity
  {
    if ops != [] {
      var earlier := ops[..|ops| - 1];
      RunKeepsBuckets(m, capacity, earlier);
      StepFrame(RunTable(m, capacity, earlier), capacity, ops[|ops| - 1]);
    }
  }

  lemma {:induction false} RunConcat(m: Buckets, capacity: nat, xs: seq<KeyedOp>, ys: seq<KeyedOp>)
    ensures RunTable(m, capacity, xs + ys) == RunTable(RunTable(m, capacity, xs), capacity, ys)
  {
    if ys == [] {
      assert xs + ys == xs;
    } else {
      RunConcat(m, capacity, xs, ys[..|ys| - 1]);
      assert (xs + ys)[..|xs + ys| - 1] == xs + ys[..|ys| - 1];
    }
  }

  // ----- The array -----

  datatype Slot = Free | Used(key: Key, bucket: Bucket)

  class Table {
    const slots: array<Slot>
    var len: nat
    // The map the occupied prefix stands for, and where each of its keys is.
    ghost var View: Buckets
    ghost var Home: map<Key, nat>

    ghost predicate Valid()
      reads this, slots
    {
      && len <= slots.Length
      && |View| == len && Home.Keys == View.Keys
      && (forall i :: 0 <= i < slots.Length ==> (slots[i].Used? <==> i < len))
      && (forall i :: 0 <= i < len ==> slots[i].key in Home && Home[slots[i].key] == i)
      && (forall k {:trigger View[k]} :: k in Home ==> Home[k] < len && slots[Home[k]] == Used(k, View[k]))
    }

    constructor (capacity: nat)
      ensures Valid() && fresh(slots)
      ensures View == map[] && slots.Length == capacity
    {
      slots := new Slot[capacity](_ => Free);
      len := 0;
      View, Home := map[], map[];
    }

    method FindBudgetBucketSlot(k: Key) returns (slot: Option<nat>)
      requires Valid()
      ensures slot.None? <==> k !in View
      ensures slot.Some? ==> slot.value < len && slots[slot.value].key == k
    {
      for i := 0 to len
        invariant forall j :: 0 <= j < i ==> slots[j].key != k
      {
        if slots[i].key == k {
          return Some(i);
        }
      }
      slot := None;
    }

    method Overwrite(slot: nat, b: Bucket)
      requires Valid() && slot < len
      modifies this, slots
      ensures Valid() && len == old(len)
      ensures View == old(View)[old(slots[slot]).key := b]
    {
      var k := slots[slot].key;
      slots[slot] := Used(k, b);
      View := View[k := b];
    }

    method Append(k: Key, b: Bucket)
      requires Valid() && k !in View && len < slots.Length
      modifies this, slots
      ensures Valid() && len == old(len) + 1
      ensures View == old(View)[k := b]
    {
      PutSize(View, k, b);
      slots[len] := Used(k, b);
      View, Home := View[k := b], Home[k := len];
      len := len + 1;
    }

    method ApplyInPlace<R>(k: Key, initial: Bucket, callback: Callback<R>) returns (r: Result<R, Error>)
      requires Valid()
      modifies this, slots
      ensures Valid()
      ensures (View, r) == ApplyBudgetBucket(old(View), slots.Length, k, initial, callback)
      ensures r.Err? ==> len == old(len) && slots[..] == old(slots[..])
    {
      var found := FindBudgetBucketSlot(k);
      if found.Some? {
        var outcome := callback(slots[found.value].bucket);
        if outcome.Err? {
          return Err(outcome.error);
        }
        Overwrite(found.value, outcome.value.0);
        return Ok(outcome.value.1);
      }
      if len == slots.Length {
        return Err(CapacityExhausted);
      }
      var outcome := callback(initial);
      if outcome.Err? {
        return Err(outcome.error);
      }
      Append(k, outcome.value.0);
      r := Ok(outcome.value.1);
    }

    method WithExistingInPlace<R>(k: Key, callback: Callback<R>) returns (r: Result<Option<R>, Error>)
      requires Valid()
      modifies this, slots
      ensures Valid() && len == old(len)
      ensures (View, r) == WithExistingBudgetBucket(old(View), k, callback)
      ensures r.Err? ==> slots[..] == old(slots[..])
    {
      var found := FindBudgetBucketSlot(k);
      if found.None? {
        return Ok(None);
      }
      var outcome := callback(slots[found.value].bucket);
      if outcome.Err? {
        return Err(outcome.error);
      }
      Overwrite(found.value, outcome.value.0);
      r := Ok(Some(outcome.value.1));
    }

    method PerformInPlace(o: KeyedOp) returns (r: Result<Reply, Error>)
      requires Valid()
      modifies this, slots
      ensures Valid()
      ensures (View, r) == Perform(old(View), slots.Length, o)
    {
      if Creates(o.op) {
        r := ApplyInPlace(o.key, InitialBucket(o.op.policy, o.op.now), b => RunOp(b, o.op));
      } else {
        var existing := WithExistingInPlace(o.key, b => RunOp(b, o.op));
        match existing {
          case Err(e) => r := Err(e);
          case Ok(Some(reply)) => r := Ok(reply);
          case Ok(None) =>
            if o.op.ShadowOp? {
              var initial := InitialBucket(o.op.policy, o.op.now);
              r := Ok(Decided(AdmitShadow(initial, o.op.policy, o.op.predicted, o.op.now).1));
            } else {
              r := Ok(Missing);
            }
        }
      }
    }
  }
}
