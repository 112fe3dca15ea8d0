// What each operation on the table answers and leaves behind, told from the bucket it finds
// (src/budget.rs:109-194 and 251-276, src/shmem/transactions.rs:49-74).
module Replies {
  import opened Numbers
  import opened Wrappers
  import opened Budget
  import opened BucketTable

  // The bucket an operation finds: its own, or a full one that was opened just now.
  function Found(m: Buckets, k: Key, p: Policy, now: EpochMillis): Bucket {
    if k in m then m[k] else Bucket(p.burst, p.burst, p.rate, now, 0)
  }

  function FoundBalance(m: Buckets, k: Key, p: Policy, now: EpochMillis): WalBytes {
    Balance(Found(m, k, p, now), p, now)
  }

  // The bucket under its policy with this balance left: the timestamp moves exactly if time earned
  // something, and the debt stays.
  function Left(b: Bucket, p: Policy, now: EpochMillis, available: WalBytes): Bucket {
    Bucket(available, p.burst, p.rate, if Earned(p.rate, b.lastRefill, now) == 0 then b.lastRefill else now, b.debt)
  }

  predicate HasRoom(m: Buckets, capacity: nat, k: Key) {
    k in m || |m| < capacity
  }

  // Refreshing a bucket leaves its balance.
  lemma RefreshLeaves(b: Bucket, p: Policy, now: EpochMillis)
    ensures Refresh(b, p, now) == Left(b, p, now, Balance(b, p, now))
  {
    RefreshIsExact(b, p, now);
  }

  // Reject mode charges what the balance covers, and otherwise names the balance and changes nothing.
  lemma RejectReply(m: Buckets, capacity: nat, k: Key, p: Policy, predicted: WalBytes, now: EpochMillis)
    requires HasRoom(m, capacity, k)
    ensures var (m', r) := Perform(m, capacity, KeyedOp(k, RejectOp(p, predicted, now)));
      var balance := FoundBalance(m, k, p, now);
      if predicted <= balance then
        && m' == m[k := Left(Found(m, k, p, now), p, now, balance - predicted)]
        && r == Ok(Decided(Decision(Allowed, Some(p.id), predicted, balance, balance - predicted, BudgetAvailable)))
      else m' == m && r == Err(BudgetExceeded(p.id, predicted, balance))
  {
    var b := Found(m, k, p, now);
    RefreshLeaves(b, p, now);
    ChargesAreExact(b, p, predicted, now);
  }

  // Queue mode charges what the balance covers; otherwise it leaves the refreshed bucket and names the
  // least wait that earns the deficit, or fails on a zero rate and changes nothing.
  lemma QueueReply(m: Buckets, capacity: nat, k: Key, p: Policy, predicted: WalBytes, now: EpochMillis)
    requires HasRoom(m, capacity, k)
    ensures var (m', r) := Perform(m, capacity, KeyedOp(k, QueueOp(p, predicted, now)));
      var (b, balance) := (Found(m, k, p, now), FoundBalance(m, k, p, now));
      if predicted <= balance then
        && m' == m[k := Left(b, p, now, balance - predicted)]
        && r == Ok(Decided(Decision(Allowed, Some(p.id), predicted, balance, balance - predicted, BudgetAvailable)))
      else if p.rate == 0 then m' == m && r == Err(ZeroRate)
      else
        && m' == m[k := Left(b, p, now, balance)]
        && r.Ok? && r.value.MustWait? && LeastWait(predicted - balance, p.rate, r.value.waitMs)
  {
    var b := Found(m, k, p, now);
    RefreshLeaves(b, p, now);
    ChargesAreExact(b, p, predicted, now);
    if predicted > FoundBalance(m, k, p, now) && p.rate > 0 {
      WaitIsLeast(predicted - FoundBalance(m, k, p, now), p.rate);
    }
  }

  // The wait earns the deficit and no shorter one does; it is cut off at the top of the clock's range.
  ghost predicate LeastWait(deficit: nat, rate: nat, wait: EpochMillis) {
    && (wait < U64_MAX ==> 1000 * deficit <= rate * wait)
    && forall w: nat {:trigger rate * w} :: w < wait ==> rate * w < 1000 * deficit
  }

  lemma WaitIsLeast(deficit: WalBytes, rate: WalBytes)
    requires deficit > 0 && rate > 0
    ensures var w := WaitMsForDeficit(deficit, rate);
      w.Ok? && LeastWait(deficit, rate, w.value)
  {
    CeilDivBounds(deficit * 1000, rate);
  }

  // Shadow mode answers from the bucket it finds, charges nothing, and opens no bucket.
  lemma ShadowReply(m: Buckets, capacity: nat, k: Key, p: Policy, predicted: WalBytes, now: EpochMillis)
    ensures var (m', r) := Perform(m, capacity, KeyedOp(k, ShadowOp(p, predicted, now)));
      var (b, balance) := (Found(m, k, p, now), FoundBalance(m, k, p, now));
      && m' == (if k in m then m[k := Left(b, p, now, balance)] else m)
      && r == Ok(Decided(
           if predicted <= balance then Decision(Allowed, Some(p.id), 0, balance, balance, ShadowMode)
           else Decision(WouldReject, Some(p.id), predicted, balance, balance, OverBudget)))
  {
    var b := Found(m, k, p, now);
    RefreshLeaves(b, p, now);
    ShadowOnlyReports(b, p, predicted, now);
    ChargesAreExact(b, p, predicted, now);
  }

  // A scope that only shadow mode has touched is always answered as full.
  lemma FirstShadowReply(m: Buckets, capacity: nat, k: Key, p: Policy, predicted: WalBytes, now: EpochMillis)
    requires k !in m
    ensures var (m', r) := Perform(m, capacity, KeyedOp(k, ShadowOp(p, predicted, now)));
      && m' == m && r.Ok? && r.value.Decided?
      && r.value.decision.before == r.value.decision.after == p.burst
      && (r.value.decision.kind == Allowed <==> predicted <= p.burst)
  {
    ShadowReply(m, capacity, k, p, predicted, now);
  }

  // With no room for a new bucket the operations that create one fail and change nothing.
  lemma FullTableReply(m: Buckets, capacity: nat, o: KeyedOp)
    requires !HasRoom(m, capacity, o.key) && (o.op.RejectOp? || o.op.QueueOp?)
    ensures Perform(m, capacity, o) == (m, Err(CapacityExhausted))
  {
  }

  // Refunds and debts reach an existing bucket only, and leave everything else of it alone.
  lemma SettlementReplies(m: Buckets, capacity: nat, k: Key, bytes: WalBytes)
    ensures k !in m ==>
      && Perform(m, capacity, KeyedOp(k, RefundOp(bytes))) == (m, Ok(Missing))
      && Perform(m, capacity, KeyedOp(k, DebtOp(bytes))) == (m, Ok(Missing))
    ensures k in m && WithinBurst(m[k]) ==>
      && Perform(m, capacity, KeyedOp(k, RefundOp(bytes)))
         == (m[k := m[k].(available := Min(m[k].available + bytes, m[k].maxBurst))], Ok(Done))
      && Perform(m, capacity, KeyedOp(k, DebtOp(bytes)))
         == (m[k := m[k].(debt := Min(m[k].debt + bytes, U64_MAX))], Ok(Done))
  {
  }
}
