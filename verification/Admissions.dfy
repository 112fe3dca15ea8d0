// What an admission decides in each mode, told from the bucket it finds, and whether the statement's
// call starts (src/budget.rs:39-71 and 109-276, src/admission.rs:95-130, src/lifecycle.rs:22-64 and
// 155-225).
module Admissions {
  import opened Numbers
  import opened Wrappers
  import opened Budget
  import opened BucketTable
  import opened Replies
  import opened Lifecycle
  import opened Reconcile
  import opened Ledger

  // ----- The law of each mode -----

  lemma NoPolicyLaw(m: Buckets, capacity: nat, scope: ScopeHash, predicted: WalBytes, now: EpochMillis)
    ensures Admit(m, capacity, None, scope, predicted, now)
         == Passed(Decision(DecisionKind.NoMatchingPolicy, None, 0, 0, 0, NoPolicy))
    ensures AdmissionOp(None, scope, predicted, now).None?
  {
  }

  // A disabled policy, and the modes off and observe, let every statement pass and touch nothing.
  lemma UnenforcedLaw(m: Buckets, capacity: nat, p: Policy, scope: ScopeHash, predicted: WalBytes, now: EpochMillis)
    requires !p.enabled || p.mode == Off || p.mode == Observe
    ensures Admit(m, capacity, Some(p), scope, predicted, now)
         == Passed(Decision(Allowed, Some(p.id), 0, 0, 0,
                            if p.enabled && p.mode == Observe then ObserveMode else PolicyDisabled))
    ensures AdmissionOp(Some(p), scope, predicted, now).None?
  {
  }

  // What an admission leaves of the table.
  function TableAfter(m: Buckets, capacity: nat, p: Policy, scope: ScopeHash, predicted: WalBytes, now: EpochMillis)
    : Buckets
  {
    PerformMaybe(m, capacity, AdmissionOp(Some(p), scope, predicted, now))
  }

  // Reject mode refuses exactly what the balance does not cover, and takes exactly the prediction.
  lemma RejectLaw(m: Buckets, capacity: nat, p: Policy, scope: ScopeHash, predicted: WalBytes, now: EpochMillis)
    requires p.enabled && p.mode == BudgetMode.Reject && HasRoom(m, capacity, Key(p.id, scope))
    ensures var k := Key(p.id, scope);
      var (a, m', balance) := (Admit(m, capacity, Some(p), scope, predicted, now),
                               TableAfter(m, capacity, p, scope, predicted, now), FoundBalance(m, k, p, now));
      if predicted > balance then a == Rejection && m' == m
      else
        && a == Passed(Decision(Allowed, Some(p.id), predicted, balance, balance - predicted, BudgetAvailable))
        && m' == m[k := Left(Found(m, k, p, now), p, now, balance - predicted)]
  {
    RejectReply(m, capacity, Key(p.id, scope), p, predicted, now);
  }

  // Shadow mode lets every statement pass, takes nothing, and says what reject mode would have done.
  lemma ShadowLaw(m: Buckets, capacity: nat, p: Policy, scope: ScopeHash, predicted: WalBytes, now: EpochMillis)
    requires p.enabled && p.mode == BudgetMode.Shadow
    ensures var k := Key(p.id, scope);
      var (a, m', balance) := (Admit(m, capacity, Some(p), scope, predicted, now),
                               TableAfter(m, capacity, p, scope, predicted, now), FoundBalance(m, k, p, now));
      && a == Passed(if predicted <= balance then Decision(Allowed, Some(p.id), 0, balance, balance, ShadowMode)
                     else Decision(WouldReject, Some(p.id), predicted, balance, balance, OverBudget))
      && m' == (if k in m then m[k := Left(m[k], p, now, balance)] else m)
  {
    ShadowReply(m, capacity, Key(p.id, scope), p, predicted, now);
  }

  // Queue mode refuses what can never fit the burst, grants what the balance covers, and lets the rest
  // wait, which at a zero rate is an error.
  lemma QueueLaw(m: Buckets, capacity: nat, p: Policy, scope: ScopeHash, predicted: WalBytes, now: EpochMillis)
    requires p.enabled && p.mode == BudgetMode.Queue && HasRoom(m, capacity, Key(p.id, scope))
    ensures var k := Key(p.id, scope);
      var (a, m', balance) := (Admit(m, capacity, Some(p), scope, predicted, now),
                               TableAfter(m, capacity, p, scope, predicted, now), FoundBalance(m, k, p, now));
      if predicted > p.burst then a == Rejection && m' == m
      else if predicted <= balance then
        && a == Passed(Decision(Allowed, Some(p.id), predicted, balance, balance - predicted, BudgetAvailable))
        && m' == m[k := Left(Found(m, k, p, now), p, now, balance - predicted)]
      else if p.rate == 0 then a == InternalError && m' == m
      else
        && a.Waiting? && LeastWait(predicted - balance, p.rate, a.waitMs)
        && m' == m[k := Left(Found(m, k, p, now), p, now, balance)]
  {
    QueueReply(m, capacity, Key(p.id, scope), p, predicted, now);
  }

  // With no room for a new bucket the modes that charge fail, except for what can never fit the burst.
  lemma FullTableLaw(m: Buckets, capacity: nat, p: Policy, scope: ScopeHash, predicted: WalBytes, now: EpochMillis)
    requires p.enabled && (p.mode == BudgetMode.Reject || p.mode == BudgetMode.Queue)
    requires !HasRoom(m, capacity, Key(p.id, scope))
    ensures Admit(m, capacity, Some(p), scope, predicted, now)
         == if p.mode == BudgetMode.Queue && predicted > p.burst then Rejection else InternalError
    ensures TableAfter(m, capacity, p, scope, predicted, now) == m
  {
    var o := AdmissionOp(Some(p), scope, predicted, now);
    if o.Some? {
      FullTableReply(m, capacity, o.value);
    }
  }

  // ----- Whether the statement's call starts -----

  // An admission that passes starts a call that owns the statement with its decision; an internal error
  // starts one that owns nothing if and only if the controller fails open; a refusal, and a statement
  // still waiting, start none.
  lemma AdmissionStartsCall(s: System, i: nat, e: Step)
    requires i < |s.workers| && e.AdmitStatement? && s.workers[i].phase == Idle
    ensures var a := Admit(s.buckets, s.capacity, e.policy, e.scope, e.predicted, e.now);
      var (t, before) := (SystemNext(s, i, e), s.workers[i].session);
      var after := t.workers[i].session;
      && t.workers == s.workers[i := Worker(after, Idle)]
      && (a.Passed? ==>
            var st := Statement(e.id, a.decision, e.scope, e.startWal, e.predicted);
            && after.frames == before.frames + [Frame(e.hook, Some(st))]
            && after.stacks.active == before.stacks.active + [st])
      && (a == InternalError && e.failOpen ==>
            after.frames == before.frames + [Frame(e.hook, None)] && after.stacks.active == before.stacks.active)
      && (a == Rejection || a.Waiting? || (a == InternalError && !e.failOpen) ==> after == before)
  {
  }

  // A statement that a reject policy cannot pay for starts no call and leaves no trace; one it can pay
  // for runs with exactly the prediction taken.
  lemma RejectedRunsNothing(s: System, i: nat, e: Step)
    requires i < |s.workers| && e.AdmitStatement? && s.workers[i].phase == Idle
    requires e.policy.Some? && e.policy.value.enabled && e.policy.value.mode == BudgetMode.Reject
    requires HasRoom(s.buckets, s.capacity, Key(e.policy.value.id, e.scope))
    ensures var k := Key(e.policy.value.id, e.scope);
      var (t, balance) := (SystemNext(s, i, e), FoundBalance(s.buckets, k, e.policy.value, e.now));
      if e.predicted > balance then t.workers == s.workers && t.buckets == s.buckets
      else
        && |t.workers[i].session.frames| == |s.workers[i].session.frames| + 1
        && k in t.buckets && t.buckets[k].available == balance - e.predicted
  {
    RejectLaw(s.buckets, s.capacity, e.policy.value, e.scope, e.predicted, e.now);
    AdmissionStartsCall(s, i, e);
  }
}
