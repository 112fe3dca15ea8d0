// Admission decisions and their settlement against one bucket (src/admission.rs:95-130,
// src/budget.rs:39-71, src/reconcile.rs).
module Reconcile {
  import opened Numbers
  import opened Wrappers
  import opened Budget
  import opened BucketTable
  import opened Lifecycle
  import opened RateBound

  // ----- Admission -----

  datatype Admission = Passed(decision: Decision) | Waiting(waitMs: EpochMillis) | Rejection | InternalError

  // The bucket operation an admission performs, if any.
  function AdmissionOp(policy: Option<Policy>, scope: ScopeHash, predicted: WalBytes, now: EpochMillis)
    : Option<KeyedOp>
  {
    if policy.None? || !policy.value.enabled then None
    else
      var p := policy.value;
      match p.mode
      case Off => None
      case Observe => None
      case Shadow => Some(KeyedOp(Key(p.id, scope), ShadowOp(p, predicted, now)))
      case Reject => Some(KeyedOp(Key(p.id, scope), RejectOp(p, predicted, now)))
      case Queue =>
        if predicted > p.burst then None
        else Some(KeyedOp(Key(p.id, scope), QueueOp(p, predicted, now)))
  }

  function PerformMaybe(m: Buckets, capacity: nat, o: Option<KeyedOp>): Buckets {
    if o.None? then m else Perform(m, capacity, o.value).0
  }

  function Admit(m: Buckets, capacity: nat, policy: Option<Policy>, scope: ScopeHash,
                 predicted: WalBytes, now: EpochMillis): Admission
  {
    if policy.None? then
      Passed(Decision(DecisionKind.NoMatchingPolicy, None, 0, 0, 0, NoPolicy))
    else
      var p := policy.value;
      if !p.enabled || p.mode == Off then
        Passed(AllowedDecision(p.id, 0, PolicyDisabled, 0, 0))
      else if p.mode == Observe then
        Passed(AllowedDecision(p.id, 0, ObserveMode, 0, 0))
      else
        var o := AdmissionOp(policy, scope, predicted, now);
        if o.None? then Rejection
        else
          match Perform(m, capacity, o.value).1
          case Ok(Decided(d)) => Passed(d)
          case Ok(MustWait(w)) => Waiting(w)
          case Ok(_) => InternalError
          case Err(BudgetExceeded(_, _, _)) => Rejection
          case Err(_) => InternalError
  }

  // ----- The charge a settlement sees -----

  // A decision carries a byte count even where nothing was charged (a shadow rejection does), so
  // settlement looks at the kind, the count and the policy together.
  function ChargeKey(st: Statement): Option<Key> {
    if st.decision.kind != Allowed || st.decision.charged == 0 || st.decision.policyId.None? then None
    else Some(Key(st.decision.policyId.value, st.scopeHash))
  }

  function ChargeOn(st: Statement, k: Key): nat {
    if ChargeKey(st) == Some(k) then st.decision.charged else 0
  }

  function TakenBy(m: Buckets, capacity: nat, o: Option<KeyedOp>, k: Key): nat {
    if o.None? then 0 else ChargedTo(m, capacity, o.value, k)
  }

  // What settlement will treat as charged is exactly what admission took, in every mode and for every
  // bucket of the table; an attempt that does not pass has taken nothing; and the bucket of a charge
  // exists.
  lemma ChargeIsWhatWasTaken(m: Buckets, capacity: nat, policy: Option<Policy>, scope: ScopeHash,
                             predicted: WalBytes, now: EpochMillis, st: Statement, k: Key)
    requires st.scopeHash == scope
    requires var a := Admit(m, capacity, policy, scope, predicted, now); a.Passed? ==> st.decision == a.decision
    ensures TakenBy(m, capacity, AdmissionOp(policy, scope, predicted, now), k)
         == if Admit(m, capacity, policy, scope, predicted, now).Passed? then ChargeOn(st, k) else 0
    ensures Admit(m, capacity, policy, scope, predicted, now).Passed? && ChargeKey(st).Some? ==>
      ChargeKey(st).value in PerformMaybe(m, capacity, AdmissionOp(policy, scope, predicted, now))
  {
    var o := AdmissionOp(policy, scope, predicted, now);
    if o.Some? {
      StepOnBucket(m, capacity, o.value, o.value.key);
    }
  }

  // ----- Settlement -----

  datatype BudgetReconciliation = Even | Refund(bytes: WalBytes) | Debt(bytes: WalBytes)

  function Reconciliation(charged: WalBytes, actual: WalBytes): BudgetReconciliation {
    if actual < charged then Refund(charged - actual)
    else if actual > charged then Debt(actual - charged)
    else Even
  }

  function WalDelta(start: WalBytes, end: WalBytes): WalBytes {
    SaturatingSub(end, start)
  }

  function DebtBytes(st: Statement, actual: WalBytes): WalBytes {
    if ChargeKey(st).Some? then SaturatingSub(actual, st.decision.charged) else 0
  }

  // The bucket operation that settles a measured statement, and the one that undoes a charge.
  function SettleOp(st: Statement, actual: WalBytes): Option<KeyedOp> {
    if ChargeKey(st).None? then None
    else
      match Reconciliation(st.decision.charged, actual)
      case Even => None
      case Refund(bytes) => Some(KeyedOp(ChargeKey(st).value, RefundOp(bytes)))
      case Debt(bytes) => Some(KeyedOp(ChargeKey(st).value, DebtOp(bytes)))
  }

  function UndoOp(st: Statement): Option<KeyedOp> {
    if ChargeKey(st).None? then None
    else Some(KeyedOp(ChargeKey(st).value, RefundOp(st.decision.charged)))
  }

  method ReconcileBudget(table: Table, st: Statement, actual: WalBytes)
    requires table.Valid()
    modifies table, table.slots
    ensures table.Valid()
    ensures table.View == PerformMaybe(old(table.View), table.slots.Length, SettleOp(st, actual))
  {
    var k := ChargeKey(st);
    if k.None? {
      return;
    }
    match Reconciliation(st.decision.charged, actual) {
      case Even =>
      case Refund(bytes) => var _ := table.PerformInPlace(KeyedOp(k.value, RefundOp(bytes)));
      case Debt(bytes) => var _ := table.PerformInPlace(KeyedOp(k.value, DebtOp(bytes)));
    }
  }

  // `aborted` is what it adds to the count of statements aborted after their charge.
  method RecordAbortedStatement(table: Table, st: Statement) returns (aborted: nat)
    requires table.Valid()
    modifies table, table.slots
    ensures table.Valid()
    ensures table.View == PerformMaybe(old(table.View), table.slots.Length, UndoOp(st))
    ensures aborted == if ChargeKey(st).Some? then 1 else 0
  {
    var k := ChargeKey(st);
    if k.None? {
      return 0;
    }
    var _ := table.PerformInPlace(KeyedOp(k.value, RefundOp(st.decision.charged)));
    aborted := 1;
  }

  // Settling against an existing bucket gives back what was not used and records what was not paid,
  // losing only what the burst cannot hold; every other bucket stays.
  lemma SettleEffect(m: Buckets, capacity: nat, st: Statement, actual: WalBytes, k: Key)
    requires ChargeKey(st) == Some(k) && k in m && WithinBurst(m[k])
    ensures var m' := PerformMaybe(m, capacity, SettleOp(st, actual));
      var back := Excess(st.decision.charged, actual);
      && m' == m[k := m[k].(
           available := Min(m[k].available + back, m[k].maxBurst),
           debt := Min(m[k].debt + Excess(actual, st.decision.charged), U64_MAX))]
  {
    var m' := PerformMaybe(m, capacity, SettleOp(st, actual));
    assert m' == m[k := m'[k]];
  }

  lemma UndoEffect(m: Buckets, capacity: nat, st: Statement, k: Key)
    requires ChargeKey(st) == Some(k) && k in m && WithinBurst(m[k])
    ensures PerformMaybe(m, capacity, UndoOp(st))
         == m[k := m[k].(available := Min(m[k].available + st.decision.charged, m[k].maxBurst))]
  {
  }
}
