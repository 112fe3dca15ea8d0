// One token bucket: refill, clamp, charge, refund, debt, and the queue wait (src/budget.rs).
//
// The bucket's value is the datatype `Bucket`; the functions on it say what each operation does.
// The class `BudgetBucketState` updates the same fields in place, and each of its methods is proved
// against the function of the same purpose.
module Budget {
  import opened Numbers
  import opened Wrappers

  datatype BudgetMode = Off | Observe | Shadow | Reject | Queue

  datatype Policy = Policy(id: PolicyId, enabled: bool, mode: BudgetMode, rate: WalBytes, burst: WalBytes)

  const I64_MAX: int := 0x7FFF_FFFF_FFFF_FFFF

  // What creating, updating and loading a policy all check (src/policy.rs:247-267).
  predicate ValidPolicy(p: Policy) {
    0 < p.rate <= p.burst <= I64_MAX
  }

  datatype Bucket = Bucket(
    available: WalBytes, maxBurst: WalBytes, rate: WalBytes, lastRefill: EpochMillis, debt: WalBytes)

  datatype Error =
    | BudgetExceeded(policyId: PolicyId, predicted: WalBytes, available: WalBytes)
    | ZeroRate
    | CapacityExhausted

  datatype DecisionKind =
    | Allowed | WouldReject | Rejected | NoMatchingPolicy | MissingScope | InternalErrorFailOpen

  datatype ReasonCode =
    | PolicyDisabled | PolicyMatched | BudgetAvailable | OverBudget | ObserveMode | ShadowMode
    | NoPolicy | NoScope | PredictionUnavailable | FailedOpen

  datatype Decision = Decision(
    kind: DecisionKind, policyId: Option<PolicyId>, charged: WalBytes,
    before: WalBytes, after: WalBytes, reason: ReasonCode)

  function InitialBucket(p: Policy, now: EpochMillis): Bucket {
    Bucket(p.burst, p.burst, p.rate, now, 0)
  }

  // ----- Refill -----

  datatype Refill = Refill(available: WalBytes, lastRefill: EpochMillis)

  function RefillAvailable(available: WalBytes, maxBurst: WalBytes, rate: WalBytes,
                           lastRefill: EpochMillis, now: EpochMillis): Refill
  {
    if now <= lastRefill then
      Refill(available, lastRefill)
    else
      var elapsed := now - lastRefill;
      ProductFits(rate, elapsed);
      var product: U128 := rate * elapsed;
      var refill := SaturateToU64(product / 1000);
      if refill == 0 then
        Refill(available, lastRefill)
      else
        Refill(Min(SaturatingAdd(available, refill), maxBurst), now)
  }

  function ApplyPolicy(b: Bucket, p: Policy): Bucket {
    b.(maxBurst := p.burst, rate := p.rate, available := Min(b.available, p.burst))
  }

  function Refresh(b: Bucket, p: Policy, now: EpochMillis): Bucket {
    var c := ApplyPolicy(b, p);
    var r := RefillAvailable(c.available, c.maxBurst, c.rate, c.lastRefill, now);
    c.(available := r.available, lastRefill := r.lastRefill)
  }

  // What the elapsed time is worth, without any 64-bit saturation.
  function Earned(rate: nat, lastRefill: nat, now: nat): nat {
    if now <= lastRefill then 0 else rate * (now - lastRefill) / 1000
  }

  predicate WithinBurst(b: Bucket) {
    b.available <= b.maxBurst
  }

  // The two saturating steps of a refill are invisible: a refresh adds exactly the earned bytes,
  // clamps once, and moves the timestamp exactly when it earned something.
  lemma RefreshIsExact(b: Bucket, p: Policy, now: EpochMillis)
    ensures Refresh(b, p, now).available
         == Min(Min(b.available, p.burst) + Earned(p.rate, b.lastRefill, now), p.burst)
    ensures Refresh(b, p, now).lastRefill
         == if Earned(p.rate, b.lastRefill, now) == 0 then b.lastRefill else now
    ensures WithinBurst(Refresh(b, p, now))
  {
    if now > b.lastRefill {
      var elapsed := now - b.lastRefill;
      ProductFits(p.rate, elapsed);
      assert p.rate * elapsed / 1000 >= 0;
    }
  }

  // ----- Queue wait -----

  function CeilDiv(a: nat, b: nat): nat
    requires b > 0
  {
    (a + b - 1) / b
  }

  function WaitMsForDeficit(deficit: WalBytes, rate: WalBytes): Result<EpochMillis, Error> {
    if deficit == 0 then
      Ok(0)
    else if rate == 0 then
      Err(ZeroRate)
    else
      CeilDivBounds(deficit * 1000, rate);
      Ok(SaturateToU64(CeilDiv(deficit * 1000, rate)))
  }

  // `CeilDiv(a, b)` is the least count of `b`s that covers `a`.
  lemma CeilDivBounds(a: nat, b: nat)
    requires b > 0
    ensures b * CeilDiv(a, b) >= a
    ensures forall q: nat :: q < CeilDiv(a, b) ==> b * q < a
    ensures CeilDiv(a, b) <= a
    ensures a > 0 ==> CeilDiv(a, b) > 0
  {
    var c := CeilDiv(a, b);
    DivBounds(a + b - 1, b);
    forall q: nat | q < c ensures b * q < a {
      MulMonoRight(b, q, c - 1);
      assert b * (c - 1) == b * c - b;
    }
    MulMono(1, b, a);
  }

  lemma DivBounds(x: nat, b: nat)
    requires b > 0
    ensures b * (x / b) <= x < b * (x / b) + b
  {
  }

  // ----- Operations on one bucket -----

  datatype Attempt = Admitted(decision: Decision) | WouldWait(waitMs: EpochMillis)

  function AllowedDecision(id: PolicyId, charged: WalBytes, reason: ReasonCode,
                           before: WalBytes, after: WalBytes): Decision
  {
    Decision(Allowed, Some(id), charged, before, after, reason)
  }

  function Charge(b: Bucket, predicted: WalBytes): Bucket
    requires predicted <= b.available
  {
    b.(available := b.available - predicted)
  }

  function Exceeded(p: Policy, predicted: WalBytes, available: WalBytes): Error {
    BudgetExceeded(p.id, predicted, available)
  }

  // Reject mode charges or fails; the caller discards the bucket of a failure.
  function AdmitReject(b: Bucket, p: Policy, predicted: WalBytes, now: EpochMillis)
    : Result<(Bucket, Decision), Error>
  {
    var c := Refresh(b, p, now);
    if predicted <= c.available then
      var d := Charge(c, predicted);
      Ok((d, AllowedDecision(p.id, predicted, BudgetAvailable, c.available, d.available)))
    else
      Err(Exceeded(p, predicted, c.available))
  }

  // Queue mode charges, or keeps the refreshed bucket and names a wait, or fails on a zero rate.
  function AttemptQueueCharge(b: Bucket, p: Policy, predicted: WalBytes, now: EpochMillis)
    : Result<(Bucket, Attempt), Error>
  {
    var c := Refresh(b, p, now);
    if predicted <= c.available then
      var d := Charge(c, predicted);
      Ok((d, Admitted(AllowedDecision(p.id, predicted, BudgetAvailable, c.available, d.available))))
    else
      var wait :- WaitMsForDeficit(predicted - c.available, c.rate);
      Ok((c, WouldWait(wait)))
  }

  // Shadow mode refreshes and only reports.
  function AdmitShadow(b: Bucket, p: Policy, predicted: WalBytes, now: EpochMillis): (Bucket, Decision) {
    var c := Refresh(b, p, now);
    if predicted <= c.available then
      (c, AllowedDecision(p.id, 0, ShadowMode, c.available, c.available))
    else
      (c, Decision(WouldReject, Some(p.id), predicted, c.available, c.available, OverBudget))
  }

  function RefundCharge(b: Bucket, bytes: WalBytes): Bucket {
    b.(available := Min(SaturatingAdd(b.available, bytes), b.maxBurst))
  }

  function RecordDebt(b: Bucket, bytes: WalBytes): Bucket {
    b.(debt := SaturatingAdd(b.debt, bytes))
  }

  // The balance a decision is taken on: what is left of the old balance under the policy's burst, and
  // what the elapsed time earned.
  function Balance(b: Bucket, p: Policy, now: EpochMillis): nat {
    Min(Min(b.available, p.burst) + Earned(p.rate, b.lastRefill, now), p.burst)
  }

  // Reject and queue mode admit exactly what the balance covers, take exactly the prediction, report
  // the balance before and after, and leave the debt alone; a refusal reports the balance it found.
  lemma ChargesAreExact(b: Bucket, p: Policy, predicted: WalBytes, now: EpochMillis)
    ensures var r := AdmitReject(b, p, predicted, now);
      if predicted <= Balance(b, p, now) then
        && r.Ok?
        && var (c, d) := r.value;
        && d == Decision(Allowed, Some(p.id), predicted, Balance(b, p, now), c.available, BudgetAvailable)
        && c.available + predicted == Balance(b, p, now)
        && c.maxBurst == p.burst && c.rate == p.rate && c.debt == b.debt
        && AttemptQueueCharge(b, p, predicted, now) == Ok((c, Admitted(d)))
      else r == Err(BudgetExceeded(p.id, predicted, Balance(b, p, now)))
  {
    RefreshIsExact(b, p, now);
  }

  // Shadow mode takes nothing: it leaves the refreshed bucket, reports the same balance twice, and says
  // whether reject mode would have admitted.
  lemma ShadowOnlyReports(b: Bucket, p: Policy, predicted: WalBytes, now: EpochMillis)
    ensures var (c, d) := AdmitShadow(b, p, predicted, now);
      && c.available == d.before == d.after == Balance(b, p, now) && c.debt == b.debt
      && (d.kind == Allowed <==> AdmitReject(b, p, predicted, now).Ok?)
      && d.policyId == Some(p.id)
      && (d.kind == Allowed ==> d.charged == 0 && d.reason == ShadowMode)
      && (d.kind != Allowed ==> d.kind == WouldReject && d.charged == predicted && d.reason == OverBudget)
  {
    RefreshIsExact(b, p, now);
  }

  // A refund cancels the charge it answers, up to the burst: charging and refunding in full restores
  // the balance.
  lemma RefundUndoesCharge(b: Bucket, p: Policy, predicted: WalBytes, now: EpochMillis)
    requires AdmitReject(b, p, predicted, now).Ok?
    ensures RefundCharge(AdmitReject(b, p, predicted, now).value.0, predicted) == Refresh(b, p, now)
  {
    RefreshIsExact(b, p, now);
  }

  // ----- The bucket updated in place -----

  class BudgetBucketState {
    var available: WalBytes
    var maxBurst: WalBytes
    var rate: WalBytes
    var lastRefill: EpochMillis
    var debt: WalBytes

    function Value(): Bucket
      reads this
    {
      Bucket(available, maxBurst, rate, lastRefill, debt)
    }

    constructor (b: Bucket)
      ensures Value() == b
    {
      available, maxBurst, rate, lastRefill, debt :=
        b.available, b.maxBurst, b.rate, b.lastRefill, b.debt;
    }

    method RefreshPolicy(p: Policy)
      modifies this
      ensures Value() == ApplyPolicy(old(Value()), p)
    {
      maxBurst := p.burst;
      rate := p.rate;
      available := Min(available, maxBurst);
    }

    method RefreshBucket(p: Policy, now: EpochMillis) returns (before: WalBytes)
      modifies this
      ensures Value() == Refresh(old(Value()), p, now)
      ensures before == available
    {
      RefreshPolicy(p);
      var refilled := RefillAvailable(available, maxBurst, rate, lastRefill, now);
      available := refilled.available;
      lastRefill := refilled.lastRefill;
      before := available;
    }

    method TryCharge(id: PolicyId, predicted: WalBytes, before: WalBytes)
      returns (r: Result<Attempt, Error>)
      requires before == available
      modifies this
      ensures predicted <= before ==>
        && Value() == Charge(old(Value()), predicted)
        && r == Ok(Admitted(AllowedDecision(id, predicted, BudgetAvailable, before, before - predicted)))
      ensures predicted > before ==>
        && Value() == old(Value())
        && var w := WaitMsForDeficit(predicted - before, rate);
        && r == if w.Ok? then Ok(WouldWait(w.value)) else Err(w.error)
    {
      if predicted > before {
        var wait := WaitMsForDeficit(predicted - before, rate);
        r := if wait.Ok? then Ok(WouldWait(wait.value)) else Err(wait.error);
        return;
      }
      available := before - predicted;
      r := Ok(Admitted(AllowedDecision(id, predicted, BudgetAvailable, before, available)));
    }

    method AdmitRejectInPlace(p: Policy, predicted: WalBytes, now: EpochMillis)
      returns (r: Result<Decision, Error>)
      modifies this
      ensures var spec := AdmitReject(old(Value()), p, predicted, now);
        && (spec.Ok? ==> r == Ok(spec.value.1) && Value() == spec.value.0)
        && (spec.Err? ==> r == Err(spec.error))
    {
      var before := RefreshBucket(p, now);
      if predicted > before {
        return Err(Exceeded(p, predicted, before));
      }
      available := before - predicted;
      r := Ok(AllowedDecision(p.id, predicted, BudgetAvailable, before, available));
    }

    method AttemptQueueChargeInPlace(p: Policy, predicted: WalBytes, now: EpochMillis)
      returns (r: Result<Attempt, Error>)
      modifies this
      ensures var spec := AttemptQueueCharge(old(Value()), p, predicted, now);
        && (spec.Ok? ==> r == Ok(spec.value.1) && Value() == spec.value.0)
        && (spec.Err? ==> r == Err(spec.error))
    {
      var before := RefreshBucket(p, now);
      r := TryCharge(p.id, predicted, before);
    }

    method AdmitShadowInPlace(p: Policy, predicted: WalBytes, now: EpochMillis) returns (d: Decision)
      modifies this
      ensures (Value(), d) == AdmitShadow(old(Value()), p, predicted, now)
    {
      var before := RefreshBucket(p, now);
      if predicted <= before {
        d := AllowedDecision(p.id, 0, ShadowMode, before, available);
      } else {
        d := Decision(WouldReject, Some(p.id), predicted, before, available, OverBudget);
      }
    }

    method RefundInPlace(bytes: WalBytes)
      modifies this
      ensures Value() == RefundCharge(old(Value()), bytes)
    {
      available := Min(SaturatingAdd(available, bytes), maxBurst);
    }

    method RecordDebtInPlace(bytes: WalBytes)
      modifies this
      ensures Value() == RecordDebt(old(Value()), bytes)
    {
      debt := SaturatingAdd(debt, bytes);
    }
  }
}
