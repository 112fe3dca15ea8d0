// The wait a queued statement is told to sleep (src/budget.rs, `try_charge`, `wait_ms_for_deficit`).
module QueueWait {
  import opened Numbers
  import opened Wrappers
  import opened Budget

  // The attempt at `now` was told to wait `w` and left the bucket `c` behind.
  ghost predicate Waits(b: Bucket, p: Policy, predicted: WalBytes, now: EpochMillis, c: Bucket, w: EpochMillis) {
    AttemptQueueCharge(b, p, predicted, now) == Ok((c, WouldWait(w)))
  }

  // The wait was not cut off at the top of the 64-bit range.
  ghost predicate WaitFits(p: Policy, predicted: WalBytes, c: Bucket) {
    && p.rate > 0
    && predicted >= c.available
    && CeilDiv((predicted - c.available) * 1000, p.rate) <= U64_MAX
  }

  ghost predicate AdmitsAt(c: Bucket, p: Policy, predicted: WalBytes, at: EpochMillis) {
    var attempt := AttemptQueueCharge(c, p, predicted, at);
    attempt.Ok? && attempt.value.1.Admitted?
  }

  lemma EarnsDeficitIffWaited(rate: nat, last: nat, at: nat, deficit: nat)
    requires rate > 0 && deficit > 0
    ensures Earned(rate, last, at) >= deficit <==> at >= last + CeilDiv(deficit * 1000, rate)
  {
    var w := CeilDiv(deficit * 1000, rate);
    CeilDivBounds(deficit * 1000, rate);
    if at >= last + w {
      assert w > 0;
      MulMonoRight(rate, w, at - last);
    } else if at > last {
      assert rate * (at - last) < deficit * 1000;
    }
  }

  // Retrying with the bucket untouched admits exactly from `wait` after the refill timestamp on.
  lemma RetryAdmitsIffWaited(b: Bucket, p: Policy, predicted: WalBytes, now: EpochMillis,
                             c: Bucket, w: EpochMillis, at: EpochMillis)
    requires Waits(b, p, predicted, now, c, w)
    requires predicted <= p.burst && WaitFits(p, predicted, c)
    ensures AdmitsAt(c, p, predicted, at) <==> at >= c.lastRefill + w
  {
    RefreshIsExact(b, p, now);
    RefreshIsExact(c, p, at);
    EarnsDeficitIffWaited(p.rate, c.lastRefill, at, predicted - c.available);
  }

  // Sleeping the whole wait from `now` is enough exactly when the refill timestamp is not ahead of
  // this session's clock, and when the timestamp is `now`, no shorter sleep is enough.
  lemma WaitSufficientAndTight(b: Bucket, p: Policy, predicted: WalBytes, now: EpochMillis,
                               c: Bucket, w: EpochMillis)
    requires Waits(b, p, predicted, now, c, w)
    requires predicted <= p.burst && WaitFits(p, predicted, c)
    requires now + w <= U64_MAX
    ensures AdmitsAt(c, p, predicted, now + w) <==> c.lastRefill <= now
    ensures c.lastRefill == now ==>
      forall at: EpochMillis {:trigger AdmitsAt(c, p, predicted, at)} ::
        now <= at < now + w ==> !AdmitsAt(c, p, predicted, at)
  {
    RetryAdmitsIffWaited(b, p, predicted, now, c, w, now + w);
    forall at: EpochMillis | now <= at < now + w && c.lastRefill == now
      ensures !AdmitsAt(c, p, predicted, at)
    {
      RetryAdmitsIffWaited(b, p, predicted, now, c, w, at);
    }
  }

  // A waiting attempt charges nothing: what it leaves is the refreshed bucket, debt untouched, and a
  // statement that can ever fit is told to wait, not refused, exactly when the rate is positive.
  lemma WaitingChargesNothing(b: Bucket, p: Policy, predicted: WalBytes, now: EpochMillis)
    requires !AdmitsAt(b, p, predicted, now)
    ensures AttemptQueueCharge(b, p, predicted, now).Ok? <==> p.rate > 0
    ensures forall c, w :: Waits(b, p, predicted, now, c, w) ==>
      && c.available == Min(Min(b.available, p.burst) + Earned(p.rate, b.lastRefill, now), p.burst)
      && c.debt == b.debt && 0 < w
  {
    RefreshIsExact(b, p, now);
    var c := Refresh(b, p, now);
    if p.rate > 0 {
      CeilDivBounds((predicted - c.available) * 1000, p.rate);
    }
  }
}
