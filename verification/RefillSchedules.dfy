// Refresh schedules compared: how often a bucket is polled neither creates budget nor starves it
// (src/budget.rs, `refresh_bucket` and `refill_available_bytes`).
module RefillSchedules {
  import opened Numbers
  import opened Budget

  // The bucket after refreshing at each time of `times`, in order.
  function RefreshAll(b: Bucket, p: Policy, times: seq<EpochMillis>): Bucket {
    if times == [] then b
    else Refresh(RefreshAll(b, p, times[..|times| - 1]), p, times[|times| - 1])
  }

  // How many of those refreshes moved the refill timestamp.
  function Moves(b: Bucket, p: Policy, times: seq<EpochMillis>): nat {
    if times == [] then 0
    else
      var earlier := times[..|times| - 1];
      var before := RefreshAll(b, p, earlier);
      Moves(b, p, earlier)
      + if Refresh(before, p, times[|times| - 1]).lastRefill != before.lastRefill then 1 else 0
  }

  // `latest` is the last moment of the schedule, wherever it stands in the order.
  ghost predicate LatestOf(times: seq<EpochMillis>, latest: EpochMillis) {
    latest in times && forall t :: t in times ==> t <= latest
  }

  lemma EarnedBounds(rate: nat, last: nat, now: nat)
    requires last <= now
    ensures 1000 * Earned(rate, last, now) <= rate * (now - last)
    ensures rate * (now - last) <= 1000 * Earned(rate, last, now) + 999
  {
    var x := rate * (now - last);
    assert x >= 0;
    if now == last {
      assert x == 0;
    }
  }

  lemma RateSplits(rate: nat, a: int, b: int, c: int)
    ensures rate * (c - a) == rate * (b - a) + rate * (c - b)
  {
  }

  // What one schedule has gained: never more than the rate allows for the time its timestamp moved
  // over, and short of that by less than a byte a move, and by at most half, unless it is full.
  ghost predicate GainBetween(b: Bucket, p: Policy, c: Bucket, moves: nat) {
    var start := Min(b.available, p.burst);
    var owed := p.rate * (c.lastRefill - b.lastRefill);
    && b.lastRefill <= c.lastRefill
    && start <= c.available <= p.burst
    && 1000 * (c.available - start) <= owed
    && (c.available < p.burst ==> owed <= 1000 * (c.available - start) + 999 * moves)
    && (c.available < p.burst ==> owed <= 2000 * (c.available - start))
  }

  lemma OneMoreRefresh(b: Bucket, p: Policy, c: Bucket, moves: nat, now: EpochMillis)
    requires GainBetween(b, p, c, moves)
    ensures var d := Refresh(c, p, now);
      GainBetween(b, p, d, moves + if d.lastRefill != c.lastRefill then 1 else 0)
  {
    RefreshIsExact(c, p, now);
    if now > c.lastRefill {
      EarnedBounds(p.rate, c.lastRefill, now);
      RateSplits(p.rate, b.lastRefill, c.lastRefill, now);
    }
  }

  lemma {:induction false} ScheduleGain(b: Bucket, p: Policy, times: seq<EpochMillis>)
    requires times != [] || b.available <= p.burst
    ensures GainBetween(b, p, RefreshAll(b, p, times), Moves(b, p, times))
  {
    if |times| == 0 {
    } else if |times| == 1 {
      var clamped := b.(available := Min(b.available, p.burst));
      OneMoreRefresh(clamped, p, clamped, 0, times[0]);
      RefreshIsExact(b, p, times[0]);
      RefreshIsExact(clamped, p, times[0]);
      assert RefreshAll(b, p, times[..0]) == b;
      assert Moves(b, p, times[..0]) == 0;
    } else {
      var earlier := times[..|times| - 1];
      ScheduleGain(b, p, earlier);
      OneMoreRefresh(b, p, RefreshAll(b, p, earlier), Moves(b, p, earlier), times[|times| - 1]);
    }
  }

  lemma EarnedShrinks(rate: nat, a: nat, b: nat, t: nat)
    requires a <= b
    ensures Earned(rate, b, t) <= Earned(rate, a, t)
  {
    if b < t {
      MulMonoRight(rate, t - b, t - a);
      DivMono(rate * (t - b), rate * (t - a));
    }
  }

  lemma DivMono(x: nat, y: nat)
    requires x <= y
    ensures x / 1000 <= y / 1000
  {
  }

  lemma {:induction false} TimestampStaysBelow(b: Bucket, p: Policy, times: seq<EpochMillis>, latest: EpochMillis)
    requires forall s :: s in times ==> s <= latest
    ensures RefreshAll(b, p, times).lastRefill <= Max(b.lastRefill, latest)
  {
    if times != [] {
      var earlier, now := times[..|times| - 1], times[|times| - 1];
      forall s | s in earlier ensures s <= latest {
        assert s in times;
      }
      TimestampStaysBelow(b, p, earlier, latest);
      RefreshIsExact(RefreshAll(b, p, earlier), p, now);
      assert now in times;
    }
  }

  // Once a time has been polled, what it could still earn is less than one byte.
  lemma {:induction false} NothingLeftBehind(b: Bucket, p: Policy, times: seq<EpochMillis>, t: EpochMillis)
    requires t in times
    ensures Earned(p.rate, RefreshAll(b, p, times).lastRefill, t) == 0
  {
    var earlier, now := times[..|times| - 1], times[|times| - 1];
    var c := RefreshAll(b, p, earlier);
    RefreshIsExact(c, p, now);
    if t != now {
      assert t in earlier;
      NothingLeftBehind(b, p, earlier, t);
      if c.lastRefill < now {
        EarnedShrinks(p.rate, c.lastRefill, now, t);
      }
    }
  }

  lemma GainAtMostEarned(b: Bucket, p: Policy, c: Bucket, moves: nat, latest: EpochMillis)
    requires GainBetween(b, p, c, moves)
    requires c.lastRefill <= Max(b.lastRefill, latest)
    ensures c.available - Min(b.available, p.burst) <= Earned(p.rate, b.lastRefill, latest)
  {
    if b.lastRefill <= latest {
      EarnedBounds(p.rate, b.lastRefill, latest);
      MulMonoRight(p.rate, c.lastRefill - b.lastRefill, latest - b.lastRefill);
    } else {
      assert c.lastRefill == b.lastRefill;
    }
  }

  // Polling more often never gains more than one refresh at the latest time does.
  lemma PollingNeverGainsMore(b: Bucket, p: Policy, times: seq<EpochMillis>, latest: EpochMillis)
    requires times != [] && forall t :: t in times ==> t <= latest
    ensures RefreshAll(b, p, times).available <= Refresh(b, p, latest).available
  {
    ScheduleGain(b, p, times);
    TimestampStaysBelow(b, p, times, latest);
    GainAtMostEarned(b, p, RefreshAll(b, p, times), Moves(b, p, times), latest);
    RefreshIsExact(b, p, latest);
  }

  // It falls short of that single refresh by at most one byte for each refresh that moved.
  lemma PollingShortfall(b: Bucket, p: Policy, times: seq<EpochMillis>, latest: EpochMillis)
    requires LatestOf(times, latest)
    ensures Refresh(b, p, latest).available - RefreshAll(b, p, times).available <= Moves(b, p, times)
  {
    var c := RefreshAll(b, p, times);
    ScheduleGain(b, p, times);
    NothingLeftBehind(b, p, times, latest);
    TimestampStaysBelow(b, p, times, latest);
    RefreshIsExact(b, p, latest);
    if b.lastRefill < latest && c.available < p.burst {
      EarnedBounds(p.rate, b.lastRefill, latest);
      EarnedBounds(p.rate, c.lastRefill, latest);
      RateSplits(p.rate, b.lastRefill, c.lastRefill, latest);
    }
  }

  // Until the clamp bites, any schedule keeps at least half of the rate over the time its timestamp
  // moved, so polling cannot starve a bucket.
  lemma PollingKeepsHalf(b: Bucket, p: Policy, times: seq<EpochMillis>)
    requires times != []
    ensures var c := RefreshAll(b, p, times);
      c.available == p.burst
      || p.rate * (c.lastRefill - b.lastRefill) <= 2000 * (c.available - Min(b.available, p.burst))
  {
    ScheduleGain(b, p, times);
  }
}
