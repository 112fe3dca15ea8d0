// Queue admission: attempt, sleep, look at the clock, try again, while other sessions keep working on
// the same table (src/budget.rs:196-249), and the chunked sleep (src/time.rs:17-26).
//
// The environment is a parameter: what each sleep does, and what other sessions do during it.
module QueueLoop {
  import opened Numbers
  import opened Wrappers
  import opened Budget
  import opened BucketTable
  import opened QueueWait
  import opened RateBound

  datatype Wake = Interrupted | Woke(now: EpochMillis)

  // The outcome of the i-th sleep, begun at `now` for `waitMs`.
  type Sleeps = (nat, EpochMillis, EpochMillis) -> Wake

  // What other sessions do between the i-th attempt and the next one.
  type Others = nat -> seq<KeyedOp>

  datatype QueueResult = Granted(decision: Decision) | Refused(error: Error) | Cancelled

  // The instant at which the i-th attempt, having read the clock at `now`, holds the lock.
  type Locks = (nat, EpochMillis) -> EpochMillis

  // The clock never runs backwards, so the lock is held no earlier than the clock was read.
  ghost predicate MonotoneLocks(locks: Locks) {
    forall i: nat, now: EpochMillis {:trigger locks(i, now)} :: now <= locks(i, now)
  }

  // A sleep begins after its attempt released the lock, and one that returns has lasted its whole wait.
  // The latch of the original can wake a session early, so this is a hypothesis on the environment; it
  // also says no session outlives the clock.
  ghost predicate HonestSleeps(sleep: Sleeps, locks: Locks) {
    forall i: nat, now: EpochMillis, w: EpochMillis {:trigger sleep(i, now, w)} ::
      sleep(i, now, w).Woke? ==> locks(i, now) + w <= sleep(i, now, w).now
  }

  // All sessions read one clock, each before it takes the lock: what others did before the next attempt
  // took the lock was timed no later than that. It may well be timed later than the clock that attempt
  // goes by.
  ghost predicate SharedClock(sleep: Sleeps, others: Others, locks: Locks, k: Key) {
    forall i: nat, now: EpochMillis, w: EpochMillis {:trigger sleep(i, now, w)} ::
      sleep(i, now, w).Woke? ==> NotAfter(others(i), k, locks(i + 1, sleep(i, now, w).now))
  }

  ghost predicate NotAfter(ops: seq<KeyedOp>, k: Key, at: EpochMillis) {
    forall j :: 0 <= j < |ops| && ops[j].key == k && Refreshes(ops[j].op) ==> ops[j].op.now <= at
  }

  ghost predicate Touches(ops: seq<KeyedOp>, k: Key) {
    exists j :: 0 <= j < |ops| && ops[j].key == k
  }

  // Only after these attempts does another session touch the bucket before the next one.
  ghost predicate TouchedOnlyIn(others: Others, k: Key, touched: set<nat>) {
    forall i: nat {:trigger others(i)} :: Touches(others(i), k) ==> i in touched
  }

  // ----- The story of one statement -----

  // What a statement asks for, and the clock it comes in with.
  datatype Request = Request(key: Key, policy: Policy, predicted: WalBytes, start: EpochMillis) {
    // One attempt, as an operation on the table.
    function Attempt(now: EpochMillis): KeyedOp {
      KeyedOp(key, QueueOp(policy, predicted, now))
    }
  }

  // An attempt that was made: the clock it went by, and what it was told.
  datatype Try = Try(now: EpochMillis, reply: Result<Reply, Error>)

  // All that happened on the table before the attempt that follows these: the attempts, each followed by
  // what other sessions did.
  function Before(q: Request, tries: seq<Try>, others: Others): seq<KeyedOp> {
    if tries == [] then []
    else
      var n := |tries| - 1;
      Before(q, tries[..n], others) + [q.Attempt(tries[n].now)] + others(n)
  }

  // The table after the last of these attempts.
  function After(m0: Buckets, capacity: nat, q: Request, tries: seq<Try>, others: Others): Buckets {
    if tries == [] then m0
    else
      var n := |tries| - 1;
      Perform(RunTable(m0, capacity, Before(q, tries[..n], others)), capacity, q.Attempt(tries[n].now)).0
  }

  // The clock of the next attempt: where the statement started, or what the clock showed after the sleep
  // it was told to take.
  ghost predicate Due(q: Request, tries: seq<Try>, sleep: Sleeps, now: EpochMillis) {
    if tries == [] then now == q.start
    else
      var n := |tries| - 1;
      && tries[n].reply.Ok? && tries[n].reply.value.MustWait?
      && sleep(n, tries[n].now, tries[n].reply.value.waitMs) == Woke(now)
  }

  // The attempts are those of the loop: each goes by the clock that is due, and was told what the table
  // answers after all that came before.
  ghost predicate Told(m0: Buckets, capacity: nat, q: Request, tries: seq<Try>, sleep: Sleeps, others: Others) {
    tries != [] ==>
      var n := |tries| - 1;
      var earlier := tries[..n];
      && Told(m0, capacity, q, earlier, sleep, others)
      && Due(q, earlier, sleep, tries[n].now)
      && tries[n].reply
         == Perform(RunTable(m0, capacity, Before(q, earlier, others)), capacity, q.Attempt(tries[n].now)).1
  }

  // What the attempts charged to the bucket.
  function ChargedIn(m0: Buckets, capacity: nat, q: Request, tries: seq<Try>, others: Others): nat {
    if tries == [] then 0
    else
      var n := |tries| - 1;
      ChargedIn(m0, capacity, q, tries[..n], others)
      + ChargedTo(RunTable(m0, capacity, Before(q, tries[..n], others)), capacity, q.Attempt(tries[n].now), q.key)
  }

  // The result is the last reply, or that the sleep it asked for was interrupted.
  ghost predicate Concludes(tries: seq<Try>, sleep: Sleeps, result: QueueResult) {
    tries != [] &&
    var n := |tries| - 1;
    match tries[n].reply
    case Err(e) => result == Refused(e)
    case Ok(Decided(d)) => result == Granted(d)
    case Ok(MustWait(w)) => result == Cancelled && sleep(n, tries[n].now, w).Interrupted?
    case Ok(_) => false
  }

  // ----- Interference by other sessions -----

  lemma OthersStep(m: Buckets, capacity: nat, o: KeyedOp, k: Key, at: EpochMillis)
    requires NotAfter([o], k, at) && k in m && m[k].lastRefill <= at
    ensures var m' := Perform(m, capacity, o).0;
      && k in m' && m'[k].lastRefill <= at
      && (o.key != k ==> m'[k] == m[k])
  {
    assert [o][0] == o;
    StepOnBucket(m, capacity, o, k);
    if KeptRefresh(m, capacity, o, k) {
      RefreshIsExact(m[k], o.op.policy, o.op.now);
    }
  }

  // Two stretches of the table's history, with one attempt between them.
  lemma HistoryGoesOn(m0: Buckets, capacity: nat, q: Request, tries: seq<Try>, t: Try, others: Others)
    ensures After(m0, capacity, q, tries + [t], others)
         == Perform(RunTable(m0, capacity, Before(q, tries, others)), capacity, q.Attempt(t.now)).0
    ensures RunTable(m0, capacity, Before(q, tries + [t], others))
         == RunTable(After(m0, capacity, q, tries + [t], others), capacity, others(|tries|))
  {
    var before, o := Before(q, tries, others), q.Attempt(t.now);
    assert (tries + [t])[..|tries|] == tries;
    RunConcat(m0, capacity, before + [o], others(|tries|));
    assert (before + [o])[..|before|] == before;
  }

  lemma StoryGoesOn(m0: Buckets, capacity: nat, q: Request, tries: seq<Try>, t: Try, sleep: Sleeps, others: Others)
    requires Told(m0, capacity, q, tries, sleep, others) && Due(q, tries, sleep, t.now)
    requires t.reply == Perform(RunTable(m0, capacity, Before(q, tries, others)), capacity, q.Attempt(t.now)).1
    ensures Told(m0, capacity, q, tries + [t], sleep, others)
    ensures ChargedIn(m0, capacity, q, tries + [t], others)
         == ChargedIn(m0, capacity, q, tries, others)
            + ChargedTo(RunTable(m0, capacity, Before(q, tries, others)), capacity, q.Attempt(t.now), q.key)
  {
    assert (tries + [t])[..|tries|] == tries;
  }

  // ----- One attempt -----

  lemma AttemptOutcome(m: Buckets, capacity: nat, q: Request, now: EpochMillis)
    requires q.predicted <= q.policy.burst
    ensures var (m', r) := Perform(m, capacity, q.Attempt(now));
      var k, p, charged := q.key, q.policy, ChargedTo(m, capacity, q.Attempt(now), q.key);
      && (r.Ok? && r.value.Decided? ==>
            r.value.decision.kind == Allowed && r.value.decision.charged == q.predicted == charged)
      && (!(r.Ok? && r.value.Decided?) ==> charged == 0)
      && (r.Err? ==> p.rate == 0 || (k !in m && |m| >= capacity))
      && (r.Ok? && !r.value.Decided? ==>
        && r.value.MustWait? && k in m
        && Waits(m[k], p, q.predicted, now, m'[k], r.value.waitMs)
        && !AdmitsAt(m[k], p, q.predicted, now)
        && k in m' && m'[k].lastRefill <= Max(m[k].lastRefill, now)
        && p.rate > 0 && 0 < r.value.waitMs)
  {
    if q.key in m {
      RefreshIsExact(m[q.key], q.policy, now);
      if !AdmitsAt(m[q.key], q.policy, q.predicted, now) {
        WaitingChargesNothing(m[q.key], q.policy, q.predicted, now);
      }
    }
  }

  // Every attempt from this moment on admits, up to the top of the clock's range.
  ghost predicate AdmitsFrom(c: Bucket, p: Policy, predicted: WalBytes, at: nat) {
    forall woke: EpochMillis {:trigger AdmitsAt(c, p, predicted, woke)} ::
      at <= woke ==> AdmitsAt(c, p, predicted, woke) || woke == U64_MAX
  }

  // After a whole sleep with the bucket untouched the next attempt admits, unless the wait had been
  // cut off at the top of the clock's range. The bucket's timestamp may lie ahead of `now`.
  lemma UntouchedSleepAdmits(b: Bucket, p: Policy, predicted: WalBytes, now: EpochMillis,
                             c: Bucket, w: EpochMillis, locked: EpochMillis)
    requires predicted <= p.burst && p.rate > 0 && !AdmitsAt(b, p, predicted, now)
    requires Waits(b, p, predicted, now, c, w)
    requires c.lastRefill <= locked
    ensures AdmitsFrom(c, p, predicted, locked + w)
  {
    forall woke: EpochMillis | locked + w <= woke
      ensures AdmitsAt(c, p, predicted, woke) || woke == U64_MAX
    {
      if WaitFits(p, predicted, c) {
        RetryAdmitsIffWaited(b, p, predicted, now, c, w, woke);
      }
    }
  }

  lemma RunStep(m: Buckets, capacity: nat, ops: seq<KeyedOp>, j: nat)
    requires j < |ops|
    ensures RunTable(m, capacity, ops[..j + 1]) == Perform(RunTable(m, capacity, ops[..j]), capacity, ops[j]).0
  {
    assert ops[..j + 1][..j] == ops[..j];
  }

  method RunOthers(table: Table, ops: seq<KeyedOp>, ghost k: Key, ghost at: EpochMillis)
    requires table.Valid() && NotAfter(ops, k, at) && k in table.View && table.View[k].lastRefill <= at
    modifies table, table.slots
    ensures table.Valid() && table.View == RunTable(old(table.View), table.slots.Length, ops)
    ensures k in table.View && table.View[k].lastRefill <= at
    ensures !Touches(ops, k) ==> table.View[k] == old(table.View[k])
  {
    for j := 0 to |ops|
      invariant table.Valid() && table.View == RunTable(old(table.View), table.slots.Length, ops[..j])
      invariant k in table.View && table.View[k].lastRefill <= at
      invariant !Touches(ops, k) ==> table.View[k] == old(table.View[k])
    {
      OthersStep(table.View, table.slots.Length, ops[j], k, at);
      RunStep(old(table.View), table.slots.Length, ops, j);
      var _ := table.PerformInPlace(ops[j]);
    }
    assert ops[..|ops|] == ops;
  }

  // The bucket is there, and the attempt about to be made at `now` is the last one.
  ghost predicate LastRound(m: Buckets, q: Request, now: EpochMillis) {
    q.key in m && (AdmitsAt(m[q.key], q.policy, q.predicted, now) || now == U64_MAX)
  }

  // Before an attempt that goes by the clock `now` and will hold the lock at `locked`: nothing has been
  // charged yet, the bucket's timestamp is no later than the lock, and the bucket is there unless this
  // is the first attempt.
  ghost predicate Pending(m0: Buckets, m: Buckets, capacity: nat, q: Request, tries: seq<Try>, sleep: Sleeps,
                          others: Others, now: EpochMillis, locked: EpochMillis)
  {
    && Told(m0, capacity, q, tries, sleep, others) && Due(q, tries, sleep, now)
    && m == RunTable(m0, capacity, Before(q, tries, others))
    && ChargedIn(m0, capacity, q, tries, others) == 0
    && (q.key in m ==> m[q.key].lastRefill <= locked)
    && (q.key in m || m == m0)
  }

  // Where a statement stands after its last attempt, and what it has charged.
  ghost predicate Stands(m0: Buckets, m: Buckets, capacity: nat, q: Request, tries: seq<Try>, sleep: Sleeps,
                         others: Others, charged: nat)
  {
    && Told(m0, capacity, q, tries, sleep, others)
    && m == After(m0, capacity, q, tries, others)
    && ChargedIn(m0, capacity, q, tries, others) == charged
  }

  // What a statement that is no longer waiting has been told and has charged.
  ghost predicate Ended(m0: Buckets, m: Buckets, capacity: nat, q: Request, tries: seq<Try>, sleep: Sleeps,
                        others: Others, result: QueueResult)
  {
    && Stands(m0, m, capacity, q, tries, sleep, others, if result.Granted? then q.predicted else 0)
    && Concludes(tries, sleep, result)
    && (result.Granted? ==> result.decision.kind == Allowed && result.decision.charged == q.predicted)
    && (result.Refused? ==> q.policy.rate == 0 || (q.key !in m0 && |m0| >= capacity))
  }

  // What one attempt under the lock leads to. A statement told to wait finds the bucket no later than
  // the lock, and with the bucket untouched every attempt after the whole wait admits.
  ghost predicate Attempted(m0: Buckets, m: Buckets, capacity: nat, q: Request, tries: seq<Try>, sleep: Sleeps,
                            others: Others, locked: EpochMillis)
  {
    tries != [] &&
    match tries[|tries| - 1].reply
    case Err(e) => Ended(m0, m, capacity, q, tries, sleep, others, Refused(e))
    case Ok(Decided(d)) => Ended(m0, m, capacity, q, tries, sleep, others, Granted(d))
    case Ok(MustWait(w)) =>
      && 0 < w && q.key in m && m[q.key].lastRefill <= locked
      && Stands(m0, m, capacity, q, tries, sleep, others, 0)
      && AdmitsFrom(m[q.key], q.policy, q.predicted, locked + w)
    case Ok(_) => false
  }

  lemma AttemptStands(m0: Buckets, m: Buckets, capacity: nat, q: Request, tries: seq<Try>, sleep: Sleeps,
                      others: Others, now: EpochMillis, locked: EpochMillis)
    requires q.predicted <= q.policy.burst
    requires Pending(m0, m, capacity, q, tries, sleep, others, now, locked)
    ensures var (m', r) := Perform(m, capacity, q.Attempt(now));
      Stands(m0, m', capacity, q, tries + [Try(now, r)], sleep, others,
             if r.Ok? && r.value.Decided? then q.predicted else 0)
  {
    var t := Try(now, Perform(m, capacity, q.Attempt(now)).1);
    AttemptOutcome(m, capacity, q, now);
    HistoryGoesOn(m0, capacity, q, tries, t, others);
    StoryGoesOn(m0, capacity, q, tries, t, sleep, others);
  }

  lemma AttemptedOutcome(m0: Buckets, m: Buckets, capacity: nat, q: Request, tries: seq<Try>, sleep: Sleeps,
                         others: Others, now: EpochMillis, locked: EpochMillis)
    requires q.predicted <= q.policy.burst && now <= locked
    requires Pending(m0, m, capacity, q, tries, sleep, others, now, locked)
    ensures var (m', r) := Perform(m, capacity, q.Attempt(now));
      && Attempted(m0, m', capacity, q, tries + [Try(now, r)], sleep, others, locked)
      && (LastRound(m, q, now) && now < U64_MAX ==> !(r.Ok? && r.value.MustWait?))
  {
    AttemptOutcome(m, capacity, q, now);
    AttemptStands(m0, m, capacity, q, tries, sleep, others, now, locked);
    var (m', r) := Perform(m, capacity, q.Attempt(now));
    if r.Ok? && r.value.MustWait? {
      UntouchedSleepAdmits(m[q.key], q.policy, q.predicted, now, m'[q.key], r.value.waitMs, locked);
    }
  }

  method AttemptCharge(table: Table, q: Request, now: EpochMillis, ghost locked: EpochMillis,
                       ghost m0: Buckets, ghost tries: seq<Try>, ghost sleep: Sleeps, ghost others: Others)
    returns (r: Result<Reply, Error>)
    requires table.Valid() && q.predicted <= q.policy.burst && now <= locked
    requires Pending(m0, table.View, table.slots.Length, q, tries, sleep, others, now, locked)
    modifies table, table.slots
    ensures table.Valid()
    ensures Attempted(m0, table.View, table.slots.Length, q, tries + [Try(now, r)], sleep, others, locked)
    ensures old(LastRound(table.View, q, now)) && now < U64_MAX ==> !(r.Ok? && r.value.MustWait?)
  {
    AttemptedOutcome(m0, table.View, table.slots.Length, q, tries, sleep, others, now, locked);
    r := table.PerformInPlace(q.Attempt(now));
  }

  // What other sessions did goes into the history behind the attempt they followed.
  lemma OthersFollow(m0: Buckets, m: Buckets, capacity: nat, q: Request, tries: seq<Try>, sleep: Sleeps, others: Others)
    requires tries != [] && Stands(m0, m, capacity, q, tries, sleep, others, 0)
    ensures RunTable(m, capacity, others(|tries| - 1)) == RunTable(m0, capacity, Before(q, tries, others))
  {
    var n := |tries| - 1;
    assert tries == tries[..n] + [tries[n]];
    HistoryGoesOn(m0, capacity, q, tries[..n], tries[n], others);
  }

  method Interfere(table: Table, q: Request, now: EpochMillis, ghost at: EpochMillis, i: nat,
                   ghost m0: Buckets, ghost tries: seq<Try>, ghost sleep: Sleeps, others: Others)
    requires table.Valid() && |tries| == i + 1
    requires Stands(m0, table.View, table.slots.Length, q, tries, sleep, others, 0) && Due(q, tries, sleep, now)
    requires NotAfter(others(i), q.key, at) && q.key in table.View && table.View[q.key].lastRefill <= at
    modifies table, table.slots
    ensures table.Valid() && q.key in table.View
    ensures Pending(m0, table.View, table.slots.Length, q, tries, sleep, others, now, at)
    ensures !Touches(others(i), q.key) ==> table.View[q.key] == old(table.View)[q.key]
  {
    OthersFollow(m0, table.View, table.slots.Length, q, tries, sleep, others);
    RunOthers(table, others(i), q.key, at);
  }

  datatype Round = Finished(result: QueueResult) | Again(now: EpochMillis)

  // One turn of the loop: attempt, and if told to wait, sleep while the others work.
  method OneRound(table: Table, q: Request, now: EpochMillis, sleep: Sleeps, others: Others, ghost locks: Locks, i: nat,
                  ghost m0: Buckets, ghost tries: seq<Try>)
    returns (round: Round, ghost tries': seq<Try>)
    requires table.Valid() && q.predicted <= q.policy.burst && |tries| == i
    requires MonotoneLocks(locks) && HonestSleeps(sleep, locks) && SharedClock(sleep, others, locks, q.key)
    requires Pending(m0, table.View, table.slots.Length, q, tries, sleep, others, now, locks(i, now))
    modifies table, table.slots
    ensures table.Valid() && |tries'| == i + 1
    ensures round.Finished? ==> Ended(m0, table.View, table.slots.Length, q, tries', sleep, others, round.result)
    ensures old(LastRound(table.View, q, now)) ==> round.Finished?
    ensures round.Again? ==>
      && Pending(m0, table.View, table.slots.Length, q, tries', sleep, others, round.now, locks(i + 1, round.now))
      && (!Touches(others(i), q.key) ==> LastRound(table.View, q, round.now))
  {
    ghost var locked := locks(i, now);
    var attempt := AttemptCharge(table, q, now, locked, m0, tries, sleep, others);
    tries' := tries + [Try(now, attempt)];
    if attempt.Err? {
      return Finished(Refused(attempt.error)), tries';
    }
    if attempt.value.Decided? {
      return Finished(Granted(attempt.value.decision)), tries';
    }
    var wake := sleep(i, now, attempt.value.waitMs);
    if wake.Interrupted? {
      return Finished(Cancelled), tries';
    }
    assert AdmitsAt(table.View[q.key], q.policy, q.predicted, wake.now) || wake.now == U64_MAX;
    assert locked <= wake.now <= locks(i + 1, wake.now);
    Interfere(table, q, wake.now, locks(i + 1, wake.now), i, m0, tries', sleep, others);
    round := Again(wake.now);
  }

  // The marked attempts from i on.
  ghost function From(touched: set<nat>, i: nat): set<nat> {
    set j | j in touched && i <= j
  }

  // An attempt after which others touch the bucket uses up a mark.
  lemma MarkUsed(others: Others, k: Key, touched: set<nat>, i: nat)
    requires TouchedOnlyIn(others, k, touched)
    ensures |From(touched, i + 1)| <= if Touches(others(i), k) then |From(touched, i)| - 1 else |From(touched, i)|
  {
    if i in touched {
      assert From(touched, i) == From(touched, i + 1) + {i};
    } else {
      assert From(touched, i) == From(touched, i + 1);
    }
  }

  lemma AllMarks(touched: set<nat>)
    ensures From(touched, 0) == touched
  {
  }

  // Before attempt i: it is pending, and either a mark is left for every attempt that others may still
  // undo, or it is the last.
  ghost predicate Waiting(m0: Buckets, m: Buckets, capacity: nat, q: Request, tries: seq<Try>, sleep: Sleeps,
                          others: Others, now: EpochMillis, locks: Locks, touched: set<nat>)
  {
    var i := |tries|;
    && Pending(m0, m, capacity, q, tries, sleep, others, now, locks(i, now))
    && i + |From(touched, i)| <= |touched| + 1
    && (i + |From(touched, i)| <= |touched| || LastRound(m, q, now))
  }

  method NextRound(table: Table, q: Request, now: EpochMillis, sleep: Sleeps, others: Others, ghost locks: Locks,
                   ghost touched: set<nat>, i: nat, ghost m0: Buckets, ghost tries: seq<Try>)
    returns (round: Round, ghost tries': seq<Try>)
    requires table.Valid() && q.predicted <= q.policy.burst && |tries| == i
    requires MonotoneLocks(locks) && HonestSleeps(sleep, locks) && SharedClock(sleep, others, locks, q.key)
    requires TouchedOnlyIn(others, q.key, touched)
    requires Waiting(m0, table.View, table.slots.Length, q, tries, sleep, others, now, locks, touched)
    modifies table, table.slots
    ensures table.Valid() && |tries'| == i + 1
    ensures round.Finished? ==> Ended(m0, table.View, table.slots.Length, q, tries', sleep, others, round.result)
    ensures round.Again? ==>
      Waiting(m0, table.View, table.slots.Length, q, tries', sleep, others, round.now, locks, touched)
  {
    round, tries' := OneRound(table, q, now, sleep, others, locks, i, m0, tries);
    MarkUsed(others, q.key, touched, i);
  }

  // The retry loop of a statement that fits the burst.
  method AdmitQueueWithRetry(table: Table, q: Request, sleep: Sleeps, others: Others, ghost locks: Locks,
                             ghost touched: set<nat>)
    returns (result: QueueResult, attempts: nat, ghost tries: seq<Try>)
    requires table.Valid() && q.predicted <= q.policy.burst
    requires MonotoneLocks(locks) && HonestSleeps(sleep, locks) && SharedClock(sleep, others, locks, q.key)
    requires q.key in table.View ==> table.View[q.key].lastRefill <= locks(0, q.start)
    requires TouchedOnlyIn(others, q.key, touched)
    modifies table, table.slots
    ensures table.Valid()
    ensures Ended(old(table.View), table.View, table.slots.Length, q, tries, sleep, others, result)
    ensures attempts == |tries| <= 2 + |touched|
  {
    ghost var m0 := table.View;
    attempts, tries := 0, [];
    var now := q.start;
    AllMarks(touched);
    while true
      invariant table.Valid() && attempts == |tries|
      invariant Waiting(m0, table.View, table.slots.Length, q, tries, sleep, others, now, locks, touched)
      decreases |touched| + 2 - attempts
    {
      var round;
      round, tries := NextRound(table, q, now, sleep, others, locks, touched, attempts, m0, tries);
      attempts := attempts + 1;
      if round.Finished? {
        return round.result, attempts, tries;
      }
      now := round.now;
    }
  }

  // The statement goes through exactly these attempts: the first at its start, each later one at the
  // clock after the sleep the one before was told to take, each told what the table answers after all
  // that went before; and it ends with the last reply. It makes at most two attempts more than those
  // after which others touched the bucket; it charges the prediction once if it is granted and nothing
  // otherwise; and one that fits the burst, at a positive rate, is granted unless it is cancelled.
  method AdmitQueue(table: Table, q: Request, sleep: Sleeps, others: Others, ghost locks: Locks,
                    ghost touched: set<nat>)
    returns (result: QueueResult, attempts: nat, ghost tries: seq<Try>)
    requires table.Valid()
    requires MonotoneLocks(locks) && HonestSleeps(sleep, locks) && SharedClock(sleep, others, locks, q.key)
    requires q.key in table.View ==> table.View[q.key].lastRefill <= locks(0, q.start)
    requires TouchedOnlyIn(others, q.key, touched)
    modifies table, table.slots
    ensures table.Valid() && attempts == |tries| <= 2 + |touched|
    ensures q.predicted > q.policy.burst ==>
      && result == Refused(BudgetExceeded(q.policy.id, q.predicted, q.policy.burst))
      && tries == [] && table.View == old(table.View)
    ensures q.predicted <= q.policy.burst ==>
      Ended(old(table.View), table.View, table.slots.Length, q, tries, sleep, others, result)
    ensures
      && q.predicted <= q.policy.burst && q.policy.rate > 0
      && (q.key in old(table.View) || |old(table.View)| < table.slots.Length)
      ==> !result.Refused?
  {
    if q.predicted > q.policy.burst {
      return Refused(Exceeded(q.policy, q.predicted, q.policy.burst)), 0, [];
    }
    result, attempts, tries := AdmitQueueWithRetry(table, q, sleep, others, locks, touched);
  }

  // ----- The chunked sleep -----

  const SLEEP_CHUNK_MS: nat := 100

  // Interrupts are looked at before every chunk and once at the end: an uninterrupted sleep requests
  // exactly `wait`, and an interrupt seen at check c has waited for at most c whole chunks.
  method SleepInterruptible(wait: EpochMillis, interrupted: nat -> bool)
    returns (requested: nat, checks: nat, finished: bool)
    ensures forall c :: 0 <= c < checks ==> !interrupted(c)
    ensures requested == Min(checks * SLEEP_CHUNK_MS, wait)
    ensures finished ==> requested == wait && checks == CeilDiv(wait, SLEEP_CHUNK_MS) + 1
    ensures !finished ==> interrupted(checks) && checks <= CeilDiv(wait, SLEEP_CHUNK_MS)
  {
    var remaining := wait;
    requested, checks := 0, 0;
    while remaining > 0
      invariant 0 <= remaining <= wait && requested == wait - remaining
      invariant requested == Min(checks * SLEEP_CHUNK_MS, wait)
      invariant checks <= CeilDiv(wait, SLEEP_CHUNK_MS)
      invariant remaining == 0 ==> checks == CeilDiv(wait, SLEEP_CHUNK_MS)
      invariant forall c :: 0 <= c < checks ==> !interrupted(c)
    {
      if interrupted(checks) {
        return requested, checks, false;
      }
      var chunk := Min(remaining, SLEEP_CHUNK_MS);
      requested, remaining, checks := requested + chunk, remaining - chunk, checks + 1;
    }
    if interrupted(checks) {
      return requested, checks, false;
    }
    return requested, checks + 1, true;
  }
}
