// How much one bucket can hand out, over every interleaving of operations on the whole table
// (src/budget.rs:172-194 and 251-379, src/shmem/transactions.rs:49-62).
module RateBound {
  import opened Numbers
  import opened Wrappers
  import opened Budget
  import opened BucketTable
  import opened RefillSchedules

  // What the step charged to bucket `k`, and what it gave back.
  function ChargedTo(m: Buckets, capacity: nat, o: KeyedOp, k: Key): nat {
    match Perform(m, capacity, o).1
    case Ok(Decided(d)) => if o.key == k && d.kind == Allowed then d.charged else 0
    case _ => 0
  }

  function ReturnedTo(m: Buckets, o: KeyedOp, k: Key): nat {
    if o.key == k && o.op.RefundOp? && k in m
    then Excess(RefundCharge(m[k], o.op.bytes).available, m[k].available)
    else 0
  }

  // Bytes charged to `k` less bytes given back, over a run.
  function Net(m: Buckets, capacity: nat, ops: seq<KeyedOp>, k: Key): int {
    if ops == [] then 0
    else
      var earlier, o := ops[..|ops| - 1], ops[|ops| - 1];
      var before := RunTable(m, capacity, earlier);
      Net(m, capacity, earlier, k) + ChargedTo(before, capacity, o, k) - ReturnedTo(before, o, k)
  }

  // When the run created bucket `k`.
  function CreatedAt(m: Buckets, capacity: nat, ops: seq<KeyedOp>, k: Key): EpochMillis {
    if ops == [] then 0
    else
      var earlier, o := ops[..|ops| - 1], ops[|ops| - 1];
      var before := RunTable(m, capacity, earlier);
      if k !in before && o.key == k && Creates(o.op) then o.op.now
      else CreatedAt(m, capacity, earlier, k)
  }

  // The step refreshed bucket `k` and the table kept the result.
  predicate KeptRefresh(m: Buckets, capacity: nat, o: KeyedOp, k: Key) {
    && o.key == k && Refreshes(o.op) && Perform(m, capacity, o).1.Ok?
    && (k in m || Creates(o.op))
  }

  // The bucket a kept refresh starts from.
  function Origin(m: Buckets, o: KeyedOp, k: Key): Bucket
    requires Refreshes(o.op)
  {
    if k in m then m[k] else InitialBucket(o.op.policy, o.op.now)
  }

  // How one step moves bucket `k`: a kept refresh leaves the refreshed value less the charge; any
  // other step leaves the timestamp and adds exactly what it gave back.
  lemma StepOnBucket(m: Buckets, capacity: nat, o: KeyedOp, k: Key)
    ensures var m' := Perform(m, capacity, o).0;
      if KeptRefresh(m, capacity, o, k) then
        var c := Refresh(Origin(m, o, k), o.op.policy, o.op.now);
        && k in m'
        && m'[k] == c.(available := m'[k].available)
        && m'[k].available + ChargedTo(m, capacity, o, k) == c.available
        && ReturnedTo(m, o, k) == 0
      else
        && ChargedTo(m, capacity, o, k) == 0
        && (k in m' <==> k in m)
        && (k !in m ==> ReturnedTo(m, o, k) == 0)
        && (k in m ==>
          && m'[k].lastRefill == m[k].lastRefill && m'[k].maxBurst == m[k].maxBurst
          && m'[k].available <= m[k].available + ReturnedTo(m, o, k)
          && (WithinBurst(m[k]) ==>
                WithinBurst(m'[k]) && m'[k].available == m[k].available + ReturnedTo(m, o, k)))
  {
  }

  ghost predicate PoliciesWithin(ops: seq<KeyedOp>, k: Key, rate: nat, burst: nat) {
    forall i :: 0 <= i < |ops| && ops[i].key == k && Refreshes(ops[i].op) ==>
      ops[i].op.policy.rate <= rate && ops[i].op.policy.burst <= burst
  }

  // ----- The whole run -----

  ghost predicate Bounded(b: Bucket, net: int, created: nat, rate: nat, burst: nat) {
    && b.available <= b.maxBurst <= burst
    && created <= b.lastRefill
    && 1000 * (b.available + net) <= 1000 * burst + rate * (b.lastRefill - created)
  }

  lemma RefreshKeepsBound(b: Bucket, p: Policy, now: EpochMillis, net: int, created: nat, rate: nat, burst: nat)
    requires p.rate <= rate && p.burst <= burst
    requires Bounded(b, net, created, rate, burst)
    ensures Bounded(Refresh(b, p, now), net, created, rate, burst)
  {
    RefreshIsExact(b, p, now);
    if b.lastRefill < now {
      EarnedBounds(p.rate, b.lastRefill, now);
      MulMono(p.rate, rate, now - b.lastRefill);
      RateSplits(rate, created, b.lastRefill, now);
    }
  }

  lemma ChargeKeepsBound(c: Bucket, charge: nat, net: int, created: nat, rate: nat, burst: nat)
    requires charge <= c.available && Bounded(c, net, created, rate, burst)
    ensures Bounded(c.(available := c.available - charge), net + charge, created, rate, burst)
  {
    assert c.available - charge + (net + charge) == c.available + net;
  }

  lemma StepKeepsBound(m: Buckets, capacity: nat, o: KeyedOp, k: Key, net: int, created: nat, rate: nat, burst: nat)
    requires PoliciesWithin([o], k, rate, burst)
    requires if k in m then Bounded(m[k], net, created, rate, burst) else net == 0
    ensures var m' := Perform(m, capacity, o).0;
      var net' := net + ChargedTo(m, capacity, o, k) - ReturnedTo(m, o, k);
      var created' := if k !in m && o.key == k && Creates(o.op) then o.op.now else created;
      if k in m' then Bounded(m'[k], net', created', rate, burst) else net' == 0
  {
    StepOnBucket(m, capacity, o, k);
    if KeptRefresh(m, capacity, o, k) {
      assert [o][0] == o;
      var b := Origin(m, o, k);
      var created' := if k in m then created else o.op.now;
      assert Bounded(b, net, created', rate, burst);
      RefreshKeepsBound(b, o.op.policy, o.op.now, net, created', rate, burst);
      ChargeKeepsBound(Refresh(b, o.op.policy, o.op.now), ChargedTo(m, capacity, o, k), net, created', rate, burst);
    }
  }

  // Every bucket's charges, less what was given back, stay within one burst plus the rate over the
  // time its timestamp covered, whatever the clocks of the sessions do.
  lemma {:induction false} WholeRunBound(capacity: nat, ops: seq<KeyedOp>, k: Key, rate: nat, burst: nat)
    requires PoliciesWithin(ops, k, rate, burst)
    ensures var m := RunTable(map[], capacity, ops);
      var net := Net(map[], capacity, ops, k);
      if k in m then Bounded(m[k], net, CreatedAt(map[], capacity, ops, k), rate, burst) else net == 0
  {
    if ops != [] {
      var earlier, o := ops[..|ops| - 1], ops[|ops| - 1];
      WholeRunBound(capacity, earlier, k, rate, burst);
      StepKeepsBound(RunTable(map[], capacity, earlier), capacity, o, k, Net(map[], capacity, earlier, k),
                     CreatedAt(map[], capacity, earlier, k), rate, burst);
    }
  }

  // ----- Every window of the run -----

  // The refill timestamp after the first refresh of `k` that the window kept.
  function NextAnchor(m: Buckets, capacity: nat, o: KeyedOp, k: Key, anchor: Option<EpochMillis>): Option<EpochMillis> {
    if anchor.Some? || !KeptRefresh(m, capacity, o, k) then anchor
    else Some(Refresh(Origin(m, o, k), o.op.policy, o.op.now).lastRefill)
  }

  function Anchor(m: Buckets, capacity: nat, ops: seq<KeyedOp>, k: Key): Option<EpochMillis> {
    if ops == [] then None
    else
      var earlier := ops[..|ops| - 1];
      NextAnchor(RunTable(m, capacity, earlier), capacity, ops[|ops| - 1], k, Anchor(m, capacity, earlier, k))
  }

  // A step on `k` reads a clock within [from, to] and keeps to the rate and the burst.
  ghost predicate InWindow(o: KeyedOp, k: Key, rate: nat, burst: nat, from: nat, to: nat) {
    o.key == k && Refreshes(o.op) ==>
      o.op.policy.rate <= rate && o.op.policy.burst <= burst && from <= o.op.now <= to
  }

  ghost predicate Window(ops: seq<KeyedOp>, k: Key, rate: nat, burst: nat, from: nat, to: nat) {
    forall i :: 0 <= i < |ops| ==> InWindow(ops[i], k, rate, burst, from, to)
  }

  ghost predicate OneRate(ops: seq<KeyedOp>, k: Key, rate: nat) {
    forall i :: 0 <= i < |ops| && ops[i].key == k && Refreshes(ops[i].op) ==> ops[i].op.policy.rate == rate
  }

  ghost predicate ValidPolicies(ops: seq<KeyedOp>, k: Key) {
    forall i :: 0 <= i < |ops| && ops[i].key == k && Refreshes(ops[i].op) ==> ValidPolicy(ops[i].op.policy)
  }

  // A step on `k` that would leave the first timestamp where it is leaves it so close to the window
  // that the time between is worth at most `slack` at the greatest rate, in thousandths of a byte.
  ghost predicate Near(m: Buckets, o: KeyedOp, k: Key, rate: nat, from: nat, slack: nat) {
    k in m && o.key == k && Refreshes(o.op) && Earned(o.op.policy.rate, m[k].lastRefill, o.op.now) == 0 ==>
      rate * (from - m[k].lastRefill) <= slack
  }

  ghost predicate LittleLeft(m: Buckets, ops: seq<KeyedOp>, k: Key, rate: nat, from: nat, slack: nat) {
    forall i :: 0 <= i < |ops| ==> Near(m, ops[i], k, rate, from, slack)
  }

  // Before its first kept refresh a window has charged nothing; after it, the bucket is bounded from
  // the anchor on, which lies at most the slack before the window.
  ghost predicate WindowState(m0: Buckets, m: Buckets, net: int, anchor: Option<EpochMillis>, k: Key,
                              rate: nat, burst: nat, from: nat, to: nat, slack: nat)
  {
    match anchor
    case None => net <= 0 && (k in m <==> k in m0) && (k in m ==> m[k].lastRefill == m0[k].lastRefill)
    case Some(a) =>
      && k in m
      && a <= m[k].lastRefill <= Max(a, to)
      && rate * (from - a) <= slack
      && 1000 * (m[k].available + net) <= 1000 * burst + rate * (m[k].lastRefill - a)
  }

  lemma NegativeProduct(rate: nat, d: int)
    requires d <= 0
    ensures rate * d <= 0
  {
  }

  lemma FirstWindowRefresh(b: Bucket, p: Policy, now: EpochMillis, net: int, rate: nat, burst: nat,
                           from: nat, to: nat, slack: nat)
    requires p.burst <= burst && from <= now <= to && net <= 0
    requires Earned(p.rate, b.lastRefill, now) == 0 ==> rate * (from - b.lastRefill) <= slack
    ensures var c := Refresh(b, p, now);
      && rate * (from - c.lastRefill) <= slack
      && 1000 * (c.available + net) <= 1000 * burst
  {
    RefreshIsExact(b, p, now);
    if Earned(p.rate, b.lastRefill, now) != 0 {
      NegativeProduct(rate, from - now);
    }
  }

  lemma NextWindowRefresh(b: Bucket, p: Policy, now: EpochMillis, net: int, a: EpochMillis,
                          rate: nat, burst: nat, to: nat)
    requires p.rate <= rate && p.burst <= burst && now <= to
    requires a <= b.lastRefill <= Max(a, to)
    requires 1000 * (b.available + net) <= 1000 * burst + rate * (b.lastRefill - a)
    ensures var c := Refresh(b, p, now);
      && a <= c.lastRefill <= Max(a, to)
      && 1000 * (c.available + net) <= 1000 * burst + rate * (c.lastRefill - a)
  {
    RefreshIsExact(b, p, now);
    if b.lastRefill < now {
      EarnedBounds(p.rate, b.lastRefill, now);
      MulMono(p.rate, rate, now - b.lastRefill);
      RateSplits(rate, a, b.lastRefill, now);
    }
  }

  // A step that keeps no refresh of `k` leaves its timestamp and hands nothing out.
  lemma IdleWindowStep(m0: Buckets, m: Buckets, capacity: nat, o: KeyedOp, k: Key, net: int,
                       anchor: Option<EpochMillis>, rate: nat, burst: nat, from: nat, to: nat, slack: nat)
    requires !KeptRefresh(m, capacity, o, k)
    requires WindowState(m0, m, net, anchor, k, rate, burst, from, to, slack)
    ensures WindowState(m0, Perform(m, capacity, o).0, net - ReturnedTo(m, o, k), anchor, k,
                        rate, burst, from, to, slack)
    ensures ChargedTo(m, capacity, o, k) == 0
  {
    StepOnBucket(m, capacity, o, k);
  }

  lemma OriginIsNear(m0: Buckets, m: Buckets, o: KeyedOp, k: Key, rate: nat, burst: nat,
                     from: nat, to: nat, slack: nat)
    requires o.key == k && Refreshes(o.op)
    requires InWindow(o, k, rate, burst, from, to) && Near(m0, o, k, rate, from, slack)
    requires k in m ==> k in m0 && m[k].lastRefill == m0[k].lastRefill
    ensures var b := Origin(m, o, k);
      Earned(o.op.policy.rate, b.lastRefill, o.op.now) == 0 ==> rate * (from - b.lastRefill) <= slack
  {
    if k !in m {
      NegativeProduct(rate, from - o.op.now);
    }
  }

  lemma FirstWindowStep(m0: Buckets, m: Buckets, capacity: nat, o: KeyedOp, k: Key, net: int,
                        rate: nat, burst: nat, from: nat, to: nat, slack: nat)
    requires InWindow(o, k, rate, burst, from, to) && Near(m0, o, k, rate, from, slack)
    requires KeptRefresh(m, capacity, o, k)
    requires WindowState(m0, m, net, None, k, rate, burst, from, to, slack)
    ensures WindowState(m0, Perform(m, capacity, o).0, net + ChargedTo(m, capacity, o, k),
                        Some(Refresh(Origin(m, o, k), o.op.policy, o.op.now).lastRefill), k,
                        rate, burst, from, to, slack)
    ensures ReturnedTo(m, o, k) == 0
  {
    var b := Origin(m, o, k);
    var c := Refresh(b, o.op.policy, o.op.now);
    OriginIsNear(m0, m, o, k, rate, burst, from, to, slack);
    FirstWindowRefresh(b, o.op.policy, o.op.now, net, rate, burst, from, to, slack);
    StepOnBucket(m, capacity, o, k);
    assert rate * (c.lastRefill - c.lastRefill) == 0;
  }

  lemma NextWindowStep(m0: Buckets, m: Buckets, capacity: nat, o: KeyedOp, k: Key, net: int,
                       anchor: EpochMillis, rate: nat, burst: nat, from: nat, to: nat, slack: nat)
    requires InWindow(o, k, rate, burst, from, to) && KeptRefresh(m, capacity, o, k)
    requires WindowState(m0, m, net, Some(anchor), k, rate, burst, from, to, slack)
    ensures WindowState(m0, Perform(m, capacity, o).0, net + ChargedTo(m, capacity, o, k),
                        Some(anchor), k, rate, burst, from, to, slack)
    ensures ReturnedTo(m, o, k) == 0
  {
    StepOnBucket(m, capacity, o, k);
    NextWindowRefresh(m[k], o.op.policy, o.op.now, net, anchor, rate, burst, to);
  }

  lemma WindowStep(m0: Buckets, m: Buckets, capacity: nat, o: KeyedOp, k: Key, net: int,
                   anchor: Option<EpochMillis>, rate: nat, burst: nat, from: nat, to: nat, slack: nat,
                   m': Buckets, net': int, anchor': Option<EpochMillis>)
    requires InWindow(o, k, rate, burst, from, to) && Near(m0, o, k, rate, from, slack)
    requires WindowState(m0, m, net, anchor, k, rate, burst, from, to, slack)
    requires m' == Perform(m, capacity, o).0
    requires net' == net + ChargedTo(m, capacity, o, k) - ReturnedTo(m, o, k)
    requires anchor' == NextAnchor(m, capacity, o, k, anchor)
    ensures WindowState(m0, m', net', anchor', k, rate, burst, from, to, slack)
  {
    if !KeptRefresh(m, capacity, o, k) {
      IdleWindowStep(m0, m, capacity, o, k, net, anchor, rate, burst, from, to, slack);
    } else if anchor.Some? {
      NextWindowStep(m0, m, capacity, o, k, net, anchor.value, rate, burst, from, to, slack);
    } else {
      FirstWindowStep(m0, m, capacity, o, k, net, rate, burst, from, to, slack);
    }
  }

  lemma RunUnfolds(m: Buckets, capacity: nat, ops: seq<KeyedOp>, k: Key)
    requires ops != []
    ensures var earlier, o := ops[..|ops| - 1], ops[|ops| - 1];
      var before := RunTable(m, capacity, earlier);
      && RunTable(m, capacity, ops) == Perform(before, capacity, o).0
      && Net(m, capacity, ops, k)
         == Net(m, capacity, earlier, k) + ChargedTo(before, capacity, o, k) - ReturnedTo(before, o, k)
      && Anchor(m, capacity, ops, k) == NextAnchor(before, capacity, o, k, Anchor(m, capacity, earlier, k))
  {
  }

  lemma WindowPrefix(m: Buckets, ops: seq<KeyedOp>, k: Key, rate: nat, burst: nat, from: nat, to: nat, slack: nat)
    requires ops != [] && Window(ops, k, rate, burst, from, to) && LittleLeft(m, ops, k, rate, from, slack)
    ensures var front, last := ops[..|ops| - 1], ops[|ops| - 1];
      && Window(front, k, rate, burst, from, to) && LittleLeft(m, front, k, rate, from, slack)
      && InWindow(last, k, rate, burst, from, to) && Near(m, last, k, rate, from, slack)
  {
  }

  lemma {:induction false} WindowInvariant(m: Buckets, capacity: nat, ops: seq<KeyedOp>, k: Key, rate: nat,
                                           burst: nat, from: nat, to: nat, slack: nat)
    requires Window(ops, k, rate, burst, from, to) && LittleLeft(m, ops, k, rate, from, slack)
    ensures WindowState(m, RunTable(m, capacity, ops), Net(m, capacity, ops, k), Anchor(m, capacity, ops, k),
                        k, rate, burst, from, to, slack)
  {
    if ops != [] {
      var earlier, o := ops[..|ops| - 1], ops[|ops| - 1];
      WindowPrefix(m, ops, k, rate, burst, from, to, slack);
      WindowInvariant(m, capacity, earlier, k, rate, burst, from, to, slack);
      RunUnfolds(m, capacity, ops, k);
      WindowStep(m, RunTable(m, capacity, earlier), capacity, o, k, Net(m, capacity, earlier, k),
                 Anchor(m, capacity, earlier, k), rate, burst, from, to, slack,
                 RunTable(m, capacity, ops), Net(m, capacity, ops, k), Anchor(m, capacity, ops, k));
    }
  }

  lemma SpanInWindow(rate: nat, a: nat, last: nat, from: nat, to: nat, slack: nat)
    requires from <= to && a <= last <= Max(a, to) && rate * (from - a) <= slack
    ensures rate * (last - a) <= rate * (to - from) + slack
  {
    MulMonoRight(rate, 0, to - from);
    if a <= to {
      MulMonoRight(rate, last - a, to - a);
      RateSplits(rate, a, from, to);
    } else {
      assert last == a;
    }
  }

  lemma StateWithinSlack(m0: Buckets, m: Buckets, net: int, anchor: Option<EpochMillis>, k: Key,
                         rate: nat, burst: nat, from: nat, to: nat, slack: nat)
    requires from <= to && WindowState(m0, m, net, anchor, k, rate, burst, from, to, slack)
    ensures 1000 * net <= 1000 * burst + rate * (to - from) + slack
  {
    if anchor.Some? {
      SpanInWindow(rate, anchor.value, m[k].lastRefill, from, to, slack);
    } else {
      MulMonoRight(rate, 0, to - from);
    }
  }

  // Any window hands out at most one burst, the rate over its length, and the slack.
  lemma SlackBound(m: Buckets, capacity: nat, ops: seq<KeyedOp>, k: Key, rate: nat, burst: nat,
                   from: nat, to: nat, slack: nat)
    requires from <= to && Window(ops, k, rate, burst, from, to) && LittleLeft(m, ops, k, rate, from, slack)
    ensures 1000 * Net(m, capacity, ops, k) <= 1000 * burst + rate * (to - from) + slack
  {
    WindowInvariant(m, capacity, ops, k, rate, burst, from, to, slack);
    StateWithinSlack(m, RunTable(m, capacity, ops), Net(m, capacity, ops, k), Anchor(m, capacity, ops, k),
                     k, rate, burst, from, to, slack);
  }

  // A timestamp that `now` leaves where it is lies less than a byte's time before it.
  lemma UnmovedIsNear(rate: nat, last: nat, from: nat, now: nat)
    requires from <= now && Earned(rate, last, now) == 0
    ensures rate * (from - last) <= 999
    ensures rate > 0 ==> from - last <= 999
  {
    if last < from {
      EarnedBounds(rate, last, now);
      MulMonoRight(rate, from - last, now - last);
      if rate > 0 {
        MulMono(1, rate, from - last);
      }
    } else {
      NegativeProduct(rate, from - last);
    }
  }

  // In any window of any run, from whatever table it starts, a bucket under one rate hands out less
  // than one burst and one byte plus the rate over the window's length.
  lemma WindowBound(m: Buckets, capacity: nat, ops: seq<KeyedOp>, k: Key,
                    rate: nat, burst: nat, from: nat, to: nat)
    requires from <= to && Window(ops, k, rate, burst, from, to) && OneRate(ops, k, rate)
    ensures 1000 * Net(m, capacity, ops, k) < 1000 * (burst + 1) + rate * (to - from)
  {
    forall i | 0 <= i < |ops| ensures Near(m, ops[i], k, rate, from, 999) {
      assert InWindow(ops[i], k, rate, burst, from, to);
      if k in m && ops[i].key == k && Refreshes(ops[i].op) && Earned(rate, m[k].lastRefill, ops[i].op.now) == 0 {
        UnmovedIsNear(rate, m[k].lastRefill, from, ops[i].op.now);
      }
    }
    SlackBound(m, capacity, ops, k, rate, burst, from, to, 999);
  }

  // ----- Windows in which the policy changes -----

  // The time between the bucket's timestamp and the window is worth less than a byte at the greatest
  // rate, or is so long that even the least rate moves the timestamp.
  ghost predicate Settled(m: Buckets, k: Key, rate: nat, from: nat) {
    k in m ==> rate * (from - m[k].lastRefill) < 1000 || from - m[k].lastRefill >= 1000
  }

  // Even the least rate moves a timestamp that lies a second back.
  lemma ValidIsNear(m: Buckets, o: KeyedOp, k: Key, rate: nat, burst: nat, from: nat, to: nat)
    requires InWindow(o, k, rate, burst, from, to)
    requires o.key == k && Refreshes(o.op) ==> ValidPolicy(o.op.policy)
    ensures Near(m, o, k, rate, from, rate * 999)
    ensures Settled(m, k, rate, from) ==> Near(m, o, k, rate, from, 999)
  {
    if k in m && o.key == k && Refreshes(o.op) && Earned(o.op.policy.rate, m[k].lastRefill, o.op.now) == 0 {
      UnmovedIsNear(o.op.policy.rate, m[k].lastRefill, from, o.op.now);
      MulMonoRight(rate, from - m[k].lastRefill, 999);
    }
  }

  // A settled bucket keeps the bound however its policy changes.
  lemma SettledWindowBound(m: Buckets, capacity: nat, ops: seq<KeyedOp>, k: Key,
                           rate: nat, burst: nat, from: nat, to: nat)
    requires from <= to && Window(ops, k, rate, burst, from, to) && ValidPolicies(ops, k)
    requires Settled(m, k, rate, from)
    ensures 1000 * Net(m, capacity, ops, k) < 1000 * (burst + 1) + rate * (to - from)
  {
    forall i | 0 <= i < |ops| ensures Near(m, ops[i], k, rate, from, 999) {
      ValidIsNear(m, ops[i], k, rate, burst, from, to);
    }
    SlackBound(m, capacity, ops, k, rate, burst, from, to, 999);
  }

  // Settled or not, what a slow rate leaves behind is less than a second.
  lemma ChangingWindowBound(m: Buckets, capacity: nat, ops: seq<KeyedOp>, k: Key,
                            rate: nat, burst: nat, from: nat, to: nat)
    requires from <= to && Window(ops, k, rate, burst, from, to) && ValidPolicies(ops, k)
    ensures 1000 * Net(m, capacity, ops, k) <= 1000 * burst + rate * (to - from + 999)
  {
    forall i | 0 <= i < |ops| ensures Near(m, ops[i], k, rate, from, rate * 999) {
      ValidIsNear(m, ops[i], k, rate, burst, from, to);
    }
    SlackBound(m, capacity, ops, k, rate, burst, from, to, rate * 999);
    RateSplits(rate, 0, to - from, to - from + 999);
  }

  // The least rate takes the whole burst and leaves the timestamp behind; then the greatest rate takes
  // what the time left over is worth to it.
  function SlowThenFast(k: Key, last: EpochMillis, rate: WalBytes, burst: WalBytes, from: EpochMillis): seq<KeyedOp>
    requires last <= from <= last + 999 && rate <= burst
  {
    LeftoverFits(rate, from - last);
    var slow, fast := Policy(k.policyId, true, Reject, 1, burst), Policy(k.policyId, true, Reject, rate, burst);
    [KeyedOp(k, RejectOp(slow, burst, from)), KeyedOp(k, RejectOp(fast, rate * (from - last) / 1000, from))]
  }

  lemma LeftoverFits(rate: nat, d: nat)
    requires d <= 999
    ensures 0 <= rate * d / 1000 <= rate
  {
    MulMonoRight(rate, 0, d);
    MulMonoRight(rate, d, 1000);
  }

  lemma SlowTakesBurst(m: Buckets, capacity: nat, k: Key, p: Policy, from: EpochMillis)
    requires k in m && p.burst == m[k].available && p.rate == 1 && m[k].lastRefill <= from <= m[k].lastRefill + 999
    ensures var o := KeyedOp(k, RejectOp(p, p.burst, from));
      && k in Perform(m, capacity, o).0
      && Perform(m, capacity, o).0[k] == Bucket(0, p.burst, 1, m[k].lastRefill, m[k].debt)
      && ChargedTo(m, capacity, o, k) == p.burst
  {
    RefreshIsExact(m[k], p, from);
  }

  lemma FastTakesLeftover(m: Buckets, capacity: nat, k: Key, p: Policy, from: EpochMillis)
    requires k in m && m[k].available == 0 && p.rate <= p.burst && m[k].lastRefill <= from <= m[k].lastRefill + 999
    ensures 0 <= p.rate * (from - m[k].lastRefill) / 1000 <= p.rate
    ensures ChargedTo(m, capacity, KeyedOp(k, RejectOp(p, p.rate * (from - m[k].lastRefill) / 1000, from)), k)
         == p.rate * (from - m[k].lastRefill) / 1000
  {
    LeftoverFits(p.rate, from - m[k].lastRefill);
    RefreshIsExact(m[k], p, from);
  }

  // From a full bucket that is not settled, valid policies hand out more than the bound allows, at one
  // instant.
  lemma UnsettledBreaksWindow(m: Buckets, capacity: nat, k: Key, rate: WalBytes, burst: WalBytes, from: EpochMillis)
    requires k in m && m[k].available == burst && 1 <= rate <= burst <= I64_MAX
    requires !Settled(m, k, rate, from)
    ensures m[k].lastRefill <= from <= m[k].lastRefill + 999
    ensures var ops := SlowThenFast(k, m[k].lastRefill, rate, burst, from);
      && Window(ops, k, rate, burst, from, from) && ValidPolicies(ops, k)
      && Net(m, capacity, ops, k) == burst + rate * (from - m[k].lastRefill) / 1000
      && Net(m, capacity, ops, k) >= burst + 1
  {
    var last := m[k].lastRefill;
    if from < last {
      NegativeProduct(rate, from - last);
    }
    var ops := SlowThenFast(k, last, rate, burst, from);
    SlowTakesBurst(m, capacity, k, ops[0].op.policy, from);
    assert ops[..1] == [ops[0]] && [ops[0]][..0] == [];
    assert RunTable(m, capacity, []) == m && Net(m, capacity, [], k) == 0;
    assert RunTable(m, capacity, [ops[0]]) == Perform(m, capacity, ops[0]).0;
    assert Net(m, capacity, [ops[0]], k) == burst;
    FastTakesLeftover(RunTable(m, capacity, [ops[0]]), capacity, k, ops[1].op.policy, from);
    assert Net(m, capacity, ops, k)
        == burst + ChargedTo(RunTable(m, capacity, [ops[0]]), capacity, ops[1], k);
  }

  ghost predicate KeepsBound(m: Buckets, capacity: nat, ops: seq<KeyedOp>, k: Key,
                             rate: nat, burst: nat, from: nat, to: nat)
  {
    from <= to && Window(ops, k, rate, burst, from, to) && ValidPolicies(ops, k) ==>
      1000 * Net(m, capacity, ops, k) < 1000 * (burst + 1) + rate * (to - from)
  }

  // A full bucket keeps the bound over every schedule of valid policies exactly when it is settled.
  lemma WindowBoundIffSettled(m: Buckets, capacity: nat, k: Key, rate: WalBytes, burst: WalBytes, from: EpochMillis)
    requires k in m && m[k].available == burst && 1 <= rate <= burst <= I64_MAX
    ensures (forall ops, to: nat :: KeepsBound(m, capacity, ops, k, rate, burst, from, to))
       <==> Settled(m, k, rate, from)
  {
    if Settled(m, k, rate, from) {
      forall ops, to: nat ensures KeepsBound(m, capacity, ops, k, rate, burst, from, to) {
        if from <= to && Window(ops, k, rate, burst, from, to) && ValidPolicies(ops, k) {
          SettledWindowBound(m, capacity, ops, k, rate, burst, from, to);
        }
      }
    } else {
      UnsettledBreaksWindow(m, capacity, k, rate, burst, from);
      var ops := SlowThenFast(k, m[k].lastRefill, rate, burst, from);
      assert !KeepsBound(m, capacity, ops, k, rate, burst, from, from);
    }
  }

  // An instance: raising the rate from 1 to 1000 under a burst of 1000 hands out 1999 at one instant,
  // which is all that ChangingWindowBound allows.
  lemma RaisedRateBreaksWindow(m: Buckets, capacity: nat, k: Key)
    requires k in m && m[k] == Bucket(1000, 1000, 1, 0, 0)
    ensures var ops := SlowThenFast(k, 0, 1000, 1000, 999);
      && Window(ops, k, 1000, 1000, 999, 999) && ValidPolicies(ops, k)
      && Net(m, capacity, ops, k) == 1999
  {
    UnsettledBreaksWindow(m, capacity, k, 1000, 1000, 999);
  }

  // ----- Windows inside a run -----

  lemma {:induction false} NetConcat(m: Buckets, capacity: nat, xs: seq<KeyedOp>, ys: seq<KeyedOp>, k: Key)
    ensures Net(m, capacity, xs + ys, k)
         == Net(m, capacity, xs, k) + Net(RunTable(m, capacity, xs), capacity, ys, k)
  {
    if ys == [] {
      assert xs + ys == xs;
    } else {
      var front := ys[..|ys| - 1];
      NetConcat(m, capacity, xs, front, k);
      RunConcat(m, capacity, xs, front);
      assert (xs + ys)[..|xs + ys| - 1] == xs + front;
    }
  }
}
