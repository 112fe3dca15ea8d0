// The whole controller: many backends, each with its own statements in flight, over one table of
// buckets. Every step is one critical section of the shared lock, and steps of different backends
// interleave freely (src/shmem/mod.rs:296-330, src/lifecycle.rs, src/reconcile.rs:61-154).
module Ledger {
  import opened Numbers
  import opened Wrappers
  import opened Budget
  import opened BucketTable
  import opened RateBound
  import opened Lifecycle
  import opened Reconcile

  // Where a backend stands between the critical sections of a settlement.
  datatype Phase =
    | Idle
    | Counting(st: Statement, actual: WalBytes)
    | Settling(st: Statement, actual: WalBytes)
    | Undoing(rest: seq<Statement>)

  datatype Worker = Worker(session: Session, phase: Phase)

  // The history of the run, one entry a step.
  datatype Entry =
    | Opened(key: Key, burst: nat)
    | Refreshed(key: Key, earned: nat, lost: nat)
    | Completed(key: Key, charged: nat, actual: nat, lost: nat)
    | Undone(key: Key, charged: nat, lost: nat)
    | Kept(statements: seq<Statement>)
    | Counted(debt: nat)
    | CounterReset

  datatype System = System(
    buckets: Buckets, capacity: nat, workers: seq<Worker>, debtCounter: WalBytes,
    ops: seq<KeyedOp>, book: seq<Entry>)

  datatype Step =
    // A statement reaches admission: `policy` is the one in force for its scope. After an internal
    // error it runs uncharged when `failOpen` is set, and is refused otherwise.
    | AdmitStatement(hook: Hook, id: nat, policy: Option<Policy>, scope: ScopeHash,
                     predicted: WalBytes, now: EpochMillis, startWal: Option<WalBytes>, failOpen: bool)
    // A statement the hooks let by: disabled, bypassed, or read-only.
    | PassBy(hook: Hook)
    | CompleteStatement(call: nat, endWal: Option<WalBytes>)
    | CountDebt
    | SettleBudget
    | EndOfTransaction(ending: Ending, surviving: nat)
    | UndoNext
    | ResetStats

  // ----- Steps -----

  predicate StepEnabled(w: Worker, e: Step) {
    match e
    case AdmitStatement(_, _, _, _, _, _, _, _) => w.phase == Idle
    case PassBy(_) => w.phase == Idle
    case CompleteStatement(call, _) => w.phase == Idle && Enabled(w.session, Complete(call))
    case CountDebt => w.phase.Counting?
    case SettleBudget => w.phase.Settling?
    case EndOfTransaction(ending, surviving) => w.phase == Idle && Enabled(w.session, EndTransaction(ending, surviving))
    case UndoNext => w.phase.Undoing? && w.phase.rest != []
    case ResetStats => true
  }

  // What a kept operation did to its bucket, as a book entry.
  function OpEntry(m: Buckets, capacity: nat, o: KeyedOp): seq<Entry> {
    if !KeptRefresh(m, capacity, o, o.key) then []
    else
      var p := o.op.policy;
      if o.key !in m then [Opened(o.key, p.burst)]
      else
        var b := m[o.key];
        var earned := Earned(p.rate, b.lastRefill, o.op.now);
        var held := Min(b.available, p.burst);
        [Refreshed(o.key, earned, Excess(b.available, p.burst) + Excess(held + earned, p.burst))]
  }

  function Overflow(m: Buckets, k: Key, back: nat): nat {
    if k in m then Excess(m[k].available + back, m[k].maxBurst) else 0
  }

  function Log(o: Option<KeyedOp>): seq<KeyedOp> {
    if o.None? then [] else [o.value]
  }

  function AdmitStep(s: System, i: nat, e: Step): System
    requires i < |s.workers| && e.AdmitStatement?
  {
    var w := s.workers[i];
    var o := AdmissionOp(e.policy, e.scope, e.predicted, e.now);
    var own := match Admit(s.buckets, s.capacity, e.policy, e.scope, e.predicted, e.now)
      case Passed(d) => Some(Some(Statement(e.id, d, e.scope, e.startWal, e.predicted)))
      case InternalError => if e.failOpen then Some(None) else None
      case Rejection => None
      case Waiting(_) => None;
    s.(buckets := PerformMaybe(s.buckets, s.capacity, o),
       workers := if own.None? then s.workers
                  else s.workers[i := w.(session := Next(w.session, Start(e.hook, own.value)))],
       ops := s.ops + Log(o),
       book := s.book + if o.None? then [] else OpEntry(s.buckets, s.capacity, o.value))
  }

  // A completed statement without a measurement keeps its charge.
  function AfterPop(session: Session, popped: Option<Statement>, endWal: Option<WalBytes>): (Worker, seq<Entry>) {
    if popped.None? then
      (Worker(session, Idle), [])
    else
      var st := popped.value;
      if st.startWal.None? || endWal.None? then
        (Worker(session, Idle), [Kept([st])])
      else
        (Worker(session, Counting(st, WalDelta(st.startWal.value, endWal.value))), [])
  }

  function CompleteStep(s: System, i: nat, call: nat, endWal: Option<WalBytes>): System
    requires i < |s.workers| && Enabled(s.workers[i].session, Complete(call))
  {
    var session := s.workers[i].session;
    var (w, entries) := AfterPop(Next(session, Complete(call)), CompleteCall(session, call).1, endWal);
    s.(workers := s.workers[i := w], book := s.book + entries)
  }

  function CountStep(s: System, i: nat): System
    requires i < |s.workers| && s.workers[i].phase.Counting?
  {
    var w := s.workers[i];
    var debt := DebtBytes(w.phase.st, w.phase.actual);
    s.(debtCounter := SaturatingAdd(s.debtCounter, debt),
       workers := s.workers[i := w.(phase := Settling(w.phase.st, w.phase.actual))],
       book := s.book + [Counted(debt)])
  }

  function SettleStep(s: System, i: nat): System
    requires i < |s.workers| && s.workers[i].phase.Settling?
  {
    var w := s.workers[i];
    var st, actual := w.phase.st, w.phase.actual;
    var k, charged := ChargeKey(st), st.decision.charged;
    s.(buckets := PerformMaybe(s.buckets, s.capacity, SettleOp(st, actual)),
       workers := s.workers[i := w.(phase := Idle)],
       ops := s.ops + Log(SettleOp(st, actual)),
       book := s.book + if k.None? then []
                        else
                          var lost := Overflow(s.buckets, k.value, Excess(charged, actual));
                          [Completed(k.value, charged, actual, lost)])
  }

  // A commit keeps the charges of what it drains; an abort goes on to undo them one by one.
  function AfterDrain(session: Session, drained: seq<Statement>, aborts: bool): (Worker, seq<Entry>) {
    if aborts && drained != [] then (Worker(session, Undoing(drained)), [])
    else (Worker(session, Idle), [Kept(drained)])
  }

  function EndStep(s: System, i: nat, ending: Ending, surviving: nat): System
    requires i < |s.workers| && Enabled(s.workers[i].session, EndTransaction(ending, surviving))
  {
    if !Ends(ending) then s
    else
      var session := s.workers[i].session;
      var (w, entries) := AfterDrain(Next(session, EndTransaction(ending, surviving)),
                                     Reversed(session.stacks.active), Aborts(ending));
      s.(workers := s.workers[i := w], book := s.book + entries)
  }

  function UndoStep(s: System, i: nat): System
    requires i < |s.workers| && s.workers[i].phase.Undoing? && s.workers[i].phase.rest != []
  {
    var w := s.workers[i];
    var st, rest := w.phase.rest[0], w.phase.rest[1..];
    var k := ChargeKey(st);
    s.(buckets := PerformMaybe(s.buckets, s.capacity, UndoOp(st)),
       workers := s.workers[i := w.(phase := if rest == [] then Idle else Undoing(rest))],
       ops := s.ops + Log(UndoOp(st)),
       book := s.book + if k.None? then []
                        else [Undone(k.value, st.decision.charged, Overflow(s.buckets, k.value, st.decision.charged))])
  }

  function SystemNext(s: System, i: nat, e: Step): System
    requires i < |s.workers| && StepEnabled(s.workers[i], e)
  {
    var w := s.workers[i];
    match e
    case AdmitStatement(_, _, _, _, _, _, _, _) => AdmitStep(s, i, e)
    case PassBy(hook) => s.(workers := s.workers[i := w.(session := Next(w.session, Start(hook, None)))])
    case CompleteStatement(call, endWal) => CompleteStep(s, i, call, endWal)
    case CountDebt => CountStep(s, i)
    case SettleBudget => SettleStep(s, i)
    case EndOfTransaction(ending, surviving) => EndStep(s, i, ending, surviving)
    case UndoNext => UndoStep(s, i)
    case ResetStats => s.(debtCounter := 0, book := s.book + [CounterReset])
  }

  datatype Turn = Turn(worker: nat, step: Step)

  ghost predicate ValidTurns(s: System, turns: seq<Turn>)
    decreases |turns|
  {
    turns != [] ==>
      && turns[0].worker < |s.workers|
      && StepEnabled(s.workers[turns[0].worker], turns[0].step)
      && ValidTurns(SystemNext(s, turns[0].worker, turns[0].step), turns[1..])
  }

  ghost function RunSystem(s: System, turns: seq<Turn>): System
    requires ValidTurns(s, turns)
    decreases |turns|
  {
    if turns == [] then s else RunSystem(SystemNext(s, turns[0].worker, turns[0].step), turns[1..])
  }

  function Initial(backends: nat, capacity: nat): System {
    System(map[], capacity, seq(backends, _ => Worker(FRESH_SESSION, Idle)), 0, [], [])
  }

  // ----- Sums -----

  function ChargeSum(sts: seq<Statement>, k: Key): nat {
    if sts == [] then 0 else ChargeSum(sts[..|sts| - 1], k) + ChargeOn(sts[|sts| - 1], k)
  }

  function PhaseCharge(p: Phase, k: Key): nat {
    match p
    case Idle => 0
    case Counting(st, _) => ChargeOn(st, k)
    case Settling(st, _) => ChargeOn(st, k)
    case Undoing(rest) => ChargeSum(rest, k)
  }

  function WorkerCharge(w: Worker, k: Key): nat {
    ChargeSum(w.session.stacks.active, k) + PhaseCharge(w.phase, k)
  }

  // The bytes charged to `k` by statements still in flight, over all backends.
  function InFlight(ws: seq<Worker>, k: Key): nat {
    if ws == [] then 0 else InFlight(ws[..|ws| - 1], k) + WorkerCharge(ws[|ws| - 1], k)
  }

  datatype Tally = Tally(opening: nat, earned: nat, lost: nat, spent: nat, kept: nat, debt: nat)

  function Tallied(t: Tally, e: Entry, k: Key): Tally {
    match e
    case Opened(key, burst) => if key == k then t.(opening := t.opening + burst) else t
    case Refreshed(key, earned, lost) =>
      if key == k then t.(earned := t.earned + earned, lost := t.lost + lost) else t
    case Completed(key, charged, actual, lost) =>
      if key == k then t.(spent := t.spent + Min(charged, actual), lost := t.lost + lost,
                          debt := t.debt + Excess(actual, charged)) else t
    case Undone(key, charged, lost) => if key == k then t.(lost := t.lost + lost) else t
    case Kept(sts) => t.(kept := t.kept + ChargeSum(sts, k))
    case Counted(_) => t
    case CounterReset => t
  }

  // What the book says of bucket `k`: its opening burst, earned refills, bytes a clamp cut off, the
  // used part of settled charges, charges kept without a measurement, and debt.
  function TallyOf(book: seq<Entry>, k: Key): Tally {
    if book == [] then Tally(0, 0, 0, 0, 0, 0)
    else Tallied(TallyOf(book[..|book| - 1], k), book[|book| - 1], k)
  }

  lemma TallyAppend(book: seq<Entry>, e: Entry, k: Key)
    ensures TallyOf(book + [e], k) == Tallied(TallyOf(book, k), e, k)
    ensures TallyOf(book + [], k) == TallyOf(book, k)
  {
    assert (book + [e])[..|book|] == book && book + [] == book;
  }

  lemma {:induction false} InFlightUpdate(ws: seq<Worker>, i: nat, w: Worker, k: Key)
    requires i < |ws|
    ensures InFlight(ws[i := w], k) == InFlight(ws, k) - WorkerCharge(ws[i], k) + WorkerCharge(w, k)
  {
    var n := |ws| - 1;
    if i < n {
      InFlightUpdate(ws[..n], i, w, k);
      assert ws[i := w][..n] == ws[..n][i := w];
    } else {
      assert ws[i := w][..n] == ws[..n];
    }
  }

  lemma {:induction false} InFlightMember(ws: seq<Worker>, i: nat, k: Key)
    requires i < |ws|
    ensures WorkerCharge(ws[i], k) <= InFlight(ws, k)
  {
    if i < |ws| - 1 {
      InFlightMember(ws[..|ws| - 1], i, k);
    }
  }

  lemma {:induction false} ChargeSumConcat(a: seq<Statement>, b: seq<Statement>, k: Key)
    ensures ChargeSum(a + b, k) == ChargeSum(a, k) + ChargeSum(b, k)
  {
    if b == [] {
      assert a + b == a;
    } else {
      ChargeSumConcat(a, b[..|b| - 1], k);
      assert (a + b)[..|a + b| - 1] == a + b[..|b| - 1];
    }
  }

  lemma ChargeSumOne(st: Statement, k: Key)
    ensures ChargeSum([st], k) == ChargeOn(st, k)
  {
    assert [st][..0] == [];
  }

  lemma {:induction false} ChargeSumReversed(s: seq<Statement>, k: Key)
    ensures ChargeSum(Reversed(s), k) == ChargeSum(s, k)
  {
    if s != [] {
      var n := |s| - 1;
      ChargeSumReversed(s[..n], k);
      ChargeSumConcat([s[n]], Reversed(s[..n]), k);
      ChargeSumOne(s[n], k);
    }
  }

  // ----- The balance of one bucket -----

  // Everything a bucket ever received is still there, was cut off by a clamp, was used, was kept, or
  // is in flight; a bucket that does not exist has nothing in flight.
  ghost predicate Balanced(s: System, k: Key) {
    var t := TallyOf(s.book, k);
    if k in s.buckets then
      && WithinBurst(s.buckets[k])
      && s.buckets[k].available + t.lost + t.spent + t.kept + InFlight(s.workers, k) == t.opening + t.earned
      && s.buckets[k].debt == Min(t.debt, U64_MAX)
    else
      t == Tally(0, 0, 0, 0, 0, 0) && InFlight(s.workers, k) == 0
  }

  lemma StartCharge(session: Session, hook: Hook, own: Option<Statement>, k: Key)
    ensures ChargeSum(Next(session, Start(hook, own)).stacks.active, k)
         == ChargeSum(session.stacks.active, k) + if own.Some? then ChargeOn(own.value, k) else 0
  {
    if own.Some? {
      ChargeSumConcat(session.stacks.active, [own.value], k);
      ChargeSumOne(own.value, k);
    }
  }

  lemma PoppedCharge(session: Session, call: nat, k: Key)
    requires Enabled(session, Complete(call))
    ensures var (stacks, popped) := CompleteCall(session, call);
      ChargeSum(session.stacks.active, k)
        == ChargeSum(stacks.active, k) + if popped.Some? then ChargeOn(popped.value, k) else 0
  {
    PoppedLeavesStack(session, call);
    var (stacks, popped) := CompleteCall(session, call);
    if popped.Some? {
      ChargeSumConcat(stacks.active, [popped.value], k);
      ChargeSumOne(popped.value, k);
    }
  }

  // What an operation's book entry adds to the tally of bucket k.
  lemma OpEntryTally(m: Buckets, capacity: nat, o: KeyedOp, book: seq<Entry>, k: Key)
    requires Refreshes(o.op)
    ensures var entry := OpEntry(m, capacity, o);
      TallyOf(book + entry, k) == if entry == [] then TallyOf(book, k) else Tallied(TallyOf(book, k), entry[0], k)
  {
    var entry := OpEntry(m, capacity, o);
    TallyAppend(book, if entry == [] then CounterReset else entry[0], k);
    if entry != [] {
      assert entry == [entry[0]];
    }
  }

  // A refreshing operation and its book entry agree on every bucket.
  lemma OpEntryBalances(m: Buckets, capacity: nat, o: KeyedOp, book: seq<Entry>, k: Key)
    requires Refreshes(o.op) && (k in m ==> WithinBurst(m[k]))
    ensures var m' := Perform(m, capacity, o).0;
      var t, t' := TallyOf(book, k), TallyOf(book + OpEntry(m, capacity, o), k);
      && t' == t.(opening := t'.opening, earned := t'.earned, lost := t'.lost)
      && if k in m' then
           && WithinBurst(m'[k]) && m'[k].debt == (if k in m then m[k].debt else 0)
           && m'[k].available + ChargedTo(m, capacity, o, k) + t'.lost - t.lost
              == (if k in m then m[k].available else 0) + t'.opening - t.opening + t'.earned - t.earned
         else k !in m && t' == t && ChargedTo(m, capacity, o, k) == 0
  {
    OpEntryTally(m, capacity, o, book, k);
    StepOnBucket(m, capacity, o, k);
    if KeptRefresh(m, capacity, o, k) {
      RefreshIsExact(Origin(m, o, k), o.op.policy, o.op.now);
    } else {
      RefreshLeavesOthers(m, capacity, o, k);
    }
  }

  lemma RefreshLeavesOthers(m: Buckets, capacity: nat, o: KeyedOp, k: Key)
    requires Refreshes(o.op) && !KeptRefresh(m, capacity, o, k)
    ensures k in Perform(m, capacity, o).0 <==> k in m
    ensures k in m ==> Perform(m, capacity, o).0[k] == m[k]
    ensures OpEntry(m, capacity, o) == [] || o.key != k
  {
  }

  // A step of one worker that leaves the buckets and moves its charges keeps every balance.
  lemma MoveBalanced(s: System, t: System, i: nat, k: Key)
    requires i < |s.workers| == |t.workers| && t.workers == s.workers[i := t.workers[i]]
    requires t.buckets == s.buckets && Balanced(s, k)
    requires TallyOf(t.book, k) == TallyOf(s.book, k).(kept := TallyOf(t.book, k).kept)
    requires WorkerCharge(s.workers[i], k) + TallyOf(s.book, k).kept
          == WorkerCharge(t.workers[i], k) + TallyOf(t.book, k).kept
    ensures Balanced(t, k)
  {
    InFlightUpdate(s.workers, i, t.workers[i], k);
    if k !in s.buckets {
      InFlightMember(s.workers, i, k);
    }
  }

  lemma AdmitCharges(s: System, i: nat, e: Step, k: Key)
    requires i < |s.workers| && e.AdmitStatement?
    ensures InFlight(AdmitStep(s, i, e).workers, k)
         == InFlight(s.workers, k)
            + TakenBy(s.buckets, s.capacity, AdmissionOp(e.policy, e.scope, e.predicted, e.now), k)
  {
    var w := s.workers[i];
    var a := Admit(s.buckets, s.capacity, e.policy, e.scope, e.predicted, e.now);
    var d := if a.Passed? then a.decision else AllowedDecision(0, 0, BudgetAvailable, 0, 0);
    var st := Statement(e.id, d, e.scope, e.startWal, e.predicted);
    ChargeIsWhatWasTaken(s.buckets, s.capacity, e.policy, e.scope, e.predicted, e.now, st, k);
    var own := if a.Passed? then Some(st) else None;
    StartCharge(w.session, e.hook, own, k);
    InFlightUpdate(s.workers, i, w.(session := Next(w.session, Start(e.hook, own))), k);
  }

  // What an admission does to one bucket's account: the balance and the tallies before and after, and
  // the bytes in flight.
  lemma AccountMoves(before: nat, t: Tally, flight: nat, taken: nat, after: nat, t': Tally, flight': nat)
    requires before + t.lost + t.spent + t.kept + flight == t.opening + t.earned
    requires t' == t.(opening := t'.opening, earned := t'.earned, lost := t'.lost)
    requires flight' == flight + taken
    requires after + taken + t'.lost - t.lost == before + t'.opening - t.opening + t'.earned - t.earned
    ensures after + t'.lost + t'.spent + t'.kept + flight' == t'.opening + t'.earned
    ensures t'.debt == t.debt
  {
  }

  lemma OpBalanced(s: System, t: System, o: KeyedOp, k: Key)
    requires Refreshes(o.op) && Balanced(s, k)
    requires t.buckets == Perform(s.buckets, s.capacity, o).0
    requires t.book == s.book + OpEntry(s.buckets, s.capacity, o)
    requires InFlight(t.workers, k) == InFlight(s.workers, k) + ChargedTo(s.buckets, s.capacity, o, k)
    ensures Balanced(t, k)
  {
    OpEntryBalances(s.buckets, s.capacity, o, s.book, k);
    if k in t.buckets {
      AccountMoves(if k in s.buckets then s.buckets[k].available else 0, TallyOf(s.book, k), InFlight(s.workers, k),
                   ChargedTo(s.buckets, s.capacity, o, k), t.buckets[k].available, TallyOf(t.book, k),
                   InFlight(t.workers, k));
    }
  }

  lemma AdmitBalanced(s: System, i: nat, e: Step, k: Key)
    requires i < |s.workers| && e.AdmitStatement? && Balanced(s, k)
    ensures Balanced(AdmitStep(s, i, e), k)
  {
    AdmitCharges(s, i, e, k);
    var o := AdmissionOp(e.policy, e.scope, e.predicted, e.now);
    if o.Some? {
      OpBalanced(s, AdmitStep(s, i, e), o.value, k);
    } else {
      assert s.book + [] == s.book;
    }
  }

  // Taking the statement off the stack moves its charge to the settlement, or to the kept ones.
  lemma PopMovesCharge(session: Session, popped: Option<Statement>, endWal: Option<WalBytes>, book: seq<Entry>, k: Key)
    ensures var (w, entries) := AfterPop(session, popped, endWal);
      var t, t' := TallyOf(book, k), TallyOf(book + entries, k);
      && t' == t.(kept := t'.kept)
      && ChargeSum(session.stacks.active, k) + (if popped.Some? then ChargeOn(popped.value, k) else 0)
         == WorkerCharge(w, k) + t'.kept - t.kept
  {
    var (w, entries) := AfterPop(session, popped, endWal);
    if entries == [] {
      assert book + entries == book;
    } else {
      ChargeSumOne(popped.value, k);
      assert entries == [Kept([popped.value])];
      TallyAppend(book, Kept([popped.value]), k);
    }
  }

  lemma CompleteBalanced(s: System, i: nat, call: nat, endWal: Option<WalBytes>, k: Key)
    requires i < |s.workers| && Enabled(s.workers[i].session, Complete(call))
    requires s.workers[i].phase == Idle && Balanced(s, k)
    ensures Balanced(CompleteStep(s, i, call, endWal), k)
  {
    var session := s.workers[i].session;
    PoppedCharge(session, call, k);
    PopMovesCharge(Next(session, Complete(call)), CompleteCall(session, call).1, endWal, s.book, k);
    MoveBalanced(s, CompleteStep(s, i, call, endWal), i, k);
  }

  lemma CountBalanced(s: System, i: nat, k: Key)
    requires i < |s.workers| && s.workers[i].phase.Counting? && Balanced(s, k)
    ensures Balanced(CountStep(s, i), k)
  {
    TallyAppend(s.book, Counted(DebtBytes(s.workers[i].phase.st, s.workers[i].phase.actual)), k);
    MoveBalanced(s, CountStep(s, i), i, k);
  }

  // A settlement finds its bucket: the statement it settles is still in flight.
  lemma SettlementFindsBucket(s: System, i: nat, st: Statement, k: Key)
    requires i < |s.workers| && Balanced(s, k) && ChargeKey(st) == Some(k)
    requires WorkerCharge(s.workers[i], k) >= ChargeOn(st, k)
    ensures k in s.buckets && WithinBurst(s.buckets[k])
  {
    InFlightMember(s.workers, i, k);
  }

  // What a settlement does to its own bucket.
  lemma SettleOwn(s: System, i: nat, k: Key)
    requires i < |s.workers| && s.workers[i].phase.Settling? && Balanced(s, k)
    requires ChargeKey(s.workers[i].phase.st) == Some(k)
    ensures Balanced(SettleStep(s, i), k)
  {
    var st, actual := s.workers[i].phase.st, s.workers[i].phase.actual;
    var charged := st.decision.charged;
    InFlightUpdate(s.workers, i, SettleStep(s, i).workers[i], k);
    SettlementFindsBucket(s, i, st, k);
    SettleEffect(s.buckets, s.capacity, st, actual, k);
    TallyAppend(s.book, Completed(k, charged, actual, Overflow(s.buckets, k, Excess(charged, actual))), k);
  }

  // A settlement leaves every other bucket, its tally and what is in flight on it.
  lemma SettleOther(s: System, i: nat, k: Key)
    requires i < |s.workers| && s.workers[i].phase.Settling? && Balanced(s, k)
    requires ChargeKey(s.workers[i].phase.st) != Some(k)
    requires forall q :: Balanced(s, q)
    ensures Balanced(SettleStep(s, i), k)
  {
    var st, actual := s.workers[i].phase.st, s.workers[i].phase.actual;
    var t, key := SettleStep(s, i), ChargeKey(st);
    InFlightUpdate(s.workers, i, t.workers[i], k);
    if key.Some? {
      assert Balanced(s, key.value);
      SettlementFindsBucket(s, i, st, key.value);
      SettleEffect(s.buckets, s.capacity, st, actual, key.value);
      TallyAppend(s.book, t.book[|s.book|], k);
    } else {
      TallyAppend(s.book, CounterReset, k);
    }
  }

  lemma SettleBalanced(s: System, i: nat, k: Key)
    requires i < |s.workers| && s.workers[i].phase.Settling?
    requires forall q :: Balanced(s, q)
    ensures Balanced(SettleStep(s, i), k)
  {
    assert Balanced(s, k);
    if ChargeKey(s.workers[i].phase.st) == Some(k) {
      SettleOwn(s, i, k);
    } else {
      SettleOther(s, i, k);
    }
  }

  lemma ChargeSumFirst(rest: seq<Statement>, k: Key)
    requires rest != []
    ensures ChargeSum(rest, k) == ChargeOn(rest[0], k) + ChargeSum(rest[1..], k)
  {
    assert rest == [rest[0]] + rest[1..];
    ChargeSumConcat([rest[0]], rest[1..], k);
    ChargeSumOne(rest[0], k);
  }

  // An undo takes its statement's charge out of flight.
  lemma UndoFlight(s: System, i: nat, k: Key)
    requires i < |s.workers| && s.workers[i].phase.Undoing? && s.workers[i].phase.rest != []
    ensures InFlight(UndoStep(s, i).workers, k) == InFlight(s.workers, k) - ChargeOn(s.workers[i].phase.rest[0], k)
    ensures ChargeOn(s.workers[i].phase.rest[0], k) <= WorkerCharge(s.workers[i], k)
  {
    InFlightUpdate(s.workers, i, UndoStep(s, i).workers[i], k);
    ChargeSumFirst(s.workers[i].phase.rest, k);
  }

  lemma UndoOwn(s: System, i: nat, k: Key)
    requires i < |s.workers| && s.workers[i].phase.Undoing? && s.workers[i].phase.rest != [] && Balanced(s, k)
    requires ChargeKey(s.workers[i].phase.rest[0]) == Some(k)
    ensures Balanced(UndoStep(s, i), k)
  {
    var st := s.workers[i].phase.rest[0];
    UndoFlight(s, i, k);
    SettlementFindsBucket(s, i, st, k);
    UndoEffect(s.buckets, s.capacity, st, k);
    TallyAppend(s.book, Undone(k, st.decision.charged, Overflow(s.buckets, k, st.decision.charged)), k);
  }

  // An undo leaves every other bucket and its tally.
  lemma UndoLeavesOther(s: System, i: nat, k: Key)
    requires i < |s.workers| && s.workers[i].phase.Undoing? && s.workers[i].phase.rest != []
    requires ChargeKey(s.workers[i].phase.rest[0]) != Some(k)
    requires forall q :: Balanced(s, q)
    ensures var t := UndoStep(s, i);
      && (k in t.buckets <==> k in s.buckets) && (k in s.buckets ==> t.buckets[k] == s.buckets[k])
      && TallyOf(t.book, k) == TallyOf(s.book, k)
  {
    var st, t := s.workers[i].phase.rest[0], UndoStep(s, i);
    var key := ChargeKey(st);
    if key.Some? {
      assert Balanced(s, key.value);
      UndoFlight(s, i, key.value);
      SettlementFindsBucket(s, i, st, key.value);
      UndoEffect(s.buckets, s.capacity, st, key.value);
      TallyAppend(s.book, t.book[|s.book|], k);
    } else {
      TallyAppend(s.book, CounterReset, k);
    }
  }

  lemma UndoOther(s: System, i: nat, k: Key)
    requires i < |s.workers| && s.workers[i].phase.Undoing? && s.workers[i].phase.rest != [] && Balanced(s, k)
    requires ChargeKey(s.workers[i].phase.rest[0]) != Some(k)
    requires forall q :: Balanced(s, q)
    ensures Balanced(UndoStep(s, i), k)
  {
    UndoFlight(s, i, k);
    UndoLeavesOther(s, i, k);
  }

  lemma UndoBalanced(s: System, i: nat, k: Key)
    requires i < |s.workers| && s.workers[i].phase.Undoing? && s.workers[i].phase.rest != []
    requires forall q :: Balanced(s, q)
    ensures Balanced(UndoStep(s, i), k)
  {
    assert Balanced(s, k);
    if ChargeKey(s.workers[i].phase.rest[0]) == Some(k) {
      UndoOwn(s, i, k);
    } else {
      UndoOther(s, i, k);
    }
  }

  lemma DrainMovesCharge(session: Session, drained: seq<Statement>, aborts: bool, book: seq<Entry>, k: Key)
    requires session.stacks.active == []
    ensures var (w, entries) := AfterDrain(session, drained, aborts);
      var t, t' := TallyOf(book, k), TallyOf(book + entries, k);
      && t' == t.(kept := t'.kept)
      && ChargeSum(drained, k) == WorkerCharge(w, k) + t'.kept - t.kept
  {
    TallyAppend(book, Kept(drained), k);
    var (w, entries) := AfterDrain(session, drained, aborts);
    assert ChargeSum(session.stacks.active, k) == 0;
    if aborts && drained != [] {
      assert entries == [];
    } else {
      assert entries == [Kept(drained)];
    }
  }

  lemma EndBalanced(s: System, i: nat, ending: Ending, surviving: nat, k: Key)
    requires i < |s.workers| && Enabled(s.workers[i].session, EndTransaction(ending, surviving))
    requires s.workers[i].phase == Idle && Balanced(s, k)
    ensures Balanced(EndStep(s, i, ending, surviving), k)
  {
    var session := s.workers[i].session;
    if Ends(ending) {
      ChargeSumReversed(session.stacks.active, k);
      DrainMovesCharge(Next(session, EndTransaction(ending, surviving)),
                       Reversed(session.stacks.active), Aborts(ending), s.book, k);
      MoveBalanced(s, EndStep(s, i, ending, surviving), i, k);
    }
  }

  // ----- Every reachable state -----

  ghost predicate Sound(s: System) {
    && (forall i :: 0 <= i < |s.workers| ==> Accounted(s.workers[i].session))
    && (forall k :: Balanced(s, k))
    && s.buckets == RunTable(map[], s.capacity, s.ops)
  }

  lemma StepBalanced(s: System, i: nat, e: Step, k: Key)
    requires i < |s.workers| && StepEnabled(s.workers[i], e)
    requires forall q :: Balanced(s, q)
    ensures Balanced(SystemNext(s, i, e), k)
  {
    assert Balanced(s, k);
    match e {
      case AdmitStatement(_, _, _, _, _, _, _, _) => AdmitBalanced(s, i, e, k);
      case PassBy(hook) =>
        StartCharge(s.workers[i].session, hook, None, k);
        MoveBalanced(s, SystemNext(s, i, e), i, k);
      case CompleteStatement(call, endWal) => CompleteBalanced(s, i, call, endWal, k);
      case CountDebt => CountBalanced(s, i, k);
      case SettleBudget => SettleBalanced(s, i, k);
      case EndOfTransaction(ending, surviving) => EndBalanced(s, i, ending, surviving, k);
      case UndoNext => UndoBalanced(s, i, k);
      case ResetStats => TallyAppend(s.book, CounterReset, k);
    }
  }

  lemma LogAppend(capacity: nat, ops: seq<KeyedOp>, o: Option<KeyedOp>)
    ensures RunTable(map[], capacity, ops + Log(o)) == PerformMaybe(RunTable(map[], capacity, ops), capacity, o)
  {
    if o.None? {
      assert ops + Log(o) == ops;
    } else {
      assert (ops + [o.value])[..|ops|] == ops;
    }
  }

  lemma StepLogged(s: System, i: nat, e: Step)
    requires i < |s.workers| && StepEnabled(s.workers[i], e)
    requires s.buckets == RunTable(map[], s.capacity, s.ops)
    ensures var t := SystemNext(s, i, e);
      t.capacity == s.capacity && t.buckets == RunTable(map[], t.capacity, t.ops)
  {
    match e {
      case SettleBudget => LogAppend(s.capacity, s.ops, SettleOp(s.workers[i].phase.st, s.workers[i].phase.actual));
      case UndoNext => LogAppend(s.capacity, s.ops, UndoOp(s.workers[i].phase.rest[0]));
      case AdmitStatement(_, _, _, _, _, _, _, _) =>
        LogAppend(s.capacity, s.ops, AdmissionOp(e.policy, e.scope, e.predicted, e.now));
      case _ =>
    }
  }

  lemma AdmitAccounted(s: System, i: nat, e: Step)
    requires i < |s.workers| && e.AdmitStatement? && Accounted(s.workers[i].session)
    ensures var t := AdmitStep(s, i, e);
      |t.workers| == |s.workers| && t.workers == s.workers[i := t.workers[i]] && Accounted(t.workers[i].session)
  {
    var session := s.workers[i].session;
    var a := Admit(s.buckets, s.capacity, e.policy, e.scope, e.predicted, e.now);
    StartKeepsAccounted(session, e.hook, None);
    if a.Passed? {
      StartKeepsAccounted(session, e.hook, Some(Statement(e.id, a.decision, e.scope, e.startWal, e.predicted)));
    }
  }

  lemma CompleteAccounted(s: System, i: nat, call: nat, endWal: Option<WalBytes>)
    requires i < |s.workers| && Enabled(s.workers[i].session, Complete(call)) && Accounted(s.workers[i].session)
    ensures var t := CompleteStep(s, i, call, endWal);
      |t.workers| == |s.workers| && t.workers == s.workers[i := t.workers[i]] && Accounted(t.workers[i].session)
  {
    CompleteKeepsAccounted(s.workers[i].session, call);
  }

  lemma EndAccounted(s: System, i: nat, ending: Ending, surviving: nat)
    requires i < |s.workers| && Enabled(s.workers[i].session, EndTransaction(ending, surviving))
    requires Accounted(s.workers[i].session)
    ensures var t := EndStep(s, i, ending, surviving);
      |t.workers| == |s.workers| && t.workers == s.workers[i := t.workers[i]] && Accounted(t.workers[i].session)
  {
    StepKeepsAccounted(s.workers[i].session, EndTransaction(ending, surviving));
  }

  lemma SessionAccounted(s: System, i: nat, e: Step)
    requires i < |s.workers| && StepEnabled(s.workers[i], e) && Accounted(s.workers[i].session)
    ensures var t := SystemNext(s, i, e);
      |t.workers| == |s.workers| && t.workers == s.workers[i := t.workers[i]] && Accounted(t.workers[i].session)
  {
    match e {
      case AdmitStatement(_, _, _, _, _, _, _, _) => AdmitAccounted(s, i, e);
      case PassBy(hook) => StartKeepsAccounted(s.workers[i].session, hook, None);
      case CompleteStatement(call, endWal) => CompleteAccounted(s, i, call, endWal);
      case EndOfTransaction(ending, surviving) => EndAccounted(s, i, ending, surviving);
      case _ =>
    }
  }

  lemma StepAccounted(s: System, i: nat, e: Step)
    requires i < |s.workers| && StepEnabled(s.workers[i], e)
    requires forall j :: 0 <= j < |s.workers| ==> Accounted(s.workers[j].session)
    ensures var t := SystemNext(s, i, e);
      |t.workers| == |s.workers| && forall j :: 0 <= j < |t.workers| ==> Accounted(t.workers[j].session)
  {
    SessionAccounted(s, i, e);
  }

  lemma StepSound(s: System, i: nat, e: Step)
    requires i < |s.workers| && StepEnabled(s.workers[i], e) && Sound(s)
    ensures Sound(SystemNext(s, i, e))
  {
    StepAccounted(s, i, e);
    StepLogged(s, i, e);
    forall k ensures Balanced(SystemNext(s, i, e), k) {
      StepBalanced(s, i, e, k);
    }
  }

  lemma {:induction false} RunSound(s: System, turns: seq<Turn>)
    requires Sound(s) && ValidTurns(s, turns)
    ensures Sound(RunSystem(s, turns))
    decreases |turns|
  {
    if turns != [] {
      StepSound(s, turns[0].worker, turns[0].step);
      RunSound(SystemNext(s, turns[0].worker, turns[0].step), turns[1..]);
    }
  }

  lemma {:induction false} NothingInFlight(ws: seq<Worker>, k: Key)
    requires forall i :: 0 <= i < |ws| ==> ws[i] == Worker(FRESH_SESSION, Idle)
    ensures InFlight(ws, k) == 0
  {
    if ws != [] {
      NothingInFlight(ws[..|ws| - 1], k);
    }
  }

  lemma InitiallySound(backends: nat, capacity: nat)
    ensures Sound(Initial(backends, capacity))
  {
    forall k ensures Balanced(Initial(backends, capacity), k) {
      NothingInFlight(Initial(backends, capacity).workers, k);
    }
  }
}
