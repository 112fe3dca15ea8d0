// What holds in every state that any interleaving of backends can reach.
module LedgerTheorems {
  import opened Numbers
  import opened Budget
  import opened BucketTable
  import opened Wrappers
  import opened RateBound
  import opened Lifecycle
  import opened Reconcile
  import opened Ledger

  lemma Reached(backends: nat, capacity: nat, turns: seq<Turn>)
    requires ValidTurns(Initial(backends, capacity), turns)
    ensures Sound(RunSystem(Initial(backends, capacity), turns))
  {
    InitiallySound(backends, capacity);
    RunSound(Initial(backends, capacity), turns);
  }

  // A bucket's available bytes are its opening burst and refills, less what clamps cut off, less the
  // used part of settled charges, less charges kept or in flight; its debt is the sum of what settled
  // charges ran over, up to the 64-bit limit.
  lemma BucketLedger(backends: nat, capacity: nat, turns: seq<Turn>, k: Key)
    requires ValidTurns(Initial(backends, capacity), turns)
    ensures var s := RunSystem(Initial(backends, capacity), turns);
      var t := TallyOf(s.book, k);
      k in s.buckets ==>
        && s.buckets[k].available
           == t.opening + t.earned - t.lost - t.spent - t.kept - InFlight(s.workers, k)
        && s.buckets[k].available <= s.buckets[k].maxBurst
        && s.buckets[k].debt == Min(t.debt, U64_MAX)
  {
    Reached(backends, capacity, turns);
    assert Balanced(RunSystem(Initial(backends, capacity), turns), k);
  }

  // ----- What the book says of refills -----

  // The burst an operation opens bucket k with, and what its refresh of bucket k earns.
  function OpensWith(m: Buckets, capacity: nat, o: KeyedOp, k: Key): nat {
    if KeptRefresh(m, capacity, o, k) && k !in m then o.op.policy.burst else 0
  }

  function EarnsOn(m: Buckets, capacity: nat, o: KeyedOp, k: Key): nat {
    if KeptRefresh(m, capacity, o, k) && k in m then Earned(o.op.policy.rate, m[k].lastRefill, o.op.now) else 0
  }

  // The same over a run of operations.
  function OpenedOver(capacity: nat, ops: seq<KeyedOp>, k: Key): nat {
    if ops == [] then 0
    else
      var (before, o) := (ops[..|ops| - 1], ops[|ops| - 1]);
      OpenedOver(capacity, before, k) + OpensWith(RunTable(map[], capacity, before), capacity, o, k)
  }

  function EarnedOver(capacity: nat, ops: seq<KeyedOp>, k: Key): nat {
    if ops == [] then 0
    else
      var (before, o) := (ops[..|ops| - 1], ops[|ops| - 1]);
      EarnedOver(capacity, before, k) + EarnsOn(RunTable(map[], capacity, before), capacity, o, k)
  }

  ghost predicate Agree(book: seq<Entry>, capacity: nat, ops: seq<KeyedOp>, k: Key) {
    && TallyOf(book, k).opening == OpenedOver(capacity, ops, k)
    && TallyOf(book, k).earned == EarnedOver(capacity, ops, k)
  }

  ghost predicate BookAgrees(s: System, k: Key) {
    s.buckets == RunTable(map[], s.capacity, s.ops) && Agree(s.book, s.capacity, s.ops, k)
  }

  lemma OneMoreOp(capacity: nat, ops: seq<KeyedOp>, o: KeyedOp, k: Key)
    ensures var m := RunTable(map[], capacity, ops);
      && OpenedOver(capacity, ops + [o], k) == OpenedOver(capacity, ops, k) + OpensWith(m, capacity, o, k)
      && EarnedOver(capacity, ops + [o], k) == EarnedOver(capacity, ops, k) + EarnsOn(m, capacity, o, k)
  {
    assert (ops + [o])[..|ops|] == ops;
  }

  lemma NoEntrySays(m: Buckets, capacity: nat, o: KeyedOp, k: Key)
    requires !KeptRefresh(m, capacity, o, o.key) || o.key != k
    ensures OpensWith(m, capacity, o, k) == 0 && EarnsOn(m, capacity, o, k) == 0
  {
  }

  lemma OwnEntrySays(m: Buckets, capacity: nat, o: KeyedOp, t: Tally)
    requires KeptRefresh(m, capacity, o, o.key)
    ensures var u := Tallied(t, OpEntry(m, capacity, o)[0], o.key);
      && u.opening == t.opening + OpensWith(m, capacity, o, o.key)
      && u.earned == t.earned + EarnsOn(m, capacity, o, o.key)
  {
  }

  // What the book gets of a refreshing operation.
  lemma OpEntrySays(m: Buckets, capacity: nat, o: KeyedOp, book: seq<Entry>, k: Key)
    requires Refreshes(o.op)
    ensures var (t, t') := (TallyOf(book, k), TallyOf(book + OpEntry(m, capacity, o), k));
      && t'.opening == t.opening + OpensWith(m, capacity, o, k)
      && t'.earned == t.earned + EarnsOn(m, capacity, o, k)
  {
    OpEntryTally(m, capacity, o, book, k);
    if KeptRefresh(m, capacity, o, o.key) && o.key == k {
      OwnEntrySays(m, capacity, o, TallyOf(book, k));
    } else {
      NoEntrySays(m, capacity, o, k);
    }
  }

  lemma OneMoreAgrees(book: seq<Entry>, capacity: nat, ops: seq<KeyedOp>, o: KeyedOp, k: Key)
    requires Refreshes(o.op) && Agree(book, capacity, ops, k)
    ensures Agree(book + OpEntry(RunTable(map[], capacity, ops), capacity, o), capacity, ops + [o], k)
  {
    OneMoreOp(capacity, ops, o, k);
    OpEntrySays(RunTable(map[], capacity, ops), capacity, o, book, k);
  }

  lemma AdmitExtends(s: System, i: nat, e: Step)
    requires i < |s.workers| && e.AdmitStatement?
    ensures var (t, o) := (AdmitStep(s, i, e), AdmissionOp(e.policy, e.scope, e.predicted, e.now));
      && (o.Some? ==> t.ops == s.ops + [o.value] && t.book == s.book + OpEntry(s.buckets, s.capacity, o.value)
                      && Refreshes(o.value.op))
      && (o.None? ==> t.ops == s.ops && t.book == s.book)
  {
    assert s.ops + [] == s.ops && s.book + [] == s.book;
  }

  lemma AdmitAgrees(s: System, i: nat, e: Step, k: Key)
    requires i < |s.workers| && e.AdmitStatement? && BookAgrees(s, k)
    ensures Agree(AdmitStep(s, i, e).book, s.capacity, AdmitStep(s, i, e).ops, k)
  {
    var o := AdmissionOp(e.policy, e.scope, e.predicted, e.now);
    AdmitExtends(s, i, e);
    if o.Some? {
      OneMoreAgrees(s.book, s.capacity, s.ops, o.value, k);
    }
  }

  // An operation that does not refresh opens nothing and earns nothing.
  lemma QuietOp(capacity: nat, ops: seq<KeyedOp>, o: Option<KeyedOp>, k: Key)
    requires o.Some? ==> !Refreshes(o.value.op)
    ensures OpenedOver(capacity, ops + Log(o), k) == OpenedOver(capacity, ops, k)
    ensures EarnedOver(capacity, ops + Log(o), k) == EarnedOver(capacity, ops, k)
  {
    if o.Some? {
      OneMoreOp(capacity, ops, o.value, k);
    } else {
      assert ops + Log(o) == ops;
    }
  }

  // How a step other than an admission extends the book and the log.
  lemma OthersExtend(s: System, i: nat, e: Step) returns (entries: seq<Entry>, o: Option<KeyedOp>)
    requires i < |s.workers| && StepEnabled(s.workers[i], e) && !e.AdmitStatement?
    ensures SystemNext(s, i, e).book == s.book + entries && SystemNext(s, i, e).ops == s.ops + Log(o)
    ensures |entries| <= 1 && (entries != [] ==> !entries[0].Opened? && !entries[0].Refreshed?)
    ensures o.Some? ==> !Refreshes(o.value.op)
  {
    var t := SystemNext(s, i, e);
    entries, o := if t.book == s.book then [] else [t.book[|s.book|]], None;
    match e {
      case SettleBudget => o := SettleOp(s.workers[i].phase.st, s.workers[i].phase.actual);
      case UndoNext => o := UndoOp(s.workers[i].phase.rest[0]);
      case _ =>
    }
  }

  lemma QuietEntries(book: seq<Entry>, entries: seq<Entry>, k: Key)
    requires |entries| <= 1 && (entries != [] ==> !entries[0].Opened? && !entries[0].Refreshed?)
    ensures TallyOf(book + entries, k).opening == TallyOf(book, k).opening
    ensures TallyOf(book + entries, k).earned == TallyOf(book, k).earned
  {
    TallyAppend(book, if entries == [] then CounterReset else entries[0], k);
    assert entries == [] || entries == [entries[0]];
  }

  // A step other than an admission refreshes nothing and opens nothing.
  lemma OthersAgree(s: System, i: nat, e: Step, k: Key)
    requires i < |s.workers| && StepEnabled(s.workers[i], e) && !e.AdmitStatement? && BookAgrees(s, k)
    ensures Agree(SystemNext(s, i, e).book, s.capacity, SystemNext(s, i, e).ops, k)
  {
    var entries, o := OthersExtend(s, i, e);
    QuietEntries(s.book, entries, k);
    QuietOp(s.capacity, s.ops, o, k);
  }

  lemma {:induction false} RunAgrees(s: System, turns: seq<Turn>, k: Key)
    requires BookAgrees(s, k) && ValidTurns(s, turns)
    ensures BookAgrees(RunSystem(s, turns), k)
    decreases |turns|
  {
    if turns != [] {
      var (i, e) := (turns[0].worker, turns[0].step);
      StepLogged(s, i, e);
      if e.AdmitStatement? {
        AdmitAgrees(s, i, e, k);
      } else {
        OthersAgree(s, i, e, k);
      }
      RunAgrees(SystemNext(s, i, e), turns[1..], k);
    }
  }

  // The openings and refills of the balance are those of the operations themselves: the bursts buckets
  // were opened with, and what the time between kept refreshes earned.
  lemma BookIsTrue(backends: nat, capacity: nat, turns: seq<Turn>, k: Key)
    requires ValidTurns(Initial(backends, capacity), turns)
    ensures var s := RunSystem(Initial(backends, capacity), turns);
      && TallyOf(s.book, k).opening == OpenedOver(s.capacity, s.ops, k)
      && TallyOf(s.book, k).earned == EarnedOver(s.capacity, s.ops, k)
  {
    RunAgrees(Initial(backends, capacity), turns, k);
  }

  // No refund or debt is lost: whatever a backend has yet to settle or undo, its bucket exists.
  lemma SettlementsFindTheirBuckets(backends: nat, capacity: nat, turns: seq<Turn>, i: nat, st: Statement)
    requires ValidTurns(Initial(backends, capacity), turns)
    requires i < |RunSystem(Initial(backends, capacity), turns).workers|
    requires var w := RunSystem(Initial(backends, capacity), turns).workers[i];
      || st in w.session.stacks.active
      || (w.phase.Counting? && w.phase.st == st) || (w.phase.Settling? && w.phase.st == st)
      || (w.phase.Undoing? && st in w.phase.rest)
    ensures ChargeKey(st).Some? ==> ChargeKey(st).value in RunSystem(Initial(backends, capacity), turns).buckets
  {
    Reached(backends, capacity, turns);
    var s := RunSystem(Initial(backends, capacity), turns);
    var w := s.workers[i];
    if ChargeKey(st).Some? {
      var k := ChargeKey(st).value;
      assert Balanced(s, k);
      if st in w.session.stacks.active {
        ChargeSumMember(w.session.stacks.active, st, k);
      }
      if w.phase.Undoing? && st in w.phase.rest {
        ChargeSumMember(w.phase.rest, st, k);
      }
      InFlightMember(s.workers, i, k);
    }
  }

  lemma {:induction false} ChargeSumMember(sts: seq<Statement>, st: Statement, k: Key)
    requires st in sts
    ensures ChargeSum(sts, k) >= ChargeOn(st, k)
  {
    if sts[|sts| - 1] != st {
      ChargeSumMember(sts[..|sts| - 1], st, k);
    }
  }

  // Across all backends each admitted statement is settled once or still on its stack once, and a
  // backend with no call open has settled all it admitted.
  lemma EveryBackendSettlesOnce(backends: nat, capacity: nat, turns: seq<Turn>)
    requires ValidTurns(Initial(backends, capacity), turns)
    ensures var ws := RunSystem(Initial(backends, capacity), turns).workers;
      forall i :: 0 <= i < |ws| ==>
        && multiset(ws[i].session.settled) + multiset(ws[i].session.stacks.active) == multiset(ws[i].session.admitted)
        && (ws[i].session.frames == [] ==> ws[i].session.stacks == Stacks([], []))
  {
    Reached(backends, capacity, turns);
    var ws := RunSystem(Initial(backends, capacity), turns).workers;
    forall i | 0 <= i < |ws| ensures ws[i].session.frames == [] ==> ws[i].session.stacks == Stacks([], []) {
      assert Accounted(ws[i].session);
      if ws[i].session.frames == [] {
        NoCallNoMarker(ws[i].session);
      }
    }
  }

  // The rate bound of one bucket, for every run of the whole controller.
  lemma ControllerRateBound(backends: nat, capacity: nat, turns: seq<Turn>, k: Key, rate: nat, burst: nat)
    requires ValidTurns(Initial(backends, capacity), turns)
    requires PoliciesWithin(RunSystem(Initial(backends, capacity), turns).ops, k, rate, burst)
    ensures var s := RunSystem(Initial(backends, capacity), turns);
      k in s.buckets ==>
        Bounded(s.buckets[k], Net(map[], s.capacity, s.ops, k), CreatedAt(map[], s.capacity, s.ops, k), rate, burst)
  {
    Reached(backends, capacity, turns);
    var s := RunSystem(Initial(backends, capacity), turns);
    WholeRunBound(s.capacity, s.ops, k, rate, burst);
  }

  // What a bucket hands out between any two points of the controller's log: under one rate less than a
  // burst, a byte, and the rate over the clocks read in between; under changing valid policies at most
  // what the greatest rate is worth in less than a second more.
  lemma ControllerWindowBound(backends: nat, capacity: nat, turns: seq<Turn>, k: Key, i: nat, j: nat,
                              rate: nat, burst: nat, from: nat, to: nat)
    requires ValidTurns(Initial(backends, capacity), turns)
    requires i <= j <= |RunSystem(Initial(backends, capacity), turns).ops| && from <= to
    requires Window(RunSystem(Initial(backends, capacity), turns).ops[i..j], k, rate, burst, from, to)
    ensures var s := RunSystem(Initial(backends, capacity), turns);
      var handed := Net(map[], s.capacity, s.ops[..j], k) - Net(map[], s.capacity, s.ops[..i], k);
      && s.buckets == RunTable(map[], s.capacity, s.ops)
      && (OneRate(s.ops[i..j], k, rate) ==> 1000 * handed < 1000 * (burst + 1) + rate * (to - from))
      && (ValidPolicies(s.ops[i..j], k) ==> 1000 * handed <= 1000 * burst + rate * (to - from + 999))
  {
    Reached(backends, capacity, turns);
    var s := RunSystem(Initial(backends, capacity), turns);
    var m, ops := RunTable(map[], s.capacity, s.ops[..i]), s.ops[i..j];
    assert s.ops[..j] == s.ops[..i] + ops;
    NetConcat(map[], s.capacity, s.ops[..i], ops, k);
    if OneRate(ops, k, rate) {
      WindowBound(m, s.capacity, ops, k, rate, burst, from, to);
    }
    if ValidPolicies(ops, k) {
      ChangingWindowBound(m, s.capacity, ops, k, rate, burst, from, to);
    }
  }

  // ----- The global debt counter -----

  function CountedSinceReset(book: seq<Entry>): nat {
    if book == [] then 0
    else
      match book[|book| - 1]
      case Counted(debt) => CountedSinceReset(book[..|book| - 1]) + debt
      case CounterReset => 0
      case _ => CountedSinceReset(book[..|book| - 1])
  }

  function EntryDebt(e: Entry): nat {
    if e.Completed? then Excess(e.actual, e.charged) else 0
  }

  function TotalDebt(book: seq<Entry>): nat {
    if book == [] then 0 else TotalDebt(book[..|book| - 1]) + EntryDebt(book[|book| - 1])
  }

  function PhaseDebt(p: Phase): nat {
    if p.Settling? then DebtBytes(p.st, p.actual) else 0
  }

  // Debts counted globally and not yet recorded on their bucket.
  function PendingDebt(ws: seq<Worker>): nat {
    if ws == [] then 0 else PendingDebt(ws[..|ws| - 1]) + PhaseDebt(ws[|ws| - 1].phase)
  }

  lemma {:induction false} PendingUpdate(ws: seq<Worker>, i: nat, w: Worker)
    requires i < |ws|
    ensures PendingDebt(ws[i := w]) == PendingDebt(ws) - PhaseDebt(ws[i].phase) + PhaseDebt(w.phase)
  {
    var n := |ws| - 1;
    if i < n {
      PendingUpdate(ws[..n], i, w);
      assert ws[i := w][..n] == ws[..n][i := w];
    } else {
      assert ws[i := w][..n] == ws[..n];
    }
  }

  ghost predicate CounterTracks(s: System) {
    && s.debtCounter == Min(CountedSinceReset(s.book), U64_MAX)
    && (CounterReset !in s.book ==> CountedSinceReset(s.book) == TotalDebt(s.book) + PendingDebt(s.workers))
  }

  lemma BookAppend(book: seq<Entry>, e: Entry)
    ensures TotalDebt(book + [e]) == TotalDebt(book) + EntryDebt(e)
    ensures CountedSinceReset(book + [e])
         == if e.Counted? then CountedSinceReset(book) + e.debt
            else if e == CounterReset then 0 else CountedSinceReset(book)
    ensures book + [] == book
  {
    assert (book + [e])[..|book|] == book;
  }

  // How a step extends the book: by at most one entry.
  lemma StepExtendsBook(s: System, i: nat, e: Step)
    requires i < |s.workers| && StepEnabled(s.workers[i], e)
    ensures var t := SystemNext(s, i, e);
      && |t.workers| == |s.workers| && t.workers == s.workers[i := t.workers[i]]
      && (t.book == s.book || (|t.book| == |s.book| + 1 && t.book == s.book + [t.book[|s.book|]]))
  {
  }

  lemma StepDebt(s: System, i: nat, e: Step)
    requires i < |s.workers| && StepEnabled(s.workers[i], e)
    ensures var t := SystemNext(s, i, e);
      var added := if t.book == s.book then 0 else EntryDebt(t.book[|s.book|]);
      var counted := if e == CountDebt then DebtBytes(s.workers[i].phase.st, s.workers[i].phase.actual) else 0;
      && PhaseDebt(t.workers[i].phase) + added == PhaseDebt(s.workers[i].phase) + counted
      && (t.book != s.book ==> (t.book[|s.book|].Counted? <==> e == CountDebt))
      && (t.book != s.book ==> (t.book[|s.book|] == CounterReset <==> e == ResetStats))
      && (e == CountDebt ==> t.book != s.book && t.book[|s.book|] == Counted(counted))
      && (e == ResetStats ==> t.book != s.book)
      && t.debtCounter == (if e == ResetStats then 0 else Min(s.debtCounter + counted, U64_MAX))
  {
  }

  lemma StepKeepsCounter(s: System, i: nat, e: Step)
    requires i < |s.workers| && StepEnabled(s.workers[i], e) && CounterTracks(s)
    ensures CounterTracks(SystemNext(s, i, e))
  {
    var t := SystemNext(s, i, e);
    StepExtendsBook(s, i, e);
    StepDebt(s, i, e);
    PendingUpdate(s.workers, i, t.workers[i]);
    if t.book != s.book {
      BookAppend(s.book, t.book[|s.book|]);
    }
  }

  lemma {:induction false} RunKeepsCounter(s: System, turns: seq<Turn>)
    requires CounterTracks(s) && ValidTurns(s, turns)
    ensures CounterTracks(RunSystem(s, turns))
    decreases |turns|
  {
    if turns != [] {
      StepKeepsCounter(s, turns[0].worker, turns[0].step);
      RunKeepsCounter(SystemNext(s, turns[0].worker, turns[0].step), turns[1..]);
    }
  }

  lemma {:induction false} NothingPending(ws: seq<Worker>)
    requires forall i :: 0 <= i < |ws| ==> ws[i].phase == Idle
    ensures PendingDebt(ws) == 0
  {
    if ws != [] {
      NothingPending(ws[..|ws| - 1]);
    }
  }

  // ----- Summing over the buckets -----

  ghost function Pick(ks: set<Key>): Key
    requires ks != {}
  {
    var k :| k in ks;
    k
  }

  ghost function BucketDebts(m: Buckets, ks: set<Key>): nat
    requires ks <= m.Keys
  {
    if ks == {} then 0 else m[Pick(ks)].debt + BucketDebts(m, ks - {Pick(ks)})
  }

  ghost function BookDebts(book: seq<Entry>, ks: set<Key>): nat {
    if ks == {} then 0 else TallyOf(book, Pick(ks)).debt + BookDebts(book, ks - {Pick(ks)})
  }

  lemma {:induction false} BookDebtsAppend(book: seq<Entry>, e: Entry, ks: set<Key>)
    ensures BookDebts(book + [e], ks)
         == BookDebts(book, ks) + if e.Completed? && e.key in ks then EntryDebt(e) else 0
  {
    if ks != {} {
      TallyAppend(book, e, Pick(ks));
      BookDebtsAppend(book, e, ks - {Pick(ks)});
    }
  }

  lemma {:induction false} BookDebtsTotal(book: seq<Entry>, ks: set<Key>)
    requires forall k :: k !in ks ==> TallyOf(book, k).debt == 0
    ensures BookDebts(book, ks) == TotalDebt(book)
  {
    if book == [] {
      NoEntriesNoDebt(ks);
    } else {
      var n := |book| - 1;
      assert book == book[..n] + [book[n]];
      forall k | k !in ks ensures TallyOf(book[..n], k).debt == 0 {
        assert TallyOf(book, k).debt == 0;
      }
      BookDebtsTotal(book[..n], ks);
      BookDebtsAppend(book[..n], book[n], ks);
      if book[n].Completed? && book[n].key !in ks {
        assert TallyOf(book, book[n].key).debt == 0;
      }
    }
  }

  lemma {:induction false} NoEntriesNoDebt(ks: set<Key>)
    ensures BookDebts([], ks) == 0
  {
    if ks != {} {
      NoEntriesNoDebt(ks - {Pick(ks)});
    }
  }

  // A bucket's debt is at most the total.
  lemma {:induction false} TallyDebtAtMostTotal(book: seq<Entry>, k: Key)
    ensures TallyOf(book, k).debt <= TotalDebt(book)
  {
    if book != [] {
      TallyDebtAtMostTotal(book[..|book| - 1], k);
    }
  }

  lemma {:induction false} BucketDebtsMatch(m: Buckets, book: seq<Entry>, ks: set<Key>)
    requires ks <= m.Keys && forall k :: k in ks ==> m[k].debt == TallyOf(book, k).debt
    ensures BucketDebts(m, ks) == BookDebts(book, ks)
  {
    if ks != {} {
      BucketDebtsMatch(m, book, ks - {Pick(ks)});
    }
  }

  // The global counter is what was counted since the last reset, up to the 64-bit limit. With no
  // reset and no saturation it is the sum of all buckets' debts and of the debts that are counted but
  // not yet recorded, between the two critical sections of a settlement.
  lemma CounterMatchesBuckets(backends: nat, capacity: nat, turns: seq<Turn>)
    requires ValidTurns(Initial(backends, capacity), turns)
    ensures var s := RunSystem(Initial(backends, capacity), turns);
      s.debtCounter == Min(CountedSinceReset(s.book), U64_MAX)
    ensures var s := RunSystem(Initial(backends, capacity), turns);
      CounterReset !in s.book && s.debtCounter < U64_MAX ==>
        s.debtCounter == BucketDebts(s.buckets, s.buckets.Keys) + PendingDebt(s.workers)
  {
    Reached(backends, capacity, turns);
    NothingPending(Initial(backends, capacity).workers);
    RunKeepsCounter(Initial(backends, capacity), turns);
    var s := RunSystem(Initial(backends, capacity), turns);
    if CounterReset !in s.book && s.debtCounter < U64_MAX {
      forall k ensures k !in s.buckets ==> TallyOf(s.book, k).debt == 0
               ensures k in s.buckets ==> s.buckets[k].debt == TallyOf(s.book, k).debt
      {
        assert Balanced(s, k);
        TallyDebtAtMostTotal(s.book, k);
      }
      BookDebtsTotal(s.book, s.buckets.Keys);
      BucketDebtsMatch(s.buckets, s.book, s.buckets.Keys);
    }
  }
}
