// What the end of a statement and the end of a transaction do to the buckets, over the whole sequence of
// critical sections (src/reconcile.rs:61-182, src/lifecycle.rs:36-108).
module Settlements {
  import opened Numbers
  import opened Wrappers
  import opened Budget
  import opened BucketTable
  import opened Lifecycle
  import opened Reconcile
  import opened Ledger

  // ----- The end of a statement -----

  // The statement is charged to bucket k.
  predicate ChargedOn(st: Statement, k: Key) {
    && st.decision.kind == Allowed && st.decision.charged > 0
    && st.decision.policyId == Some(k.policyId) && st.scopeHash == k.scopeHash
  }

  lemma RunFirst(s: System, t: System, a: Turn, rest: seq<Turn>)
    requires a.worker < |s.workers| && StepEnabled(s.workers[a.worker], a.step)
    requires t == SystemNext(s, a.worker, a.step) && ValidTurns(t, rest)
    ensures ValidTurns(s, [a] + rest) && RunSystem(s, [a] + rest) == RunSystem(t, rest)
  {
    var turns := [a] + rest;
    assert turns[0] == a && turns[1..] == rest;
  }

  lemma RunThree(s: System, s1: System, s2: System, s3: System, a: Turn, b: Turn, c: Turn)
    requires a.worker < |s.workers| && StepEnabled(s.workers[a.worker], a.step)
    requires s1 == SystemNext(s, a.worker, a.step)
    requires b.worker < |s1.workers| && StepEnabled(s1.workers[b.worker], b.step)
    requires s2 == SystemNext(s1, b.worker, b.step)
    requires c.worker < |s2.workers| && StepEnabled(s2.workers[c.worker], c.step)
    requires s3 == SystemNext(s2, c.worker, c.step)
    ensures ValidTurns(s, [a, b, c]) && RunSystem(s, [a, b, c]) == s3
  {
    RunFirst(s2, s3, c, []);
    RunFirst(s1, s2, b, [c] + []);
    RunFirst(s, s1, a, [b] + ([c] + []));
    assert [a] + ([b] + ([c] + [])) == [a, b, c];
  }

  // The three critical sections that end a statement whose WAL was read at both ends.
  function EndOfStatement(i: nat, call: nat, endWal: WalBytes): seq<Turn> {
    [Turn(i, CompleteStatement(call, Some(endWal))), Turn(i, CountDebt), Turn(i, SettleBudget)]
  }

  // The state after the statement left the stack.
  function StatementPopped(s: System, i: nat, call: nat, endWal: WalBytes): System
    requires i < |s.workers| && s.workers[i].phase == Idle && call < |s.workers[i].session.frames|
  {
    SystemNext(s, i, CompleteStatement(call, Some(endWal)))
  }

  lemma FirstSection(s: System, i: nat, call: nat, st: Statement, a: WalBytes, b: WalBytes)
    requires i < |s.workers| && s.workers[i].phase == Idle && call < |s.workers[i].session.frames|
    requires CompleteCall(s.workers[i].session, call).1 == Some(st) && st.startWal == Some(a)
    ensures var after := Next(s.workers[i].session, Complete(call));
      StatementPopped(s, i, call, b)
        == s.(workers := s.workers[i := Worker(after, Counting(st, if a <= b then b - a else 0))])
  {
    assert s.book + [] == s.book;
  }

  lemma SecondSection(s: System, i: nat, st: Statement, wrote: WalBytes)
    requires i < |s.workers| && s.workers[i].phase == Counting(st, wrote)
    ensures SystemNext(s, i, CountDebt)
         == s.(debtCounter := Min(s.debtCounter + DebtBytes(st, wrote), U64_MAX),
               workers := s.workers[i := Worker(s.workers[i].session, Settling(st, wrote))],
               book := s.book + [Counted(DebtBytes(st, wrote))])
  {
  }

  // The budget section of a charged statement.
  lemma ThirdSection(s: System, i: nat, st: Statement, wrote: WalBytes, k: Key)
    requires i < |s.workers| && s.workers[i].phase == Settling(st, wrote) && ChargedOn(st, k) && Balanced(s, k)
    ensures k in s.buckets
    ensures var (t, charged) := (SystemNext(s, i, SettleBudget), st.decision.charged);
      && t.buckets == s.buckets[k := s.buckets[k].(
           available := Min(s.buckets[k].available + Excess(charged, wrote), s.buckets[k].maxBurst),
           debt := Min(s.buckets[k].debt + Excess(wrote, charged), U64_MAX))]
      && t.debtCounter == s.debtCounter
      && t.workers == s.workers[i := Worker(s.workers[i].session, Idle)]
      && t.book == s.book + [Completed(k, charged, wrote, Overflow(s.buckets, k, Excess(charged, wrote)))]
  {
    SettlementFindsBucket(s, i, st, k);
    SettleEffect(s.buckets, s.capacity, st, wrote, k);
  }

  lemma CountedTally(book: seq<Entry>, k: Key, debt: nat)
    ensures TallyOf(book + [Counted(debt)], k) == TallyOf(book, k)
  {
    TallyAppend(book, Counted(debt), k);
  }

  // What a settlement adds to the account of its bucket.
  function SpentOn(t: Tally, charged: nat, wrote: nat, lost: nat): Tally {
    t.(spent := t.spent + Min(charged, wrote), debt := t.debt + Excess(wrote, charged), lost := t.lost + lost)
  }

  lemma CompletedTally(book: seq<Entry>, k: Key, charged: nat, wrote: nat, lost: nat)
    ensures TallyOf(book + [Completed(k, charged, wrote, lost)], k) == SpentOn(TallyOf(book, k), charged, wrote, lost)
  {
    TallyAppend(book, Completed(k, charged, wrote, lost), k);
  }

  function Wrote(a: WalBytes, b: WalBytes): WalBytes {
    if a <= b then b - a else 0
  }

  // The state before the budget section.
  function Measured(s: System, i: nat, call: nat, st: Statement, wrote: WalBytes): System
    requires i < |s.workers| && call < |s.workers[i].session.frames|
  {
    s.(debtCounter := Min(s.debtCounter + DebtBytes(st, wrote), U64_MAX),
       workers := s.workers[i := Worker(Next(s.workers[i].session, Complete(call)), Settling(st, wrote))],
       book := s.book + [Counted(DebtBytes(st, wrote))])
  }

  lemma TwoSections(s: System, i: nat, call: nat, st: Statement, a: WalBytes, b: WalBytes)
    requires i < |s.workers| && s.workers[i].phase == Idle && call < |s.workers[i].session.frames|
    requires CompleteCall(s.workers[i].session, call).1 == Some(st) && st.startWal == Some(a)
    ensures var s1 := StatementPopped(s, i, call, b);
      && |s1.workers| == |s.workers| && s1.workers[i].phase.Counting?
      && SystemNext(s1, i, CountDebt) == Measured(s, i, call, st, Wrote(a, b))
  {
    FirstSection(s, i, call, st, a, b);
    SecondSection(StatementPopped(s, i, call, b), i, st, Wrote(a, b));
  }

  lemma SectionsRun(s: System, i: nat, call: nat, st: Statement, a: WalBytes, b: WalBytes)
    requires i < |s.workers| && s.workers[i].phase == Idle && call < |s.workers[i].session.frames|
    requires CompleteCall(s.workers[i].session, call).1 == Some(st) && st.startWal == Some(a)
    ensures ValidTurns(s, EndOfStatement(i, call, b))
    ensures RunSystem(s, EndOfStatement(i, call, b))
         == SystemNext(Measured(s, i, call, st, Wrote(a, b)), i, SettleBudget)
  {
    TwoSections(s, i, call, st, a, b);
    var s1, s2 := StatementPopped(s, i, call, b), Measured(s, i, call, st, Wrote(a, b));
    RunThree(s, s1, s2, SystemNext(s2, i, SettleBudget), Turn(i, CompleteStatement(call, Some(b))),
             Turn(i, CountDebt), Turn(i, SettleBudget));
  }

  // Before the budget section every bucket is in balance.
  lemma BalancedBeforeThird(s: System, i: nat, call: nat, st: Statement, a: WalBytes, b: WalBytes, k: Key)
    requires Sound(s) && i < |s.workers| && s.workers[i].phase == Idle && call < |s.workers[i].session.frames|
    requires CompleteCall(s.workers[i].session, call).1 == Some(st) && st.startWal == Some(a)
    ensures Balanced(Measured(s, i, call, st, Wrote(a, b)), k)
  {
    var s1 := StatementPopped(s, i, call, b);
    TwoSections(s, i, call, st, a, b);
    StepSound(s, i, CompleteStatement(call, Some(b)));
    StepBalanced(s1, i, CountDebt, k);
  }

  // From s to u worker i has settled statement st, charged to k, as having written so many bytes: what
  // was not used is back, up to the burst; what was not paid is owed, on the bucket and in the global
  // counter; and nothing else changed.
  ghost predicate Settled(s: System, u: System, i: nat, call: nat, st: Statement, k: Key, wrote: nat)
    requires i < |s.workers| && call < |s.workers[i].session.frames|
  {
    var charged := st.decision.charged;
    var back, owed := Excess(charged, wrote), Excess(wrote, charged);
    && k in s.buckets
    && u.buckets == s.buckets[k := s.buckets[k].(
         available := Min(s.buckets[k].available + back, s.buckets[k].maxBurst),
         debt := Min(s.buckets[k].debt + owed, U64_MAX))]
    && u.debtCounter == Min(s.debtCounter + owed, U64_MAX)
    && u.workers == s.workers[i := Worker(Next(s.workers[i].session, Complete(call)), Idle)]
    && TallyOf(u.book, k).spent == TallyOf(s.book, k).spent + Min(charged, wrote)
    && TallyOf(u.book, k).debt == TallyOf(s.book, k).debt + owed
    && TallyOf(u.book, k).kept == TallyOf(s.book, k).kept
  }

  // The budget section after the other two.
  lemma ThirdAfterTwo(s: System, i: nat, call: nat, st: Statement, wrote: WalBytes, k: Key)
    requires i < |s.workers| && call < |s.workers[i].session.frames| && ChargedOn(st, k)
    requires Balanced(Measured(s, i, call, st, wrote), k)
    ensures Settled(s, SystemNext(Measured(s, i, call, st, wrote), i, SettleBudget), i, call, st, k, wrote)
  {
    var s2, charged := Measured(s, i, call, st, wrote), st.decision.charged;
    ThirdSection(s2, i, st, wrote, k);
    CountedTally(s.book, k, DebtBytes(st, wrote));
    CompletedTally(s2.book, k, charged, wrote, Overflow(s2.buckets, k, Excess(charged, wrote)));
  }

  // A charged statement whose WAL was read at both ends settles for the bytes in between.
  lemma MeasuredSettlement(s: System, i: nat, call: nat, st: Statement, k: Key, a: WalBytes, b: WalBytes)
    requires Sound(s) && i < |s.workers| && s.workers[i].phase == Idle && call < |s.workers[i].session.frames|
    requires CompleteCall(s.workers[i].session, call).1 == Some(st) && st.startWal == Some(a) && ChargedOn(st, k)
    ensures ValidTurns(s, EndOfStatement(i, call, b))
    ensures Settled(s, RunSystem(s, EndOfStatement(i, call, b)), i, call, st, k, if a <= b then b - a else 0)
  {
    SectionsRun(s, i, call, st, a, b);
    BalancedBeforeThird(s, i, call, st, a, b, k);
    ThirdAfterTwo(s, i, call, st, Wrote(a, b), k);
  }

  // A statement that was charged nowhere changes no bucket and no counter.
  lemma UnchargedSettlement(s: System, i: nat, call: nat, st: Statement, a: WalBytes, b: WalBytes)
    requires i < |s.workers| && s.workers[i].phase == Idle && call < |s.workers[i].session.frames|
    requires CompleteCall(s.workers[i].session, call).1 == Some(st) && st.startWal == Some(a)
    requires forall k :: !ChargedOn(st, k)
    ensures ValidTurns(s, EndOfStatement(i, call, b))
    ensures var u := RunSystem(s, EndOfStatement(i, call, b));
      && u.buckets == s.buckets && u.debtCounter == s.debtCounter
      && u.workers == s.workers[i := Worker(Next(s.workers[i].session, Complete(call)), Idle)]
  {
    if ChargeKey(st).Some? {
      assert ChargedOn(st, ChargeKey(st).value);
    }
    SectionsRun(s, i, call, st, a, b);
  }

  // Without one of the two readings the charge is kept, and no bucket ever sees a settlement; with both
  // it is not kept.
  lemma KeptIffUnmeasured(s: System, i: nat, call: nat, st: Statement, endWal: Option<WalBytes>, k: Key)
    requires i < |s.workers| && s.workers[i].phase == Idle && call < |s.workers[i].session.frames|
    requires CompleteCall(s.workers[i].session, call).1 == Some(st)
    ensures var t := SystemNext(s, i, CompleteStatement(call, endWal));
      && t.buckets == s.buckets && t.debtCounter == s.debtCounter
      && (t.workers[i].phase == Idle <==> st.startWal.None? || endWal.None?)
      && TallyOf(t.book, k) == TallyOf(s.book, k).(kept := TallyOf(t.book, k).kept)
      && TallyOf(t.book, k).kept - TallyOf(s.book, k).kept
         == if (st.startWal.None? || endWal.None?) && ChargedOn(st, k) then st.decision.charged else 0
  {
    PopMovesCharge(Next(s.workers[i].session, Complete(call)), Some(st), endWal, s.book, k);
    ChargeSumOne(st, k);
    assert (ChargeKey(st) == Some(k)) == ChargedOn(st, k);
  }

  // ----- The end of a transaction -----

  lemma OtherEventsChangeNothing(s: System, i: nat)
    requires i < |s.workers| && s.workers[i].phase == Idle
    ensures SystemNext(s, i, EndOfTransaction(OtherEvent, |s.workers[i].session.frames|)) == s
  {
  }

  // What a transaction's end makes of the worker and the book, by event.
  lemma CommitStep(s: System, i: nat, ending: Ending, surviving: nat)
    requires i < |s.workers| && s.workers[i].phase == Idle && surviving <= |s.workers[i].session.frames|
    requires ending == Commit || ending == ParallelCommit
    ensures var session := s.workers[i].session;
      SystemNext(s, i, EndOfTransaction(ending, surviving))
        == s.(workers := s.workers[i := Worker(Next(session, EndTransaction(ending, surviving)), Idle)],
              book := s.book + [Kept(Reversed(session.stacks.active))])
  {
  }

  lemma AbortStep(s: System, i: nat, ending: Ending, surviving: nat)
    requires i < |s.workers| && s.workers[i].phase == Idle && surviving <= |s.workers[i].session.frames|
    requires ending == Abort || ending == ParallelAbort
    ensures var (session, active) := (s.workers[i].session, s.workers[i].session.stacks.active);
      var after := Next(session, EndTransaction(ending, surviving));
      SystemNext(s, i, EndOfTransaction(ending, surviving))
        == if active == [] then s.(workers := s.workers[i := Worker(after, Idle)], book := s.book + [Kept([])])
           else s.(workers := s.workers[i := Worker(after, Undoing(Reversed(active)))])
  {
    ReversedLength(s.workers[i].session.stacks.active);
    assert s.book + [] == s.book;
  }

  lemma EmptiesStacks(session: Session, ending: Ending, surviving: nat)
    requires surviving <= |session.frames| && ending != OtherEvent
    ensures Next(session, EndTransaction(ending, surviving)).stacks == Stacks([], [])
  {
  }

  // A commit touches no bucket, then or later: what was in flight on the backend's stack is kept.
  lemma CommitKeepsCharges(s: System, i: nat, ending: Ending, surviving: nat, k: Key)
    requires i < |s.workers| && s.workers[i].phase == Idle && surviving <= |s.workers[i].session.frames|
    requires ending == Commit || ending == ParallelCommit
    ensures var t := SystemNext(s, i, EndOfTransaction(ending, surviving));
      && t.buckets == s.buckets && t.debtCounter == s.debtCounter
      && |t.workers| == |s.workers| && t.workers == s.workers[i := t.workers[i]]
      && t.workers[i].phase == Idle && t.workers[i].session.stacks == Stacks([], [])
      && WorkerCharge(t.workers[i], k) == 0
      && TallyOf(t.book, k)
         == TallyOf(s.book, k).(kept := TallyOf(s.book, k).kept + ChargeSum(s.workers[i].session.stacks.active, k))
  {
    CommitStep(s, i, ending, surviving);
    EmptiesStacks(s.workers[i].session, ending, surviving);
    TallyAppend(s.book, Kept(Reversed(s.workers[i].session.stacks.active)), k);
    ChargeSumReversed(s.workers[i].session.stacks.active, k);
  }

  function UndoTurns(i: nat, n: nat): seq<Turn> {
    seq(n, _ => Turn(i, UndoNext))
  }

  // What a run of undos leaves of bucket k.
  ghost predicate Returned(s: System, u: System, k: Key, back: nat) {
    && (k in u.buckets <==> k in s.buckets)
    && (k in s.buckets ==> u.buckets[k] == s.buckets[k].(
          available := Min(s.buckets[k].available + back, s.buckets[k].maxBurst)))
    && TallyOf(u.book, k).kept == TallyOf(s.book, k).kept
    && TallyOf(u.book, k).spent == TallyOf(s.book, k).spent
  }

  lemma UndoReturnsOwn(s: System, i: nat, k: Key)
    requires i < |s.workers| && s.workers[i].phase.Undoing? && s.workers[i].phase.rest != [] && Balanced(s, k)
    requires ChargeKey(s.workers[i].phase.rest[0]) == Some(k)
    ensures Returned(s, SystemNext(s, i, UndoNext), k, s.workers[i].phase.rest[0].decision.charged)
  {
    var st := s.workers[i].phase.rest[0];
    UndoFlight(s, i, k);
    SettlementFindsBucket(s, i, st, k);
    UndoEffect(s.buckets, s.capacity, st, k);
    TallyAppend(s.book, Undone(k, st.decision.charged, Overflow(s.buckets, k, st.decision.charged)), k);
  }

  // One undo returns one charge, up to the burst, and keeps nothing.
  lemma UndoReturnsOne(s: System, i: nat, k: Key)
    requires Sound(s) && i < |s.workers| && s.workers[i].phase.Undoing? && s.workers[i].phase.rest != []
    ensures Returned(s, SystemNext(s, i, UndoNext), k, ChargeOn(s.workers[i].phase.rest[0], k))
  {
    assert Balanced(s, k);
    if ChargeKey(s.workers[i].phase.rest[0]) == Some(k) {
      UndoReturnsOwn(s, i, k);
    } else {
      UndoLeavesOther(s, i, k);
    }
  }

  lemma ReturnTwice(a: nat, x: nat, y: nat, limit: nat)
    ensures Min(Min(a + x, limit) + y, limit) == Min(a + x + y, limit)
  {
  }

  lemma ReturnedInTurn(s: System, t: System, u: System, k: Key, x: nat, y: nat)
    requires Returned(s, t, k, x) && Returned(t, u, k, y)
    ensures Returned(s, u, k, x + y)
  {
    if k in s.buckets {
      ReturnTwice(s.buckets[k].available, x, y, s.buckets[k].maxBurst);
    }
  }

  lemma UndoTurnsStep(s: System, t: System, i: nat, n: nat)
    requires n > 0 && i < |s.workers| && StepEnabled(s.workers[i], UndoNext)
    requires t == SystemNext(s, i, UndoNext) && ValidTurns(t, UndoTurns(i, n - 1))
    ensures ValidTurns(s, UndoTurns(i, n)) && RunSystem(s, UndoTurns(i, n)) == RunSystem(t, UndoTurns(i, n - 1))
  {
    RunFirst(s, t, Turn(i, UndoNext), UndoTurns(i, n - 1));
    assert UndoTurns(i, n) == [Turn(i, UndoNext)] + UndoTurns(i, n - 1);
  }

  lemma UndoStepWorker(s: System, i: nat)
    requires i < |s.workers| && s.workers[i].phase.Undoing? && s.workers[i].phase.rest != []
    ensures var (t, rest) := (SystemNext(s, i, UndoNext), s.workers[i].phase.rest);
      && t.debtCounter == s.debtCounter
      && t.workers == s.workers[i := Worker(s.workers[i].session,
                                            if |rest| == 1 then Idle else Undoing(rest[1..]))]
  {
  }

  // From s to u worker i has gone idle in this session, bucket k has got so many bytes back, and no
  // counter moved.
  ghost predicate AllReturned(s: System, u: System, i: nat, after: Session, k: Key, back: nat)
    requires i < |s.workers|
  {
    && Returned(s, u, k, back)
    && u.workers == s.workers[i := Worker(after, Idle)]
    && u.debtCounter == s.debtCounter
  }

  lemma FirstThenAll(s: System, t: System, u: System, i: nat, k: Key, rest: seq<Statement>)
    requires i < |s.workers| && |rest| > 1 && s.workers[i].phase == Undoing(rest)
    requires t == SystemNext(s, i, UndoNext) && Returned(s, t, k, ChargeOn(rest[0], k))
    requires |t.workers| == |s.workers| && AllReturned(t, u, i, s.workers[i].session, k, ChargeSum(rest[1..], k))
    ensures AllReturned(s, u, i, s.workers[i].session, k, ChargeSum(rest, k))
  {
    UndoStepWorker(s, i);
    ChargeSumFirst(rest, k);
    ReturnedInTurn(s, t, u, k, ChargeOn(rest[0], k), ChargeSum(rest[1..], k));
  }

  lemma LastUndo(s: System, i: nat, k: Key, st: Statement)
    requires i < |s.workers| && s.workers[i].phase == Undoing([st])
    requires Returned(s, SystemNext(s, i, UndoNext), k, ChargeOn(st, k))
    ensures AllReturned(s, SystemNext(s, i, UndoNext), i, s.workers[i].session, k, ChargeSum([st], k))
  {
    UndoStepWorker(s, i);
    ChargeSumOne(st, k);
  }

  // As many undos as there are statements run, and return all their charges.
  ghost predicate UndosReturn(s: System, i: nat, k: Key, rest: seq<Statement>)
    requires i < |s.workers|
  {
    && ValidTurns(s, UndoTurns(i, |rest|))
    && AllReturned(s, RunSystem(s, UndoTurns(i, |rest|)), i, s.workers[i].session, k, ChargeSum(rest, k))
  }

  lemma LastOfUndos(s: System, i: nat, k: Key, rest: seq<Statement>)
    requires Sound(s) && i < |s.workers| && |rest| == 1 && s.workers[i].phase == Undoing(rest)
    ensures UndosReturn(s, i, k, rest)
  {
    var t := SystemNext(s, i, UndoNext);
    UndoReturnsOne(s, i, k);
    assert UndoTurns(i, 0) == [] && rest == [rest[0]];
    LastUndo(s, i, k, rest[0]);
    UndoTurnsStep(s, t, i, 1);
  }

  // After one of several undos the others are to come.
  lemma FirstOfUndos(s: System, i: nat, k: Key, rest: seq<Statement>)
    requires Sound(s) && i < |s.workers| && |rest| > 1 && s.workers[i].phase == Undoing(rest)
    ensures var t := SystemNext(s, i, UndoNext);
      && Sound(t) && Returned(s, t, k, ChargeOn(rest[0], k)) && |t.workers| == |s.workers|
      && t.workers[i] == Worker(s.workers[i].session, Undoing(rest[1..]))
  {
    UndoReturnsOne(s, i, k);
    UndoStepWorker(s, i);
    StepSound(s, i, UndoNext);
  }

  lemma OneMoreUndo(s: System, t: System, i: nat, k: Key, rest: seq<Statement>)
    requires i < |s.workers| && |rest| > 1 && s.workers[i].phase == Undoing(rest)
    requires t == SystemNext(s, i, UndoNext) && Returned(s, t, k, ChargeOn(rest[0], k))
    requires |t.workers| == |s.workers| && t.workers[i].session == s.workers[i].session
    requires UndosReturn(t, i, k, rest[1..])
    ensures UndosReturn(s, i, k, rest)
  {
    FirstThenAll(s, t, RunSystem(t, UndoTurns(i, |rest| - 1)), i, k, rest);
    UndoTurnsStep(s, t, i, |rest|);
  }

  // Undoing goes through the drained statements one by one, and returns all their charges.
  lemma {:induction false} UndoReturnsAll(s: System, i: nat, k: Key, rest: seq<Statement>)
    requires Sound(s) && i < |s.workers| && rest != [] && s.workers[i].phase == Undoing(rest)
    ensures UndosReturn(s, i, k, rest)
    decreases |rest|
  {
    if |rest| == 1 {
      LastOfUndos(s, i, k, rest);
    } else {
      FirstOfUndos(s, i, k, rest);
      UndoReturnsAll(SystemNext(s, i, UndoNext), i, k, rest[1..]);
      OneMoreUndo(s, SystemNext(s, i, UndoNext), i, k, rest);
    }
  }

  function EndAndUndo(i: nat, ending: Ending, surviving: nat, n: nat): seq<Turn> {
    [Turn(i, EndOfTransaction(ending, surviving))] + UndoTurns(i, n)
  }

  lemma NothingToUndo(s: System, i: nat, ending: Ending, surviving: nat, k: Key)
    requires i < |s.workers| && s.workers[i].phase == Idle && surviving <= |s.workers[i].session.frames|
    requires ending == Abort || ending == ParallelAbort
    requires s.workers[i].session.stacks.active == [] && Balanced(s, k)
    ensures AllReturned(s, SystemNext(s, i, EndOfTransaction(ending, surviving)), i,
                        Next(s.workers[i].session, EndTransaction(ending, surviving)), k, 0)
  {
    AbortStep(s, i, ending, surviving);
    TallyAppend(s.book, Kept([]), k);
  }

  lemma DrainedThenAll(s: System, u: System, i: nat, ending: Ending, surviving: nat, k: Key)
    requires i < |s.workers| && s.workers[i].phase == Idle && surviving <= |s.workers[i].session.frames|
    requires ending == Abort || ending == ParallelAbort
    requires var (t, active) := (SystemNext(s, i, EndOfTransaction(ending, surviving)),
                                 s.workers[i].session.stacks.active);
      && active != [] && |t.workers| == |s.workers|
      && AllReturned(t, u, i, t.workers[i].session, k, ChargeSum(Reversed(active), k))
    ensures AllReturned(s, u, i, Next(s.workers[i].session, EndTransaction(ending, surviving)), k,
                        ChargeSum(s.workers[i].session.stacks.active, k))
  {
    AbortStep(s, i, ending, surviving);
    ChargeSumReversed(s.workers[i].session.stacks.active, k);
  }

  // An abort gives every charge of the backend's stack back to its bucket, up to the burst, and keeps
  // none: after the end of the transaction and as many undos as there were statements on the stack.
  lemma AbortReturnsCharges(s: System, i: nat, ending: Ending, surviving: nat, k: Key)
    requires Sound(s) && i < |s.workers| && s.workers[i].phase == Idle && surviving <= |s.workers[i].session.frames|
    requires ending == Abort || ending == ParallelAbort
    ensures var (active, after) := (s.workers[i].session.stacks.active,
                                    Next(s.workers[i].session, EndTransaction(ending, surviving)));
      var turns := EndAndUndo(i, ending, surviving, |active|);
      && ValidTurns(s, turns)
      && AllReturned(s, RunSystem(s, turns), i, after, k, ChargeSum(active, k))
      && after.stacks == Stacks([], [])
  {
    var active := s.workers[i].session.stacks.active;
    var t := SystemNext(s, i, EndOfTransaction(ending, surviving));
    EmptiesStacks(s.workers[i].session, ending, surviving);
    if active == [] {
      assert UndoTurns(i, 0) == [];
      assert Balanced(s, k);
      NothingToUndo(s, i, ending, surviving, k);
    } else {
      AbortStep(s, i, ending, surviving);
      ReversedLength(active);
      StepSound(s, i, EndOfTransaction(ending, surviving));
      UndoReturnsAll(t, i, k, Reversed(active));
      DrainedThenAll(s, RunSystem(t, UndoTurns(i, |active|)), i, ending, surviving, k);
    }
    RunFirst(s, t, Turn(i, EndOfTransaction(ending, surviving)), UndoTurns(i, |active|));
  }

  lemma {:induction false} ReversedLength<T>(s: seq<T>)
    ensures |Reversed(s)| == |s|
  {
    if s != [] {
      ReversedLength(s[..|s| - 1]);
    }
  }
}
