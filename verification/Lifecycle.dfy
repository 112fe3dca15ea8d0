// The per-backend statement lifecycle (src/lifecycle.rs): two stacks that the executor and utility
// hooks push and pop and that the end of a transaction drains.
module Lifecycle {
  import opened Numbers
  import opened Wrappers
  import opened Budget

  // `id` is a serial number of this model: it tells statements apart that carry equal data.
  datatype Statement = Statement(
    id: nat, decision: Decision, scopeHash: ScopeHash, startWal: Option<WalBytes>, predicted: WalBytes)

  datatype Ending = Commit | ParallelCommit | Abort | ParallelAbort | OtherEvent

  predicate Ends(e: Ending) {
    e != OtherEvent
  }

  predicate Aborts(e: Ending) {
    e == Abort || e == ParallelAbort
  }

  // ----- The two stacks -----

  datatype Stacks = Stacks(active: seq<Statement>, markers: seq<bool>)

  function Popped<T>(s: seq<T>): seq<T> {
    if s == [] then [] else s[..|s| - 1]
  }

  function Top<T>(s: seq<T>): Option<T> {
    if s == [] then None else Some(s[|s| - 1])
  }

  function Pushed(s: seq<Statement>, own: Option<Statement>): seq<Statement> {
    if own.Some? then s + [own.value] else s
  }

  function ExecutorStart(s: Stacks, own: Option<Statement>): Stacks {
    Stacks(Pushed(s.active, own), s.markers + [own.Some?])
  }

  function ExecutorComplete(s: Stacks): (Stacks, Option<Statement>) {
    var t := s.(markers := Popped(s.markers));
    if Top(s.markers) == Some(true) then (t.(active := Popped(s.active)), Top(s.active)) else (t, None)
  }

  function UtilityStart(s: Stacks, own: Option<Statement>): Stacks {
    s.(active := Pushed(s.active, own))
  }

  function UtilityComplete(s: Stacks, admitted: bool): (Stacks, Option<Statement>) {
    if admitted then (s.(active := Popped(s.active)), Top(s.active)) else (s, None)
  }

  function Reversed<T>(s: seq<T>): seq<T> {
    if s == [] then [] else [s[|s| - 1]] + Reversed(s[..|s| - 1])
  }

  class Backend {
    var active: seq<Statement>
    var markers: seq<bool>

    function Value(): Stacks
      reads this
    {
      Stacks(active, markers)
    }

    constructor ()
      ensures Value() == Stacks([], [])
    {
      active, markers := [], [];
    }

    // `own` is the admitted statement: none when the hook is disabled, bypassed, read-only, or when
    // admission failed open.
    method ExecutorStatementStart(own: Option<Statement>)
      modifies this
      ensures Value() == ExecutorStart(old(Value()), own)
    {
      if own.Some? {
        active := active + [own.value];
      }
      markers := markers + [own.Some?];
    }

    method PopMarker() returns (admitted: bool)
      modifies this
      ensures markers == Popped(old(markers)) && active == old(active)
      ensures admitted == (Top(old(markers)) == Some(true))
    {
      if markers == [] {
        return false;
      }
      admitted, markers := markers[|markers| - 1], markers[..|markers| - 1];
    }

    method PopActive() returns (statement: Option<Statement>)
      modifies this
      ensures active == Popped(old(active)) && markers == old(markers)
      ensures statement == Top(old(active))
    {
      if active == [] {
        return None;
      }
      statement, active := Some(active[|active| - 1]), active[..|active| - 1];
    }

    method ExecutorStatementComplete() returns (popped: Option<Statement>)
      modifies this
      ensures (Value(), popped) == ExecutorComplete(old(Value()))
    {
      popped := None;
      var admitted := PopMarker();
      if admitted {
        popped := PopActive();
      }
    }

    method UtilityStatementStart(own: Option<Statement>) returns (admitted: bool)
      modifies this
      ensures Value() == UtilityStart(old(Value()), own) && admitted == own.Some?
    {
      if own.Some? {
        active := active + [own.value];
      }
      admitted := own.Some?;
    }

    method UtilityStatementComplete(admitted: bool) returns (popped: Option<Statement>)
      modifies this
      ensures (Value(), popped) == UtilityComplete(old(Value()), admitted)
    {
      popped := None;
      if admitted {
        popped := PopActive();
      }
    }

    // Statements leave the stack last in, first out.
    method TransactionEnding(e: Ending) returns (drained: seq<Statement>)
      modifies this
      ensures e == OtherEvent ==> Value() == old(Value()) && drained == []
      ensures e != OtherEvent ==> Value() == Stacks([], []) && drained == Reversed(old(active))
    {
      drained := [];
      if !Ends(e) {
        return;
      }
      markers := [];
      ghost var all := active;
      while active != []
        invariant markers == [] && active <= all
        invariant drained + Reversed(active) == Reversed(all)
      {
        drained, active := drained + [active[|active| - 1]], active[..|active| - 1];
      }
      assert Reversed(active) == [];
    }
  }

  // ----- Sessions: the stacks together with the calls that are really open -----

  datatype Hook = Executor | Utility

  // An open call, and the statement it pushed. The utility hook keeps `own.Some?` in a local.
  datatype Frame = Frame(hook: Hook, own: Option<Statement>)

  // `stale` counts the open calls that were already open at the last drain. `admitted` and `settled`
  // are histories: every statement pushed, and every statement handed to settlement.
  datatype Session = Session(
    stacks: Stacks, frames: seq<Frame>, stale: nat, admitted: seq<Statement>, settled: seq<Statement>)

  const FRESH_SESSION := Session(Stacks([], []), [], 0, [], [])

  // `Complete(i)` ends open call i, whatever opened after it is still open: a call that an aborted
  // subtransaction abandoned never ends, and the calls below it do. A transaction may end anywhere among
  // the open calls, and `surviving` of them go on (all of them for COMMIT or ROLLBACK inside a procedure,
  // none when an error unwinds to the top).
  datatype Event =
    | Start(hook: Hook, own: Option<Statement>)
    | Complete(call: nat)
    | EndTransaction(ending: Ending, surviving: nat)

  predicate Enabled(s: Session, e: Event) {
    match e
    case Start(_, _) => true
    case Complete(i) => i < |s.frames|
    case EndTransaction(ending, surviving) =>
      if Ends(ending) then surviving <= |s.frames| else surviving == |s.frames|
  }

  // What the hook of open call i does to the stacks when the call ends.
  function CompleteCall(s: Session, i: nat): (Stacks, Option<Statement>)
    requires i < |s.frames|
  {
    match s.frames[i].hook
    case Executor => ExecutorComplete(s.stacks)
    case Utility => UtilityComplete(s.stacks, s.frames[i].own.Some?)
  }

  function Without<T>(s: seq<T>, i: nat): seq<T>
    requires i < |s|
  {
    s[..i] + s[i + 1..]
  }

  function Next(s: Session, e: Event): Session
    requires Enabled(s, e)
  {
    match e
    case Start(hook, own) =>
      s.(stacks := (match hook case Executor => ExecutorStart(s.stacks, own)
                               case Utility => UtilityStart(s.stacks, own)),
         frames := s.frames + [Frame(hook, own)],
         admitted := Pushed(s.admitted, own))
    case Complete(i) =>
      var (stacks, popped) := CompleteCall(s, i);
      s.(stacks := stacks, frames := Without(s.frames, i), stale := if i < s.stale then s.stale - 1 else s.stale,
         settled := Pushed(s.settled, popped))
    case EndTransaction(ending, surviving) =>
      if !Ends(ending) then s
      else s.(stacks := Stacks([], []), frames := s.frames[..surviving], stale := surviving,
              settled := s.settled + Reversed(s.stacks.active))
  }

  ghost predicate ValidRun(s: Session, events: seq<Event>)
    decreases |events|
  {
    events != [] ==> Enabled(s, events[0]) && ValidRun(Next(s, events[0]), events[1..])
  }

  ghost function RunSession(s: Session, events: seq<Event>): Session
    requires ValidRun(s, events)
    decreases |events|
  {
    if events == [] then s else RunSession(Next(s, events[0]), events[1..])
  }

  // ----- Exactly once, whatever order calls end in -----

  // Open calls whose end may take something off a stack: executor calls, or admitted utility calls.
  predicate Counts(f: Frame, hook: Hook) {
    f.hook == hook && (hook == Utility ==> f.own.Some?)
  }

  function OpenCalls(frames: seq<Frame>, hook: Hook): nat {
    if frames == [] then 0
    else OpenCalls(frames[..|frames| - 1], hook) + if Counts(frames[|frames| - 1], hook) then 1 else 0
  }

  function Trues(markers: seq<bool>): nat {
    if markers == [] then 0
    else Trues(markers[..|markers| - 1]) + if markers[|markers| - 1] then 1 else 0
  }

  // Every statement pushed was settled or is on the stack; no marker outnumbers the open executor calls;
  // and every statement on the stack has a marker or an open utility call to pop it.
  ghost predicate Accounted(s: Session) {
    && multiset(s.settled) + multiset(s.stacks.active) == multiset(s.admitted)
    && |s.stacks.markers| <= OpenCalls(s.frames, Executor)
    && |s.stacks.active| <= Trues(s.stacks.markers) + OpenCalls(s.frames, Utility)
  }

  lemma {:induction false} ReversedSame<T>(s: seq<T>)
    ensures multiset(Reversed(s)) == multiset(s)
  {
    if s != [] {
      ReversedSame(s[..|s| - 1]);
      assert s == s[..|s| - 1] + [s[|s| - 1]];
    }
  }

  lemma {:induction false} OpenCallsConcat(a: seq<Frame>, b: seq<Frame>, hook: Hook)
    ensures OpenCalls(a + b, hook) == OpenCalls(a, hook) + OpenCalls(b, hook)
  {
    if b == [] {
      assert a + b == a;
    } else {
      OpenCallsConcat(a, b[..|b| - 1], hook);
      assert (a + b)[..|a + b| - 1] == a + b[..|b| - 1];
    }
  }

  lemma OpenCallsWithout(frames: seq<Frame>, i: nat, hook: Hook)
    requires i < |frames|
    ensures OpenCalls(Without(frames, i), hook) == OpenCalls(frames, hook) - if Counts(frames[i], hook) then 1 else 0
  {
    assert frames == frames[..i] + [frames[i]] + frames[i + 1..];
    OpenCallsConcat(frames[..i] + [frames[i]], frames[i + 1..], hook);
    OpenCallsConcat(frames[..i], [frames[i]], hook);
    OpenCallsConcat(frames[..i], frames[i + 1..], hook);
    assert OpenCalls([frames[i]], hook) == if Counts(frames[i], hook) then 1 else 0 by {
      assert [frames[i]][..0] == [];
    }
  }

  lemma OneMore(frames: seq<Frame>, f: Frame, markers: seq<bool>, m: bool, hook: Hook)
    ensures OpenCalls(frames + [f], hook) == OpenCalls(frames, hook) + if Counts(f, hook) then 1 else 0
    ensures Trues(markers + [m]) == Trues(markers) + if m then 1 else 0
  {
    assert (frames + [f])[..|frames|] == frames && (markers + [m])[..|markers|] == markers;
  }

  // Whoever it belongs to, what a completion pops is what leaves the stack.
  lemma PoppedLeavesStack(s: Session, i: nat)
    requires i < |s.frames|
    ensures var (stacks, popped) := CompleteCall(s, i);
      s.stacks.active == Pushed(stacks.active, popped)
  {
  }

  // What a completion takes off the stacks, in numbers.
  lemma CompletionCounts(s: Session, i: nat)
    requires i < |s.frames|
    ensures var (f, t) := (s.frames[i], CompleteCall(s, i).0);
      if f.hook == Executor then
        && |t.markers| == Excess(|s.stacks.markers|, 1)
        && (Top(s.stacks.markers) == Some(true) ==>
              Trues(t.markers) == Trues(s.stacks.markers) - 1 && |t.active| == Excess(|s.stacks.active|, 1))
        && (Top(s.stacks.markers) != Some(true) ==>
              Trues(t.markers) == Trues(s.stacks.markers) && t.active == s.stacks.active)
      else
        t.markers == s.stacks.markers && |t.active| == Excess(|s.stacks.active|, if f.own.Some? then 1 else 0)
  {
  }

  lemma StartKeepsAccounted(s: Session, hook: Hook, own: Option<Statement>)
    requires Accounted(s)
    ensures Accounted(Next(s, Start(hook, own)))
  {
    OneMore(s.frames, Frame(hook, own), s.stacks.markers, own.Some?, Executor);
    OneMore(s.frames, Frame(hook, own), s.stacks.markers, own.Some?, Utility);
  }

  lemma CompleteKeepsStatements(s: Session, i: nat)
    requires i < |s.frames| && multiset(s.settled) + multiset(s.stacks.active) == multiset(s.admitted)
    ensures var t := Next(s, Complete(i));
      multiset(t.settled) + multiset(t.stacks.active) == multiset(t.admitted)
  {
    PoppedLeavesStack(s, i);
  }

  lemma CompleteKeepsCounts(s: Session, i: nat)
    requires Accounted(s) && i < |s.frames|
    ensures var t := CompleteCall(s, i).0;
      && |t.markers| <= OpenCalls(Without(s.frames, i), Executor)
      && |t.active| <= Trues(t.markers) + OpenCalls(Without(s.frames, i), Utility)
  {
    CompletionCounts(s, i);
    OpenCallsWithout(s.frames, i, Executor);
    OpenCallsWithout(s.frames, i, Utility);
  }

  lemma CompleteKeepsAccounted(s: Session, i: nat)
    requires Accounted(s) && i < |s.frames|
    ensures Accounted(Next(s, Complete(i)))
  {
    CompleteKeepsStatements(s, i);
    CompleteKeepsCounts(s, i);
  }

  // Nothing is left on the stacks at the end of a transaction.
  lemma EndSettlesAll(s: Session, ending: Ending, surviving: nat)
    requires Accounted(s) && Ends(ending) && surviving <= |s.frames|
    ensures var t := Next(s, EndTransaction(ending, surviving));
      Accounted(t) && t.stacks == Stacks([], []) && multiset(t.settled) == multiset(t.admitted)
  {
    ReversedSame(s.stacks.active);
  }

  lemma StepKeepsAccounted(s: Session, e: Event)
    requires Accounted(s) && Enabled(s, e)
    ensures Accounted(Next(s, e))
  {
    match e {
      case Start(hook, own) => StartKeepsAccounted(s, hook, own);
      case Complete(i) => CompleteKeepsAccounted(s, i);
      case EndTransaction(ending, surviving) =>
        if Ends(ending) {
          EndSettlesAll(s, ending, surviving);
        }
    }
  }

  lemma {:induction false} RunKeepsAccounted(s: Session, events: seq<Event>)
    requires Accounted(s) && ValidRun(s, events)
    ensures Accounted(RunSession(s, events))
    decreases |events|
  {
    if events != [] {
      StepKeepsAccounted(s, events[0]);
      RunKeepsAccounted(Next(s, events[0]), events[1..]);
    }
  }

  lemma NoCallNoMarker(s: Session)
    requires Accounted(s) && s.frames == []
    ensures s.stacks == Stacks([], [])
  {
  }

  // In every run, in whatever order calls end and whichever never do, each admitted statement has been
  // settled exactly once or is still on the stack exactly once; once no call is open, and whenever the
  // transaction ends, all have been settled.
  lemma ExactlyOnceSettlement(events: seq<Event>)
    requires ValidRun(FRESH_SESSION, events)
    ensures var s := RunSession(FRESH_SESSION, events);
      && multiset(s.settled) + multiset(s.stacks.active) == multiset(s.admitted)
      && (Distinct(s.admitted) ==>
            Distinct(s.settled) && forall st :: st in s.settled ==> st in s.admitted && st !in s.stacks.active)
      && (s.frames == [] ==> s.stacks == Stacks([], []) && multiset(s.settled) == multiset(s.admitted))
    ensures var s := RunSession(FRESH_SESSION, events);
      forall ending, surviving: nat {:trigger EndTransaction(ending, surviving)} ::
        Ends(ending) && surviving <= |s.frames| ==>
          var t := Next(s, EndTransaction(ending, surviving));
          t.stacks == Stacks([], []) && multiset(t.settled) == multiset(t.admitted)
  {
    RunKeepsAccounted(FRESH_SESSION, events);
    var s := RunSession(FRESH_SESSION, events);
    if Distinct(s.admitted) {
      PartsOfDistinct(s.settled, s.stacks.active, s.admitted);
    }
    if s.frames == [] {
      NoCallNoMarker(s);
    }
    forall ending, surviving: nat | Ends(ending) && surviving <= |s.frames|
      ensures var t := Next(s, EndTransaction(ending, surviving));
        t.stacks == Stacks([], []) && multiset(t.settled) == multiset(t.admitted)
    {
      EndSettlesAll(s, ending, surviving);
    }
  }

  ghost predicate Distinct<T(!new)>(s: seq<T>) {
    forall i, j :: 0 <= i < j < |s| ==> s[i] != s[j]
  }

  // Two parts of a sequence without repetitions have none, and share nothing.
  lemma PartsOfDistinct<T(!new)>(a: seq<T>, b: seq<T>, all: seq<T>)
    requires multiset(a) + multiset(b) == multiset(all) && Distinct(all)
    ensures Distinct(a) && forall x :: x in a ==> x in all && x !in b
  {
    DistinctCounts(all);
    forall x ensures multiset(a)[x] + multiset(b)[x] <= 1 {
      assert (multiset(a) + multiset(b))[x] == multiset(all)[x];
    }
    CountsDistinct(a);
    forall x | x in a ensures x in all && x !in b {
      assert x in multiset(a);
      assert x in multiset(all);
    }
  }

  lemma {:induction false} DistinctCounts<T(!new)>(s: seq<T>)
    requires Distinct(s)
    ensures forall x :: multiset(s)[x] <= 1
  {
    if s != [] {
      var n := |s| - 1;
      DistinctCounts(s[..n]);
      assert s == s[..n] + [s[n]];
      assert s[n] !in s[..n];
    }
  }

  lemma CountsDistinct<T(!new)>(s: seq<T>)
    requires forall x :: multiset(s)[x] <= 1
    ensures Distinct(s)
  {
    forall i, j | 0 <= i < j < |s| ensures s[i] != s[j] {
      assert s == s[..j] + s[j..];
      assert s[i] in s[..j] && s[j] in s[j..];
      assert multiset(s)[s[i]] >= 1 + multiset(s[j..])[s[i]];
    }
  }

  // ----- Whose statement a call pops -----

  function Owned(frames: seq<Frame>): seq<Statement> {
    if frames == [] then [] else Pushed(Owned(frames[..|frames| - 1]), frames[|frames| - 1].own)
  }

  function Marks(frames: seq<Frame>): seq<bool> {
    if frames == [] then []
    else
      var f := frames[|frames| - 1];
      if f.hook == Executor then Marks(frames[..|frames| - 1]) + [f.own.Some?] else Marks(frames[..|frames| - 1])
  }

  // The stacks hold exactly what the calls opened since the last drain pushed, in order.
  ghost predicate Aligned(s: Session) {
    && s.stale <= |s.frames|
    && s.stacks.active == Owned(s.frames[s.stale..])
    && s.stacks.markers == Marks(s.frames[s.stale..])
  }

  // Ending f while g, opened after it and since the last drain, is still open does no harm. `live` says
  // that f too was opened since the last drain.
  predicate Harmless(f: Frame, live: bool, g: Frame) {
    match f.hook
    case Utility => f.own.Some? ==> g.own.None?
    case Executor =>
      if !live then g.hook == Utility
      else if f.own.Some? then g == Frame(Utility, None)
      else g.hook == Executor ==> g.own.None?
  }

  // Call i ends in order: every call that opened after it has ended, or does no harm. The innermost open
  // call always ends in order.
  predicate InOrder(s: Session, i: nat)
    requires i < |s.frames|
  {
    forall j :: i < j < |s.frames| && s.stale <= j ==> Harmless(s.frames[i], s.stale <= i, s.frames[j])
  }

  lemma OwnedAppend(frames: seq<Frame>, f: Frame)
    ensures Owned(frames + [f]) == Pushed(Owned(frames), f.own)
    ensures Marks(frames + [f]) == if f.hook == Executor then Marks(frames) + [f.own.Some?] else Marks(frames)
  {
    assert (frames + [f])[..|frames|] == frames;
  }

  lemma WithoutBeforeLast<T>(s: seq<T>, i: nat)
    requires i < |s| - 1
    ensures Without(s, i) == Without(s[..|s| - 1], i) + [s[|s| - 1]]
  {
  }

  // Taking a call out of the open ones, when it does no later one harm, takes its statement off the top.
  lemma {:induction false} RemovedOwn(live: seq<Frame>, i: nat)
    requires i < |live| && forall j :: i < j < |live| ==> Harmless(live[i], true, live[j])
    ensures Owned(Without(live, i)) == if live[i].own.Some? then Popped(Owned(live)) else Owned(live)
    ensures live[i].own.Some? ==> Top(Owned(live)) == live[i].own
  {
    var n := |live| - 1;
    if i == n {
      assert Without(live, i) == live[..n];
    } else {
      RemovedOwn(live[..n], i);
      WithoutBeforeLast(live, i);
      OwnedAppend(Without(live[..n], i), live[n]);
    }
  }

  // Likewise its marker.
  lemma {:induction false} RemovedMark(live: seq<Frame>, i: nat)
    requires i < |live| && forall j :: i < j < |live| ==> Harmless(live[i], true, live[j])
    ensures Marks(Without(live, i)) == if live[i].hook == Executor then Popped(Marks(live)) else Marks(live)
    ensures live[i].hook == Executor ==> Top(Marks(live)) == Some(live[i].own.Some?)
  {
    var n := |live| - 1;
    if i == n {
      assert Without(live, i) == live[..n];
    } else {
      RemovedMark(live[..n], i);
      WithoutBeforeLast(live, i);
      OwnedAppend(Without(live[..n], i), live[n]);
      if live[i].hook == Executor && live[n].hook == Executor {
        assert Popped(Marks(live[..n])) + [false] == Marks(live[..n]);
      }
    }
  }

  lemma {:induction false} NoneOwned(live: seq<Frame>)
    ensures Owned(live) == [] <==> forall j :: 0 <= j < |live| ==> live[j].own.None?
    ensures Marks(live) == [] <==> forall j :: 0 <= j < |live| ==> live[j].hook == Utility
  {
    if live != [] {
      NoneOwned(live[..|live| - 1]);
    }
  }

  lemma HarmlessLive(s: Session, i: nat)
    requires s.stale <= i < |s.frames| && InOrder(s, i)
    ensures var live := s.frames[s.stale..];
      forall j :: i - s.stale < j < |live| ==> Harmless(live[i - s.stale], true, live[j])
  {
    var live := s.frames[s.stale..];
    forall j | i - s.stale < j < |live| ensures Harmless(live[i - s.stale], true, live[j]) {
      assert live[j] == s.frames[j + s.stale];
    }
  }

  lemma LiveTops(s: Session, i: nat)
    requires Aligned(s) && s.stale <= i < |s.frames| && InOrder(s, i)
    ensures s.frames[i].own.Some? ==> Top(s.stacks.active) == s.frames[i].own
    ensures s.frames[i].hook == Executor ==> Top(s.stacks.markers) == Some(s.frames[i].own.Some?)
  {
    var live := s.frames[s.stale..];
    HarmlessLive(s, i);
    RemovedOwn(live, i - s.stale);
    RemovedMark(live, i - s.stale);
  }

  lemma DrainedTops(s: Session, i: nat)
    requires Aligned(s) && i < s.stale && InOrder(s, i)
    ensures s.frames[i].hook == Executor ==> s.stacks.markers == []
    ensures s.frames[i].hook == Utility && s.frames[i].own.Some? ==> s.stacks.active == []
  {
    var live := s.frames[s.stale..];
    NoneOwned(live);
    forall j | 0 <= j < |live| ensures Harmless(s.frames[i], false, live[j]) {
      assert live[j] == s.frames[j + s.stale];
    }
  }

  // A completion in order takes its own statement off the stack, or, when the transaction has ended
  // since the call was opened, nothing: never another call's statement.
  lemma CompletionPopsItsOwn(s: Session, i: nat)
    requires Aligned(s) && i < |s.frames| && InOrder(s, i)
    ensures var (stacks, popped) := CompleteCall(s, i);
      && popped == (if s.stale <= i then s.frames[i].own else None)
      && s.stacks.active == Pushed(stacks.active, popped)
  {
    if s.stale <= i {
      LiveTops(s, i);
    } else {
      DrainedTops(s, i);
    }
  }

  lemma StartKeepsAligned(s: Session, hook: Hook, own: Option<Statement>)
    requires Aligned(s)
    ensures Aligned(Next(s, Start(hook, own)))
  {
    var t := Next(s, Start(hook, own));
    OwnedAppend(s.frames[s.stale..], Frame(hook, own));
    assert t.frames[t.stale..] == s.frames[s.stale..] + [Frame(hook, own)];
  }

  lemma LiveWithout(s: Session, i: nat)
    requires s.stale <= |s.frames| && i < |s.frames|
    ensures var t := Without(s.frames, i);
      if i < s.stale then t[s.stale - 1..] == s.frames[s.stale..]
      else s.stale <= |t| && t[s.stale..] == Without(s.frames[s.stale..], i - s.stale)
  {
  }

  // The stacks the end of a call leaves when it finds its own marker and statement on top.
  lemma EndOnTop(stacks: Stacks, f: Frame)
    requires f.hook == Executor ==> Top(stacks.markers) == Some(f.own.Some?)
    ensures var t := if f.hook == Executor then ExecutorComplete(stacks).0 else UtilityComplete(stacks, f.own.Some?).0;
      && t.active == (if f.own.Some? then Popped(stacks.active) else stacks.active)
      && t.markers == (if f.hook == Executor then Popped(stacks.markers) else stacks.markers)
  {
  }

  // The stacks a completion in order leaves are those of the calls still open.
  lemma LiveStacksWithout(s: Session, i: nat)
    requires Aligned(s) && s.stale <= i < |s.frames| && InOrder(s, i)
    ensures var (stacks, rest) := (CompleteCall(s, i).0, Without(s.frames[s.stale..], i - s.stale));
      stacks.active == Owned(rest) && stacks.markers == Marks(rest)
  {
    var live, m := s.frames[s.stale..], i - s.stale;
    assert live[m] == s.frames[i];
    HarmlessLive(s, i);
    RemovedOwn(live, m);
    RemovedMark(live, m);
    EndOnTop(s.stacks, live[m]);
  }

  lemma StacksWithout(s: Session, i: nat)
    requires Aligned(s) && i < |s.frames| && InOrder(s, i)
    ensures var t := Next(s, Complete(i));
      && t.stale <= |t.frames|
      && t.stacks.active == Owned(t.frames[t.stale..]) && t.stacks.markers == Marks(t.frames[t.stale..])
  {
    LiveWithout(s, i);
    if s.stale <= i {
      LiveStacksWithout(s, i);
    } else {
      DrainedTops(s, i);
      assert CompleteCall(s, i).0 == s.stacks;
    }
  }

  lemma CompleteKeepsAligned(s: Session, i: nat)
    requires Aligned(s) && i < |s.frames| && InOrder(s, i)
    ensures Aligned(Next(s, Complete(i)))
  {
    StacksWithout(s, i);
  }

  lemma StepKeepsAligned(s: Session, e: Event)
    requires Aligned(s) && Enabled(s, e) && (e.Complete? ==> InOrder(s, e.call))
    ensures Aligned(Next(s, e))
  {
    match e {
      case Start(hook, own) => StartKeepsAligned(s, hook, own);
      case Complete(i) => CompleteKeepsAligned(s, i);
      case EndTransaction(ending, surviving) =>
        var t := Next(s, e);
        assert Ends(ending) ==> t.frames[t.stale..] == [];
    }
  }

  // Every call of the run ends in order.
  ghost predicate InOrderRun(s: Session, events: seq<Event>)
    decreases |events|
  {
    events != [] ==>
      && Enabled(s, events[0])
      && (events[0].Complete? ==> InOrder(s, events[0].call))
      && InOrderRun(Next(s, events[0]), events[1..])
  }

  lemma {:induction false} RunKeepsAligned(s: Session, events: seq<Event>)
    requires Aligned(s) && InOrderRun(s, events)
    ensures ValidRun(s, events) && Aligned(RunSession(s, events))
    decreases |events|
  {
    if events != [] {
      StepKeepsAligned(s, events[0]);
      RunKeepsAligned(Next(s, events[0]), events[1..]);
    }
  }

  // ----- Calls that end out of order -----

  // The last open executor call, if any.
  function LastExecutor(frames: seq<Frame>): (q: Option<nat>)
    ensures q.Some? ==> q.value < |frames| && frames[q.value].hook == Executor
    ensures forall j :: 0 <= j < |frames| && (q.Some? ==> q.value < j) ==> frames[j].hook == Utility
  {
    var n := |frames| - 1;
    if frames == [] then None
    else if frames[n].hook == Executor then Some(n)
    else
      var q := LastExecutor(frames[..n]);
      assert frames[n].hook == Utility && forall j :: 0 <= j < n ==> frames[..n][j] == frames[j];
      q
  }

  predicate LastExecutorAdmitted(frames: seq<Frame>) {
    var q := LastExecutor(frames);
    q.Some? && frames[q.value].own.Some?
  }

  ghost predicate DistinctOwn(frames: seq<Frame>) {
    forall i, j :: 0 <= i < j < |frames| && frames[i].own.Some? ==> frames[i].own != frames[j].own
  }

  // When ending call i pops that call's own statement, whatever else is open. An admitted call: nothing
  // admitted opened after it, and, for the executor, no executor call at all. A call with nothing of its
  // own on the stack: the last executor call was not admitted, or, for a utility call whose statement
  // was drained, no call opened since then was.
  predicate PopsOwn(s: Session, i: nat)
    requires i < |s.frames| && s.stale <= |s.frames|
  {
    var f := s.frames[i];
    if f.hook == Utility && f.own.None? then true
    else if s.stale <= i && f.own.Some? then
      forall j :: i < j < |s.frames| ==> s.frames[j].own.None? && (f.hook == Executor ==> s.frames[j].hook == Utility)
    else if f.hook == Executor then !LastExecutorAdmitted(s.frames[s.stale..])
    else forall j :: s.stale <= j < |s.frames| ==> s.frames[j].own.None?
  }

  lemma {:induction false} TopMark(live: seq<Frame>)
    ensures Top(Marks(live)) == Some(true) <==> LastExecutorAdmitted(live)
  {
    if live != [] {
      TopMark(live[..|live| - 1]);
    }
  }

  lemma {:induction false} TopOwned(live: seq<Frame>, i: nat)
    requires i < |live| && live[i].own.Some? && DistinctOwn(live)
    ensures Top(Owned(live)) == live[i].own <==> forall j :: i < j < |live| ==> live[j].own.None?
  {
    var n := |live| - 1;
    if i < n {
      assert live[i].own != live[n].own;
      TopOwned(live[..n], i);
    }
  }

  lemma AdmittedPopsOwnIff(s: Session, i: nat)
    requires Aligned(s) && s.stale <= i < |s.frames| && s.frames[i].own.Some? && DistinctOwn(s.frames[s.stale..])
    ensures CompleteCall(s, i).1 == s.frames[i].own <==> PopsOwn(s, i)
  {
    var live := s.frames[s.stale..];
    assert forall j :: s.stale <= j < |s.frames| ==> s.frames[j] == live[j - s.stale];
    TopOwned(live, i - s.stale);
    TopMark(live);
    var q := LastExecutor(live);
    if s.frames[i].hook == Executor {
      assert q.Some? && q.value >= i - s.stale;
    }
  }

  lemma ExecutorPopsNothingIff(s: Session, i: nat)
    requires Aligned(s) && i < |s.frames| && s.frames[i].hook == Executor
    ensures CompleteCall(s, i).1 == None <==> !LastExecutorAdmitted(s.frames[s.stale..])
  {
    var live := s.frames[s.stale..];
    TopMark(live);
    NoneOwned(live);
    if LastExecutorAdmitted(live) {
      assert live[LastExecutor(live).value].own.Some?;
    }
  }

  lemma DrainedUtilityPopsNothingIff(s: Session, i: nat)
    requires Aligned(s) && i < s.stale && s.frames[i].hook == Utility && s.frames[i].own.Some?
    ensures CompleteCall(s, i).1 == None <==> forall j :: s.stale <= j < |s.frames| ==> s.frames[j].own.None?
  {
    var live := s.frames[s.stale..];
    NoneOwned(live);
    assert forall j :: s.stale <= j < |s.frames| ==> s.frames[j] == live[j - s.stale];
  }

  // In an aligned session the end of any open call, in order or not, pops that call's own statement
  // exactly under this condition.
  lemma CompletionPopsOwnIff(s: Session, i: nat)
    requires Aligned(s) && i < |s.frames| && DistinctOwn(s.frames[s.stale..])
    ensures CompleteCall(s, i).1 == (if s.stale <= i then s.frames[i].own else None) <==> PopsOwn(s, i)
  {
    if s.stale <= i && s.frames[i].own.Some? {
      AdmittedPopsOwnIff(s, i);
    } else if s.frames[i].hook == Executor {
      ExecutorPopsNothingIff(s, i);
    } else if s.frames[i].own.Some? {
      DrainedUtilityPopsNothingIff(s, i);
    }
  }

  // A call that ends in order meets the condition.
  lemma InOrderPopsOwn(s: Session, i: nat)
    requires Aligned(s) && i < |s.frames| && DistinctOwn(s.frames[s.stale..]) && InOrder(s, i)
    ensures PopsOwn(s, i)
  {
    CompletionPopsItsOwn(s, i);
    CompletionPopsOwnIff(s, i);
  }

  lemma {:induction false} MarksConcat(a: seq<Frame>, b: seq<Frame>)
    ensures Marks(a + b) == Marks(a) + Marks(b)
  {
    if b == [] {
      assert a + b == a;
    } else {
      MarksConcat(a, b[..|b| - 1]);
      assert (a + b)[..|a + b| - 1] == a + b[..|b| - 1];
    }
  }

  lemma {:induction false} MarkOf(frames: seq<Frame>, j: nat)
    requires j < |frames| && frames[j].hook == Executor
    ensures frames[j].own.Some? in Marks(frames)
  {
    if j < |frames| - 1 {
      MarkOf(frames[..|frames| - 1], j);
    }
  }

  // A sequence that is itself moved up by one behind x is x all through.
  lemma {:induction false} ShiftedIsConstant(x: bool, b: seq<bool>, k: nat)
    requires k < |b| && [x] + b[..|b| - 1] == b
    ensures b[k] == x
  {
    assert ([x] + b[..|b| - 1])[k] == if k == 0 then x else b[k - 1];
    if k > 0 {
      ShiftedIsConstant(x, b, k - 1);
    }
  }

  lemma TailIsConstant(a: seq<bool>, x: bool, b: seq<bool>, k: nat)
    requires k < |b| && Popped(a + [x] + b) == a + b
    ensures b[k] == x
  {
    var tail := [x] + b[..|b| - 1];
    assert a + [x] + b == a + ([x] + b);
    assert Popped(a + [x] + b) == a + tail;
    assert (a + tail)[|a|..] == tail && (a + b)[|a|..] == b;
    ShiftedIsConstant(x, b, k);
  }

  lemma MarksUpTo(live: seq<Frame>, m: nat)
    requires m < |live| && live[m].hook == Executor
    ensures Marks(live[..m + 1]) == Marks(live[..m]) + [live[m].own.Some?]
  {
    assert live[..m + 1][..m] == live[..m];
  }

  lemma MarksAround(live: seq<Frame>, m: nat)
    requires m < |live| && live[m].hook == Executor
    ensures Marks(live) == Marks(live[..m]) + [live[m].own.Some?] + Marks(live[m + 1..])
    ensures Marks(Without(live, m)) == Marks(live[..m]) + Marks(live[m + 1..])
  {
    MarksUpTo(live, m);
    assert live == live[..m + 1] + live[m + 1..];
    MarksConcat(live[..m + 1], live[m + 1..]);
    MarksConcat(live[..m], live[m + 1..]);
  }

  // Taking the last marker away leaves those of the calls without m only if every later marker is m's.
  lemma LaterMarksAgree(live: seq<Frame>, m: nat, j: nat)
    requires m < j < |live| && live[m] == Frame(Executor, None) && live[j].hook == Executor
    requires Popped(Marks(live)) == Marks(Without(live, m))
    ensures live[j].own.None?
  {
    var b := Marks(live[m + 1..]);
    MarksAround(live, m);
    assert live[m + 1..][j - m - 1] == live[j];
    MarkOf(live[m + 1..], j - m - 1);
    var k :| 0 <= k < |b| && b[k] == live[j].own.Some?;
    TailIsConstant(Marks(live[..m]), false, b, k);
  }

  lemma MarksAfterEnd(s: Session, i: nat)
    requires Aligned(s) && s.stale <= i < |s.frames| && s.frames[i].hook == Executor
    requires Aligned(Next(s, Complete(i)))
    ensures Popped(Marks(s.frames[s.stale..])) == Marks(Without(s.frames[s.stale..], i - s.stale))
  {
    LiveWithout(s, i);
  }

  // An executor call with nothing of its own on the stack that leaves the markers of the other calls.
  lemma LiveMarksHarmless(s: Session, i: nat)
    requires Aligned(s) && s.stale <= i < |s.frames| && s.frames[i] == Frame(Executor, None)
    requires Aligned(Next(s, Complete(i)))
    ensures InOrder(s, i)
  {
    var live, m := s.frames[s.stale..], i - s.stale;
    MarksAfterEnd(s, i);
    assert live[m] == s.frames[i];
    forall j | i < j < |s.frames| && s.frames[j].hook == Executor ensures s.frames[j].own.None? {
      assert live[j - s.stale] == s.frames[j];
      LaterMarksAgree(live, m, j - s.stale);
    }
  }

  lemma DrainedMarksHarmless(s: Session, i: nat)
    requires Aligned(s) && i < s.stale && s.frames[i].hook == Executor
    requires Aligned(Next(s, Complete(i)))
    ensures InOrder(s, i)
  {
    var live := s.frames[s.stale..];
    LiveWithout(s, i);
    assert Popped(Marks(live)) == Marks(live);
    NoneOwned(live);
    forall j | s.stale <= j < |s.frames| ensures Harmless(s.frames[i], false, s.frames[j]) {
      assert live[j - s.stale] == s.frames[j];
    }
  }

  // In order means exactly this: the completion pops the call's own statement, or nothing after a drain,
  // and leaves the stacks of the calls that are still open.
  lemma InOrderIff(s: Session, i: nat)
    requires Aligned(s) && i < |s.frames| && DistinctOwn(s.frames[s.stale..])
    ensures InOrder(s, i) <==>
      && CompleteCall(s, i).1 == (if s.stale <= i then s.frames[i].own else None)
      && Aligned(Next(s, Complete(i)))
  {
    if InOrder(s, i) {
      CompletionPopsItsOwn(s, i);
      CompleteKeepsAligned(s, i);
    } else if Aligned(Next(s, Complete(i))) {
      CompletionPopsOwnIff(s, i);
      if s.frames[i].hook == Executor && i < s.stale {
        DrainedMarksHarmless(s, i);
      } else if s.frames[i] == Frame(Executor, None) {
        LiveMarksHarmless(s, i);
      }
    }
  }

  lemma LastExecutorLast(frames: seq<Frame>, f: Frame)
    requires f == Frame(Executor, None)
    ensures !LastExecutorAdmitted(frames + [f])
  {
  }

  lemma ThreeCalls(f: Frame, g: Frame, h: Frame)
    requires f.hook == Executor && g.hook == Executor && h.hook == Executor && g.own.Some?
    requires f.own.None? && h.own.None?
    ensures Owned([f] + [g] + [h]) == [g.own.value] && Marks([f] + [g] + [h]) == [false, true, false]
  {
    OwnedAppend([f] + [g], h);
    OwnedAppend([f], g);
    OwnedAppend([], f);
    assert [] + [f] == [f];
  }

  // Popping one's own is not enough for the calls that end later: three executor calls, only the second
  // admitted; the first ends and pops nothing, as it should, and then the third pops the second's
  // statement.
  lemma MarkersOutOfOrder(b: Statement)
    ensures var (f, g) := (Frame(Executor, None), Frame(Executor, Some(b)));
      var s := Session(Stacks([b], [false, true, false]), [f] + [g] + [f], 0, [b], []);
      var t := Session(Stacks([b], [false, true]), [g] + [f], 0, [b], []);
      && Aligned(s) && PopsOwn(s, 0) && CompleteCall(s, 0).1 == None && Next(s, Complete(0)) == t
      && PopsOwn(t, 1) && CompleteCall(t, 1).1 == Some(b)
  {
    var f, g := Frame(Executor, None), Frame(Executor, Some(b));
    var s := Session(Stacks([b], [false, true, false]), [f] + [g] + [f], 0, [b], []);
    var t := Session(Stacks([b], [false, true]), [g] + [f], 0, [b], []);
    ThreeCalls(f, g, f);
    assert s.frames[0..] == [f] + [g] + [f] && t.frames[0..] == [g] + [f];
    LastExecutorLast([f] + [g], f);
    LastExecutorLast([g], f);
    assert Popped([false, true, false]) == [false, true];
    assert Without(s.frames, 0) == [g] + [f];
  }

  // An instance: two executor calls that end in the order they began settle each other's statement.
  lemma OverlappingCallsSwap(a: Statement, b: Statement)
    ensures var both := ExecutorStart(ExecutorStart(Stacks([], []), Some(a)), Some(b));
      && ExecutorComplete(both).1 == Some(b)
      && ExecutorComplete(ExecutorComplete(both).0).1 == Some(a)
  {
    var both := ExecutorStart(ExecutorStart(Stacks([], []), Some(a)), Some(b));
    assert both == Stacks([a, b], [true, true]);
    assert ExecutorComplete(both).0 == Stacks([a], [true]);
  }
}
