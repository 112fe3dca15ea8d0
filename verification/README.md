# pg_wal_budget in Dafny

A model of the admission controller `pg_wal_budget`, which charges PostgreSQL statements for the WAL
they are predicted to write. Buckets of bytes live in a fixed table in shared memory, refill at a
rate, and are charged before a statement and settled after it. Every access to shared memory runs
under one exclusive lock, so the controller is modelled as atomic steps of many backends that
interleave freely. `dafny verify dfyconfig.toml` checks all of it.

Integers are bounded as in the original: `U64`, `U128` intermediates, saturating and wrapping
operations are written out, and that they fit is part of the proofs. Code that updates state in place
is a class or a loop proved against a function; the theorems are about that function.

| file | what it holds |
|---|---|
| `Numbers`, `Wrappers`, `Bits`, `Scopes` | machine integers, options and results, bitwise operations, scope kinds |
| `Budget` | one bucket: refill, charge, refund, debt, queue wait |
| `RefillSchedules`, `QueueWait` | comparing refresh schedules; when a retry succeeds |
| `BucketTable` | the table of buckets: a bounded map, and the array that implements it |
| `Replies` | what each operation on the table answers and leaves, told from the bucket it finds |
| `RateBound` | what a bucket can hand out over a run and over any window |
| `QueueLoop` | the retry loop among other sessions; the chunked sleep |
| `Lifecycle`, `Reconcile` | the two statement stacks of a backend; admission and settlement |
| `Ledger`, `LedgerTheorems` | the whole controller and what holds in every reachable state |
| `Admissions`, `Settlements` | what an admission, the end of a statement and the end of a transaction do to the buckets, end to end |
| `Profiles`, `ProfileCache`, `ProfileRestore`, `SharedProfiles` | moving averages, the profile cache, its bounded restore, the shared region |
| `Catalog`, `Durability` | the durable profile table, the flush, restart, restore round trip, and when a flush is durable |
| `RecentDecisions` | the ring of recent decisions |
| `ScopeHash`, `CompositeScopes`, `ScopeNames` | scope hashing, composite scope text, stored scope names |
| `Layout` | the layout of shared memory |

## Main results

- **Rate.** Over every interleaving, with clocks that may run backwards, a bucket's balance plus what
  it handed out and did not get back stays within one burst plus the rate over the time its timestamp
  covered (`RateBound.WholeRunBound`, and `LedgerTheorems.ControllerRateBound` for the whole
  controller). In every window of a run under one rate it hands out less than one burst and one byte
  plus the rate over the window's length (`RateBound.WindowBound`). When the policy changes inside a
  window, the same bound holds from a full bucket if and only if the bucket is settled: the time
  since its timestamp is worth less than a byte at the greatest rate, or is a second or more
  (`RateBound.WindowBoundIffSettled`). In any case the greatest rate gains less than a second
  (`RateBound.ChangingWindowBound`), and raising 1 byte per second to 1000 under a burst of 1000
  reaches that limit, 1999 bytes at one instant (`RateBound.RaisedRateBreaksWindow`).
  `LedgerTheorems.ControllerWindowBound` states both between any two points of the controller's log.
- **Exactly-once settlement.** In every run of executor and utility calls, in whatever order they end
  and whichever are abandoned, with transaction ends anywhere, each admitted statement is settled
  exactly once or is still on the stack, and none is left at the end of a transaction
  (`Lifecycle.ExactlyOnceSettlement`). While the stacks are aligned with the open calls, ending any call
  pops that call's own statement if and only if `Lifecycle.PopsOwn` holds of the open calls
  (`CompletionPopsOwnIff`), and it also leaves the stacks aligned if and only if it ends in order
  (`InOrderIff`). So in a run whose calls end in order, nesting included, no completion ever pops
  another call's statement (`CompletionPopsItsOwn`, `RunKeepsAligned`); `MarkersOutOfOrder` and
  `OverlappingCallsSwap` are runs in which one does.
- **Ledger.** In every reachable state of the controller, with no assumption on the order in which
  calls end, a bucket's balance is its opening burst and
  refills less what clamps cut off, what settled statements used, and what is kept or in flight; no
  refund or debt misses its bucket; the global debt counter agrees with the buckets
  (`LedgerTheorems.BucketLedger`, `SettlementsFindTheirBuckets`, `CounterMatchesBuckets`). The opening
  bursts and refills in that sum are those of the operations themselves (`BookIsTrue`).
- **Admission by mode.** From the bucket found, or a full one where there is none: reject mode refuses
  exactly what the balance does not cover and otherwise takes exactly the prediction; shadow mode always
  passes, takes nothing, and reports which it would have been; queue mode refuses what exceeds the burst,
  grants what is covered, and otherwise names the least wait that earns the deficit; every other mode
  touches nothing (`Admissions.RejectLaw`, `ShadowLaw`, `QueueLaw`, `UnenforcedLaw`, `FullTableLaw`).
  A refused statement starts no call, and after an internal error one starts if and only if the
  controller fails open (`AdmissionStartsCall`).
- **End of a statement, end of a transaction.** Over its three critical sections a charged statement that
  wrote n bytes gets back what n leaves of its charge, up to the burst, or owes what n exceeds it by, on
  its bucket and in the global counter alike (`Settlements.MeasuredSettlement`); the charge is kept if and
  only if a reading is missing (`KeptIffUnmeasured`). A commit changes no bucket and keeps exactly what was
  in flight on the backend's stack (`CommitKeepsCharges`); an abort keeps nothing and gives all of it back,
  up to the burst (`AbortReturnsCharges`).
- **Queue.** A wait is enough exactly when the bucket's timestamp is not ahead of the session's clock,
  and it is tight (`QueueWait.WaitSufficientAndTight`). The retry loop ends after at most two attempts
  more than those after which others touched the bucket, and charges once or not at all, even where
  another session read the clock later and took the lock first. It goes through exactly the attempts that
  the clock, the sleeps it was told to take and the other sessions determine, and ends with the last reply
  (`QueueLoop.AdmitQueue`).
- **Polling.** Refreshing more often never gains, costs at most a byte a move, and keeps at least half
  (`RefillSchedules.PollingNeverGainsMore`, `PollingShortfall`, `PollingKeepsHalf`).
- **Profile cache.** Every reachable cache is a capped map with oldest-entry eviction; a new key starts
  from its own first observation, whatever it evicted (`ProfileCache.UpsertLaw`, `PairValues`); the bounded
  restore is a streaming top-k, and with room it is the pointwise newer-wins merge; a paired upsert
  keeps both entries exactly when `ProfileCache.PairFits` holds before the call.
- **Round trips.** Flush, restart and restore rebuild the same profiles; ring records, rows and
  composite scopes (free of the delimiter) read back as themselves. A flush of known queries leaves the
  cache durable exactly when nothing was observed between its reservation and its completion
  (`Durability.FlushDurableIff`).
- **Numeric kernels.** Average bounds and exact resting points, FNV-1a as a bijection per byte, the
  tightest shared-memory layout with exact overflow, longest-prefix truncation of UTF-8.

## Hypotheses

These are what the modelled operations do not enforce themselves; each stands as a `requires` of the
results that need it.

- For whose statement a completion pops: calls of the backend have ended in order so far
  (`Lifecycle.InOrder`), that is, no call ended while it would disturb what a later open call pushed.
  Subtransaction unwinding has no hook (src/hooks.rs:9-24), so an abandoned inner call breaks this; the
  settlement and ledger results do not need it.
- For the queue bound (`QueueLoop.MonotoneLocks`, `HonestSleeps`, `SharedClock`, `TouchedOnlyIn`): all
  sessions read one clock that never runs backwards, each before it takes the lock; a sleep that
  returns has lasted its whole wait from the moment its attempt held the lock; and the attempts after
  which others touch the bucket are known. A reading may be stale by the time the lock is held. A latch
  can wake a session early (src/time.rs:28-46).
- For the bounds under changing policies: valid policies (`Budget.ValidPolicy`), as src/policy.rs:247-267
  and src/policy_cache.rs:76-94 enforce when a policy is created, updated and loaded.
- For the paired upsert: strictly older stored entries are enough; the exact condition is `PairFits`.
  A tie is broken by slot and can evict the entry just written (`ProfileCache.TieLosesScopedEntry`).
- For grants of a restore: no failure mark between them. Clocks need not be monotone, because a clock
  that ran backwards never reads as stale.
- For composite scopes: values without the delimiter. Tenants are checked for it
  (src/scope.rs:164-172), role, database and application names are not; `CompositeScopes.MergedCollides`
  shows what happens then.

## Model

| member | source | states |
|---|---|---|
| Budget.RefreshIsExact | src/budget.rs:278-379 | a refresh adds exactly the earned bytes, clamps once, and moves the timestamp exactly when it earned something; neither saturation shows |
| Budget.ChargesAreExact | src/budget.rs:172-194 | reject and queue mode admit exactly what the balance covers, take exactly the prediction, report the balances before and after, and a refusal reports the balance it found |
| Budget.ShadowOnlyReports | src/budget.rs:156-170 | shadow mode takes nothing, allows exactly when reject mode would, and names the policy and the reason |
| Budget.RefundUndoesCharge | src/shmem/transactions.rs:49-62 | refunding a charge in full restores the refreshed bucket |
| Budget.CeilDivBounds | src/budget.rs:394-408 | the wait is the least count of milliseconds that covers the deficit |
| Budget.BudgetBucketState.constructor | src/budget.rs:89-103 | the fields hold the given bucket |
| Budget.BudgetBucketState.RefreshPolicy | src/budget.rs:344-348 | the policy's burst and rate replace the old ones and the balance is clamped |
| Budget.BudgetBucketState.RefreshBucket | src/budget.rs:278-296 | in place, the refresh of the specification, returning the refreshed balance |
| Budget.BudgetBucketState.TryCharge | src/budget.rs:298-330 | charges when the balance covers the prediction, otherwise changes nothing and names the wait or the zero rate |
| Budget.BudgetBucketState.AdmitRejectInPlace | src/budget.rs:172-194 | in place, the admission whose exactness ChargesAreExact states |
| Budget.BudgetBucketState.AttemptQueueChargeInPlace | src/budget.rs:251-276 | in place, the queue attempt; a zero rate is an error |
| Budget.BudgetBucketState.AdmitShadowInPlace | src/budget.rs:156-170 | in place, the report of ShadowOnlyReports |
| Budget.BudgetBucketState.RefundInPlace | src/shmem/transactions.rs:49-62 | the refund saturates and is clamped to the burst |
| Budget.BudgetBucketState.RecordDebtInPlace | src/shmem/transactions.rs:64-74 | the debt grows, saturating, and nothing else changes |
| RefillSchedules.OneMoreRefresh | src/budget.rs:350-379 | one more refresh keeps the bounds on what a schedule gained |
| RefillSchedules.ScheduleGain | src/budget.rs:278-296 | any schedule gains at most the rate over the time moved, short by less than a byte a move and by at most half |
| RefillSchedules.NothingLeftBehind | src/budget.rs:350-379 | once a time was polled, it can still earn less than a byte |
| RefillSchedules.TimestampStaysBelow | src/budget.rs:350-379 | no schedule moves the timestamp past its latest time |
| RefillSchedules.PollingNeverGainsMore | src/budget.rs:278-296 | no chain of refreshes ends above a single refresh at its latest time |
| RefillSchedules.PollingShortfall | src/budget.rs:278-296 | it falls short by at most one byte for each refresh that moved the timestamp |
| RefillSchedules.PollingKeepsHalf | src/budget.rs:350-379 | until the clamp bites it keeps at least half, so polling cannot starve a bucket |
| QueueWait.EarnsDeficitIffWaited | src/budget.rs:394-408 | a deficit is earned exactly from its wait after the timestamp on |
| QueueWait.RetryAdmitsIffWaited | src/budget.rs:298-330 | a retry with the bucket untouched admits exactly from the wait after the timestamp on |
| QueueWait.WaitSufficientAndTight | src/budget.rs:298-330 | sleeping the wait suffices if and only if the timestamp is not ahead of the clock; when it is the clock's time nothing shorter does |
| QueueWait.WaitingChargesNothing | src/budget.rs:251-276 | an attempt that waits leaves the refreshed balance and the debt, and waits rather than fails exactly at a positive rate |
| BucketTable.StepFrame | src/shmem/budget_buckets.rs:24-72 | a step touches its own key only, a failing step nothing; the table refuses exactly an absent key when full; buckets stay |
| BucketTable.RunKeepsBuckets | src/shmem/budget_buckets.rs:43-72 | over any run no bucket disappears and the capacity holds |
| BucketTable.RunConcat | src/shmem/mod.rs:296-314 | a run in two parts is the run of the parts |
| BucketTable.Table.constructor | src/shmem/mod.rs:185-210 | an empty table of the given capacity |
| BucketTable.Table.FindBudgetBucketSlot | src/shmem/budget_buckets.rs:112-120 | finds the one slot of a key, and none exactly when the key is absent |
| BucketTable.Table.Overwrite | src/shmem/budget_buckets.rs:54-60 | writing an occupied slot is an update of its key |
| BucketTable.Table.Append | src/shmem/budget_buckets.rs:67-72 | writing behind the prefix adds the key |
| BucketTable.Table.ApplyInPlace | src/shmem/budget_buckets.rs:43-72 | the array does what the bounded map does, and an error leaves array and length as they were |
| BucketTable.Table.WithExistingInPlace | src/shmem/budget_buckets.rs:24-41 | likewise for operations that never create a bucket |
| BucketTable.Table.PerformInPlace | src/budget.rs:109-154 | the array performs every operation as the map does, whose replies Replies states from the bucket found |
| Replies.RejectReply | src/budget.rs:172-194 | on the bucket found, or a full one: charges exactly what the balance covers, otherwise names the balance and changes nothing |
| Replies.QueueReply | src/budget.rs:251-276 | the same, but what is not covered is told the least wait that earns the deficit, or a zero rate, which changes nothing |
| Replies.WaitIsLeast | src/budget.rs:394-408 | the wait earns the deficit and no shorter one does |
| Replies.ShadowReply | src/budget.rs:129-170 | reports the balance twice and what reject mode would have done, charges nothing, and opens no bucket |
| Replies.FirstShadowReply | src/budget.rs:129-153 | a scope without a bucket is answered as full at the burst, and the table stays |
| Replies.FullTableReply | src/shmem/budget_buckets.rs:43-72 | with no room for a new bucket an admission fails and changes nothing |
| Replies.SettlementReplies | src/shmem/transactions.rs:49-74 | refunds up to the burst and debts up to the 64-bit limit reach an existing bucket only, and change nothing else of it |
| RateBound.StepOnBucket | src/shmem/transactions.rs:49-62 | every step either refreshes, charging what it reports, or leaves the timestamp and moves the balance by exactly what it returns |
| RateBound.StepKeepsBound | src/budget.rs:172-194 | every step on any key keeps the bound of a bucket |
| RateBound.WholeRunBound | src/budget.rs:251-379 | over every run and any clocks: 1000 (available + charged - refunded) <= 1000 burst + rate (last refill - creation), and available <= maximum burst |
| RateBound.WindowStep | src/budget.rs:350-379 | every step keeps the window's invariant |
| RateBound.WindowInvariant | src/budget.rs:251-379 | the balance of a window against its first kept refresh, which lies at most the slack before it |
| RateBound.SlackBound | src/budget.rs:251-379 | any window hands out at most a burst, the greatest rate over its length, and what its first refresh may leave behind |
| RateBound.WindowBound | src/budget.rs:251-379 | from any table, every window [s, t] at one rate: 1000 (charged - refunded) < 1000 (burst + 1) + rate (t - s) |
| RateBound.SettledWindowBound | src/budget.rs:278-379 | the same under valid policies that change, from a settled bucket |
| RateBound.ChangingWindowBound | src/budget.rs:278-379 | under valid policies that change, from any table: 1000 (charged - refunded) <= 1000 burst + rate (t - s + 999) |
| RateBound.UnsettledBreaksWindow | src/budget.rs:278-379 | from a full bucket that is not settled, two valid policies hand out a burst and what the time left behind is worth, at one instant |
| RateBound.WindowBoundIffSettled | src/budget.rs:278-379 | a full bucket keeps the window bound over all schedules of valid policies if and only if it is settled |
| RateBound.RaisedRateBreaksWindow | src/budget.rs:278-379 | raising the rate from 1 to 1000 under a burst of 1000 hands out 1999 at one instant |
| RateBound.NetConcat | src/shmem/mod.rs:296-314 | what a run hands out is what its parts hand out |
| QueueLoop.AttemptOutcome | src/budget.rs:251-276 | an attempt charges the prediction when it decides and nothing otherwise; it fails only at zero rate or a full table |
| QueueLoop.UntouchedSleepAdmits | src/budget.rs:231-249 | with the bucket untouched every attempt after the whole wait from the lock on admits, even if the timestamp is ahead of the clock the attempt went by |
| QueueLoop.OthersStep | src/shmem/budget_buckets.rs:43-72 | another session's step keeps the bucket, its timestamp below the lock instant, and any other key untouched |
| QueueLoop.RunOthers | src/shmem/mod.rs:296-314 | other sessions' steps on the array are the run of the map |
| QueueLoop.HistoryGoesOn | src/shmem/mod.rs:296-314 | the table after one more attempt and what others did after it, from the whole history |
| QueueLoop.StoryGoesOn | src/budget.rs:231-249 | one more attempt that is due and told the truth continues the story, and adds to what was charged exactly what it took |
| QueueLoop.AttemptStands | src/budget.rs:251-276 | where a statement stands after an attempt: the prediction charged if it decided, nothing otherwise |
| QueueLoop.OthersFollow | src/shmem/mod.rs:296-314 | what others did goes into the history behind the attempt they followed |
| QueueLoop.AttemptedOutcome | src/budget.rs:251-276 | one attempt under the lock: granted, failed or told a wait, with what it charged, and from when on the next one must succeed |
| QueueLoop.AttemptCharge | src/budget.rs:211-224 | the same, in place |
| QueueLoop.Interfere | src/budget.rs:231-249 | other sessions' steps between two attempts, kept in the history |
| QueueLoop.OneRound | src/budget.rs:236-248 | one turn of the loop: grant, fail, cancel, or sleep exactly the wait it was told and look at the clock |
| QueueLoop.MarkUsed | src/budget.rs:231-249 | an attempt after which others touch the bucket uses up one of the touches |
| QueueLoop.NextRound | src/budget.rs:236-248 | a turn that does not end the loop leaves a touch to come for every attempt but the last |
| QueueLoop.AdmitQueueWithRetry | src/budget.rs:231-249 | the attempts are those the clock, the sleeps and the table determine, at most 2 + touches; the result is the last reply, charged once if granted and nothing otherwise |
| QueueLoop.AdmitQueue | src/budget.rs:196-229 | the same with the check of the burst; refused only above the burst, at zero rate, or on a full table |
| QueueLoop.SleepInterruptible | src/time.rs:17-26 | an uninterrupted sleep requests exactly the wait; a cancelled one has slept whole chunks up to the check that saw it |
| Lifecycle.Backend.constructor | src/lifecycle.rs:14-18 | both stacks start empty |
| Lifecycle.Backend.ExecutorStatementStart | src/lifecycle.rs:22-34 | pushes the statement if admitted, and the marker always |
| Lifecycle.Backend.PopMarker | src/lifecycle.rs:243-245 | takes the top marker; an empty stack reads as not admitted |
| Lifecycle.Backend.PopActive | src/lifecycle.rs:233-235 | takes the top statement, if any |
| Lifecycle.Backend.ExecutorStatementComplete | src/lifecycle.rs:36-42 | pops a statement only under an admitted marker |
| Lifecycle.Backend.UtilityStatementStart | src/lifecycle.rs:44-64 | pushes the statement if admitted and tells the hook |
| Lifecycle.Backend.UtilityStatementComplete | src/lifecycle.rs:66-70 | pops a statement only if the hook's call was admitted |
| Lifecycle.Backend.TransactionEnding | src/lifecycle.rs:72-108 | commit and abort empty both stacks and hand over the statements last in, first out; other events change nothing |
| Lifecycle.PoppedLeavesStack | src/lifecycle.rs:36-70 | whoever it belongs to, what a completion pops is what leaves the stack |
| Lifecycle.StartKeepsAccounted | src/lifecycle.rs:22-64 | a start keeps every pushed statement accounted for, and no more markers than open executor calls |
| Lifecycle.CompleteKeepsAccounted | src/lifecycle.rs:36-70 | so does the end of any open call, in any order |
| Lifecycle.EndSettlesAll | src/lifecycle.rs:72-108 | the end of a transaction settles whatever is left and empties both stacks |
| Lifecycle.StepKeepsAccounted | src/lifecycle.rs:22-108 | every event keeps statements and markers accounted for |
| Lifecycle.RunKeepsAccounted | src/lifecycle.rs:22-108 | so does every run |
| Lifecycle.ExactlyOnceSettlement | src/lifecycle.rs:22-108 | in every run each admitted statement is settled exactly once or still on the stack once; with no call open, and at every end of a transaction, all are settled |
| Lifecycle.CompletionPopsItsOwn | src/lifecycle.rs:36-70 | in an aligned session a completion in order takes its own statement off the stack, or nothing after a drain |
| Lifecycle.CompletionPopsOwnIff | src/lifecycle.rs:36-70 | in an aligned session the end of any open call, in any order, pops that call's own statement if and only if nothing admitted, and for the executor no executor call, is open above it; a call with nothing on the stack pops nothing if and only if no marker or statement of another is on top |
| Lifecycle.InOrderPopsOwn | src/lifecycle.rs:36-70 | ending in order is enough for that condition |
| Lifecycle.InOrderIff | src/lifecycle.rs:36-70 | in an aligned session a call ends in order if and only if it pops its own statement, or nothing after a drain, and leaves the stacks aligned with the calls still open |
| Lifecycle.StartKeepsAligned | src/lifecycle.rs:22-64 | a start keeps the stacks aligned with the open calls |
| Lifecycle.CompleteKeepsAligned | src/lifecycle.rs:36-70 | so does a completion in order, also of a call opened before a drain |
| Lifecycle.StepKeepsAligned | src/lifecycle.rs:22-108 | so does every event in order, with a drain anywhere among the open calls |
| Lifecycle.RunKeepsAligned | src/lifecycle.rs:22-108 | every run whose calls end in order keeps the stacks aligned |
| Lifecycle.MarkersOutOfOrder | src/lifecycle.rs:36-42 | a call that ends out of order and pops nothing, as it should, can leave a later one to pop another's statement |
| Lifecycle.OverlappingCallsSwap | src/lifecycle.rs:36-42 | two executor calls that end in the order they began settle each other's statement |
| Reconcile.ChargeIsWhatWasTaken | src/reconcile.rs:29-47 | what settlement treats as charged is what admission took, on every bucket; what each mode takes is Admissions |
| Reconcile.ReconcileBudget | src/reconcile.rs:138-154 | performs exactly the refund or debt of the comparison on the table |
| Reconcile.RecordAbortedStatement | src/reconcile.rs:120-136 | refunds the whole charge of an aborted statement and counts it |
| Reconcile.SettleEffect | src/reconcile.rs:138-182 | settling returns what was not used and records what was not paid, on this bucket alone |
| Reconcile.UndoEffect | src/reconcile.rs:120-136 | undoing returns the charge up to the burst, on this bucket alone |
| Ledger.OpEntryBalances | src/budget.rs:278-296 | a refreshing operation and its book entry agree on every bucket |
| Ledger.AdmitCharges | src/admission.rs:95-130 | an admission adds to the bytes in flight exactly what it took from the bucket |
| Ledger.AdmitBalanced | src/admission.rs:95-130 | an admission, passed, waiting, refused or failed open, keeps every bucket's balance |
| Ledger.CompleteBalanced | src/reconcile.rs:61-76 | popping a statement, whoever pops it, moves its charge to its settlement, or to the kept ones, and keeps every balance; for how many bytes it settles see Settlements.MeasuredSettlement |
| Ledger.CountBalanced | src/reconcile.rs:78-105 | the telemetry section of a settlement keeps every balance |
| Ledger.SettlementFindsBucket | src/shmem/transactions.rs:49-74 | what is in flight has a bucket to be settled on |
| Ledger.SettleBalanced | src/reconcile.rs:114-118 | the budget section of a settlement keeps every balance |
| Ledger.UndoBalanced | src/reconcile.rs:120-136 | so does each refund of an abort |
| Ledger.EndBalanced | src/lifecycle.rs:72-94 | draining at the end of a transaction keeps every balance; which ends refund and which keep is Settlements |
| Ledger.StepBalanced | src/shmem/mod.rs:296-314 | every step of any backend keeps every bucket's balance |
| Ledger.StepLogged | src/shmem/mod.rs:296-314 | the table is always the run of the logged operations |
| Ledger.StepAccounted | src/lifecycle.rs:22-108 | a step of one backend keeps the statements of all backends accounted for |
| Ledger.StepSound | src/shmem/mod.rs:296-314 | every step keeps the statements accounted for, every balance, and the log together |
| Ledger.RunSound | src/shmem/mod.rs:296-314 | every interleaved run keeps them |
| Ledger.InitiallySound | src/shmem/mod.rs:185-210 | a fresh system has them |
| LedgerTheorems.BucketLedger | src/reconcile.rs:61-154 | balance = opening + refills - clamped - used - kept - in flight, and debt = sum of overruns up to the limit, in every reachable state |
| LedgerTheorems.BookIsTrue | src/budget.rs:278-296 | the opening bursts and refills of the book are those of the kept refreshes of the log |
| LedgerTheorems.SettlementsFindTheirBuckets | src/shmem/transactions.rs:49-74 | no refund or debt of any statement on a stack or being settled misses its bucket |
| LedgerTheorems.EveryBackendSettlesOnce | src/lifecycle.rs:227-245 | exactly-once settlement for every backend of every interleaving |
| LedgerTheorems.ControllerRateBound | src/budget.rs:251-379 | the rate bound for every run of the whole controller |
| LedgerTheorems.ControllerWindowBound | src/budget.rs:251-379 | the window bounds between any two points of the controller's log |
| LedgerTheorems.StepKeepsCounter | src/shmem/records.rs:47-77 | every step keeps the global debt counter in step with the book |
| LedgerTheorems.CounterMatchesBuckets | src/shmem/records.rs:47-77 | without reset or saturation the global counter is the sum of all buckets' debts and of the debts between the two sections |
| Admissions.NoPolicyLaw | src/admission.rs:95-109 | without a policy the statement passes and touches nothing |
| Admissions.UnenforcedLaw | src/budget.rs:39-56 | a disabled policy and the modes off and observe pass every statement uncharged, each with its reason |
| Admissions.RejectLaw | src/budget.rs:58-71 | refused if and only if the prediction exceeds the balance, otherwise exactly the prediction is taken |
| Admissions.ShadowLaw | src/budget.rs:109-170 | always passes, takes nothing, and allows if and only if the balance covers the prediction |
| Admissions.QueueLaw | src/budget.rs:196-276 | refused above the burst, granted when covered, an error at zero rate, and otherwise told the least wait |
| Admissions.FullTableLaw | src/shmem/budget_buckets.rs:43-72 | with no room an admission that would charge is an internal error, except above the burst, and nothing changes |
| Admissions.AdmissionStartsCall | src/lifecycle.rs:155-225 | a pass starts a call that owns its statement; an internal error starts one that owns nothing if and only if the controller fails open; a refusal or a wait starts none |
| Admissions.RejectedRunsNothing | src/lifecycle.rs:155-171 | a statement a reject policy cannot pay for starts no call and leaves no trace |
| Settlements.MeasuredSettlement | src/reconcile.rs:61-182 | over all three sections a charged statement settles for the bytes between its readings, or none if they ran backwards: refund up to the burst, debt on bucket and counter, nothing else |
| Settlements.UnchargedSettlement | src/reconcile.rs:61-154 | a statement charged nowhere changes no bucket and no counter |
| Settlements.KeptIffUnmeasured | src/reconcile.rs:61-69 | the charge is kept, all of it, if and only if one of the two readings is missing |
| Settlements.OtherEventsChangeNothing | src/lifecycle.rs:72-81 | other transaction events change nothing |
| Settlements.CommitKeepsCharges | src/lifecycle.rs:83-94 | a commit changes no bucket, leaves nothing in flight, and keeps exactly what was in flight on the stack |
| Settlements.UndoReturnsOne | src/reconcile.rs:120-136 | one undo gives one charge back to its bucket, up to the burst, and keeps nothing |
| Settlements.UndoReturnsAll | src/lifecycle.rs:87-94 | the undos of all drained statements give every bucket all that was in flight on it, up to the burst |
| Settlements.AbortReturnsCharges | src/lifecycle.rs:72-108 | so an abort, however many statements it drains, keeps nothing and leaves nothing in flight |
| Profiles.NewWeights | src/types.rs:296-307 | accepts exactly the weights with 0 < numerator <= denominator |
| Profiles.ProfileState.constructor | src/types.rs:310-318 | the fields hold the given profile |
| Profiles.ProfileState.RecordObservation | src/types.rs:320-342 | in place, one observation, with the 128-bit intermediate shown to fit |
| Profiles.MixBounds | src/types.rs:320-342 | the weighted sum lies between the two values times the denominator |
| Profiles.ObserveBetween | src/types.rs:320-342 | the new average is the exact quotient between old average and observation; the overflow branch is never taken |
| Profiles.HistoryBounds | src/types.rs:310-342 | over any history: least <= average <= maximum = greatest observation |
| Profiles.FallsOneStep | src/types.rs:320-342 | from above one equal observation lowers the average strictly |
| Profiles.RisesOneStep | src/types.rs:320-342 | from below it moves if and only if the distance is worth a byte |
| Profiles.FallsToObservation | src/types.rs:320-342 | repeated observations fall strictly to exactly the observed value |
| Profiles.RisesTowardObservation | src/types.rs:320-342 | from below they rise without passing it and rest exactly when (observed - average) numerator < denominator |
| ProfileCache.FindSlot | src/shmem/profiles.rs:338-350 | finds a slot of the key, and none exactly when it is absent |
| ProfileCache.EvictionIsLeast | src/shmem/profiles.rs:356-363 | the evicted slot has the least (last seen, slot) |
| ProfileCache.PutView | src/shmem/profiles.rs:236-273 | writing a slot removes its old key and sets the new one, nothing else |
| ProfileCache.PutRefinesMap | src/shmem/profiles.rs:236-318 | writing a key is a map update; a new key in a full cache removes exactly the least (last seen, slot) entry |
| ProfileCache.LookupPrefersScope | src/shmem/profiles.rs:160-183 | lookup gives the scoped profile if present, otherwise the global one, whatever the slot order |
| ProfileCache.UpsertWellFormed | src/shmem/profiles.rs:236-273 | an upsert fails exactly at zero capacity, and otherwise keeps a well-formed cache that has the key |
| ProfileCache.UpsertLaw | src/shmem/profiles.rs:236-273 | as a map: a known key folds the observation in; a new one starts from this observation alone, and in a full cache exactly the least (last seen, slot) entry goes |
| ProfileCache.PairLaw | src/shmem/profiles.rs:207-234 | with room, both profiles of the query get the observation and no other changes |
| ProfileCache.PairValues | src/shmem/profiles.rs:207-234 | with or without room, every profile left is the old one or the old one with this observation; the global one starts afresh if the scoped one took its place |
| ProfileCache.RestoreLaw | src/shmem/profiles.rs:275-318 | as a map: a restored entry replaces one of its key that is not newer, or takes a free place, or the least entry's when that is not newer |
| ProfileCache.RestoreWellFormed | src/shmem/profiles.rs:275-318 | a restore fails exactly at zero capacity with something to restore |
| ProfileCache.ApplyWellFormed | src/shmem/profiles.rs:207-318 | every operation keeps keys unique and the capacity |
| ProfileCache.ReachableIsCappedMap | src/shmem/profiles.rs:18-28 | after any sequence of observations, restores and resets the cache is a capped map and the stored count its size |
| ProfileCache.PairedUpsertKeepsBothIff | src/shmem/profiles.rs:207-234 | the global entry is always kept, and the scoped one exactly when the cache before the call offers the global another place |
| ProfileCache.PairedUpsertKeepsBoth | src/shmem/profiles.rs:207-234 | with two slots and strictly older entries both are kept |
| ProfileCache.TieLosesScopedEntry | src/shmem/profiles.rs:356-363 | with a tied timestamp the scoped entry just written is lost |
| ProfileRestore.RestoreCovers | src/shmem/profiles.rs:275-318 | one restored entry never drops anything newer than what stays |
| ProfileRestore.RestoreKeepsNewest | src/shmem/profiles.rs:104-113 | the bounded restore is a streaming top-k over live and restored entries, in any order |
| ProfileRestore.RestoreIsMergeWithRoom | src/shmem/profiles.rs:104-113 | with room it is the pointwise newer-wins merge |
| SharedProfiles.LoadedIsAbsorbing | src/shmem/profiles.rs:81-123 | once loaded always loaded, and no load is granted any more |
| SharedProfiles.HeldAfterGrant | src/shmem/profiles.rs:81-102 | after a grant the region is loaded or held since the grant or later |
| SharedProfiles.GrantsAreApart | src/shmem/profiles.rs:81-102 | two grants with no failure mark between them are at least the stale time apart |
| SharedProfiles.HeldUntilFail | src/shmem/profiles.rs:81-123 | until a finish, reset or grant the load stays the granted one's, and is failed exactly if someone marked it |
| SharedProfiles.GrantIffFailedOrStale | src/shmem/profiles.rs:81-123 | with nothing settled since a grant the next asker is granted if and only if a failure mark lies between or the stale time is over |
| SharedProfiles.FirstIsGranted | src/shmem/profiles.rs:81-102 | the first asker is granted the load |
| SharedProfiles.SettledIsLoaded | src/shmem/profiles.rs:104-123 | from the first finish or reset on the profiles are loaded and no load is granted |
| SharedProfiles.LateFailureFreesSuccessor | src/shmem/profiles.rs:115-123 | a failure mark of an overtaken loader frees the slot of its successor |
| SharedProfiles.ErrorIsFinal | src/shmem/profiles.rs:104-113 | a restore that fails stops where it failed |
| SharedProfiles.ProfileRegion.constructor | src/shmem/mod.rs:185-210 | an empty region whose restore was not attempted |
| SharedProfiles.ProfileRegion.FindProfileSlot | src/shmem/profiles.rs:338-350 | the scan of the array is the search of the specification |
| SharedProfiles.ProfileRegion.FindEmptySlot | src/shmem/profiles.rs:352-354 | the first free slot is right behind the occupied prefix |
| SharedProfiles.ProfileRegion.FindEvictionSlot | src/shmem/profiles.rs:356-363 | the scan finds the least (last seen, slot) |
| SharedProfiles.ProfileRegion.Write | src/shmem/profiles.rs:248-272 | writing a slot keeps prefix and count |
| SharedProfiles.ProfileRegion.UpsertProfile | src/shmem/profiles.rs:236-273 | in place, the upsert that UpsertLaw states as a map; an error changes nothing |
| SharedProfiles.ProfileRegion.UpsertScopedAndGlobal | src/shmem/profiles.rs:185-234 | in place, the paired upsert; counts one dirty change on success |
| SharedProfiles.ProfileRegion.LookupScopedOrGlobal | src/shmem/profiles.rs:160-183 | one pass over the array finds what LookupPrefersScope describes |
| SharedProfiles.ProfileRegion.RestoreProfile | src/shmem/profiles.rs:275-318 | in place, the restore of one entry that RestoreLaw states as a map |
| SharedProfiles.ProfileRegion.FinishRestore | src/shmem/profiles.rs:104-113 | restores all entries and marks the region loaded, or fails and leaves the mark |
| SharedProfiles.ProfileRegion.TryBeginRestore | src/shmem/profiles.rs:81-102 | grants the load when never tried, failed, or stale |
| SharedProfiles.ProfileRegion.MarkFailed | src/shmem/profiles.rs:115-123 | only a load in progress becomes failed |
| SharedProfiles.ProfileRegion.ResetAll | src/shmem/profiles.rs:18-28 | empties the cache and counts as loaded |
| SharedProfiles.ProfileRegion.ReservePersist | src/shmem/profiles.rs:125-140 | reserves a flush of the whole cache exactly when something is dirty and the interval has passed |
| SharedProfiles.ProfileRegion.SnapshotForPersist | src/shmem/profiles.rs:142-149 | a flush on demand takes the whole cache and notes its time |
| SharedProfiles.ProfileRegion.Snapshot | src/shmem/profiles.rs:320-336 | the snapshot is the cache in slot order |
| SharedProfiles.ProfileRegion.CompletePersist | src/shmem/profiles.rs:151-158 | success clears the dirty count, failure leaves it |
| Catalog.DecimalRoundTrip | src/catalog.rs:282-286 | every 64-bit value reads back from its decimal text |
| Catalog.ParsesIff | src/catalog.rs:282-286 | exactly the decimal text of a value, after any zeros and an optional plus sign, parses to it |
| Catalog.DecimalFitsColumn | src/catalog.rs:239-249 | no decimal text is longer than 20 digits |
| Catalog.RowRoundTrip | src/catalog.rs:239-273 | every profile reads back from its row |
| Catalog.RowDecodesIff | src/catalog.rs:252-286 | a row decodes exactly when every required column is there and a 64-bit number, and the scope null or one, each field to its own value |
| Catalog.RowsRoundTrip | src/catalog.rs:239-273 | so does every list of profiles |
| Catalog.SortIsSorted | src/catalog.rs:354-368 | the load order is sorted and loses no row |
| Catalog.LoadTakesNewest | src/catalog.rs:354-368 | a limited load leaves out no row newer than one it returns |
| Catalog.LoadIsOrdered | src/catalog.rs:354-368 | what is loaded comes newest first, then by query, then by scope with the global profile first |
| Catalog.MemoryCatalogStore.constructor | src/catalog.rs:318-336 | an empty store with or without its tables |
| Catalog.MemoryCatalogStore.Persist | src/catalog.rs:370-385 | stores the rows, which StoreUpdatesMap states as a map; does nothing without tables |
| Catalog.MemoryCatalogStore.Load | src/catalog.rs:354-368 | the newest rows up to the limit |
| Catalog.MemoryCatalogStore.Delete | src/catalog.rs:387-392 | empties the profile table |
| Catalog.StoreUpdatesMap | src/catalog.rs:370-385 | storing rows in any store sets exactly their keys, the last row of a key winning |
| Catalog.SortView | src/catalog.rs:354-368 | sorting keeps the map of the rows |
| Catalog.FlushRestartRestore | src/shmem/profiles.rs:71-79 | flushing, losing shared memory and restoring under the same capacity rebuilds the same profiles |
| Durability.UndisturbedFlushIsDurable | src/shmem/profiles.rs:57-79 | a flush completed with no observation since its reservation leaves every cached profile in the store |
| Durability.FlushDurableIff | src/shmem/profiles.rs:125-158 | over observations of known queries the cache is durable at completion if and only if there were none |
| RecentDecisions.RecordRoundTrip | src/shmem/records.rs:264-302 | every record decodes to itself and an unwritten slot does not decode |
| RecentDecisions.DecodesIff | src/shmem/records.rs:286-301 | a slot decodes exactly when every code in it is a known one, each field to its own value |
| RecentDecisions.NewestPartGrows | src/shmem/recent_decisions.rs:13-36 | one more record goes behind the newest part, or starts it anew |
| RecentDecisions.LogIsNewestPart | src/shmem/recent_decisions.rs:13-36 | after any records and resets the log is the newest part of what was recorded since the last reset, back to the last restart of the counter |
| RecentDecisions.SlotsDiffer | src/shmem/recent_decisions.rs:82-87 | two records less than a capacity apart never share a slot |
| RecentDecisions.Ring.constructor | src/shmem/mod.rs:185-210 | an empty ring |
| RecentDecisions.Ring.Reset | src/shmem/mod.rs:98-107 | a reset of the statistics, like the restart at the largest head, empties the ring |
| RecentDecisions.Ring.Write | src/shmem/recent_decisions.rs:29-35 | writing at the head appends to the log |
| RecentDecisions.Ring.RecordDecision | src/shmem/recent_decisions.rs:13-36 | appends, restarts at the largest head, and ignores records at zero capacity |
| RecentDecisions.Ring.Snapshot | src/shmem/recent_decisions.rs:44-76 | never fails and gives the newest records up to limit and count, newest first |
| Bits.XorCancels | src/scope.rs:258-264 | exclusive or with the same byte twice gives the state back |
| Bits.AndHighBits | src/shmem/layout.rs:90-94 | masking the low bits rounds down to a multiple of the power of two |
| ScopeHash.Fnv1aUpdate | src/scope.rs:258-264 | the loop is the fold of the hash step |
| ScopeHash.HashScopeValue | src/scope.rs:241-246 | hashes kind tag, colon and value in this order |
| ScopeHash.HashOfLetterA | src/scope.rs:241-264 | the published FNV-1a hash of the text "a" |
| ScopeHash.MulRoundTrips | src/scope.rs:258-264 | multiplying by the prime modulo 2^64 is undone by its inverse |
| ScopeHash.StepIsBijection | src/scope.rs:258-264 | for a fixed byte a hash step is a bijection on 64-bit states |
| ScopeHash.UpdateKeepsApart | src/scope.rs:258-264 | different states stay different over any bytes |
| ScopeHash.BytesKeepApart | src/scope.rs:258-264 | different bytes take one state to different states |
| ScopeHash.TagsDiffer | src/scope.rs:248-256 | different kinds have different tags |
| ScopeHash.KindsNeverCollide | src/scope.rs:241-256 | one value under two kinds never collides |
| ScopeHash.OneByteNeverCollides | src/scope.rs:241-264 | two values that differ in one byte never collide under one kind |
| CompositeScopes.CompositeScopeValue | src/scope.rs:139-154 | joins the pieces with the delimiter, and only from two components on |
| CompositeScopes.PieceIsInjective | src/scope.rs:146-153 | a piece names one component |
| CompositeScopes.CompositeReadsBackIff | src/scope.rs:139-154 | a composite splits back into its pieces if and only if no value holds the delimiter |
| CompositeScopes.CompositesDiffer | src/scope.rs:139-172 | delimiter-free component lists have the same composite exactly when they are equal |
| CompositeScopes.MergedCollides | src/scope.rs:139-154 | a value holding the delimiter and a whole component gives the composite of one component more |
| ScopeNames.CharLength | src/shmem/records.rs:442-452 | a character is one leading byte and at most three continuation bytes |
| ScopeNames.BoundaryIsWholePrefix | src/shmem/records.rs:442-452 | on well-formed text the one-byte boundary test finds exactly the ends of whole characters |
| ScopeNames.BoundaryNearby | src/shmem/records.rs:442-452 | a boundary is never more than three bytes back |
| ScopeNames.LongestPrefixIsUnique | src/shmem/records.rs:442-452 | there is one longest prefix |
| ScopeNames.TruncateUtf8 | src/shmem/records.rs:442-452 | the backward scan ends at the longest whole-character prefix, at most three bytes below the limit |
| ScopeNames.EncodeValue | src/shmem/records.rs:378-440 | decoding what was stored succeeds and gives the longest prefix of at most 256 bytes, with all other fields |
| ScopeNames.NameDecodesIff | src/shmem/records.rs:403-429 | a stored name decodes exactly when its slot is occupied, its length and kind are in range, and its bytes are well-formed |
| Layout.AlignUp | src/shmem/layout.rs:90-94 | the masked sum is the arithmetic round-up, and fails exactly when that does not fit |
| Layout.OverflowIsExact | src/shmem/layout.rs:90-100 | the sum overflows exactly when the rounded value does not fit a word |
| Layout.ComputeLayout | src/shmem/layout.rs:46-88 | succeeds exactly when the unbounded layout fits, and then gives it |
| Layout.IdealIsSound | src/shmem/layout.rs:46-88 | all records aligned, regions disjoint, after the header, inside the total |
| Layout.IdealIsTightest | src/shmem/layout.rs:46-88 | no sound layout of the same capacities is smaller |
| Layout.LayoutIsExact | src/shmem/layout.rs:46-106 | a layout is computed exactly when some sound one fits a word |

## Left out

- Hooks, FFI pointers, SPI text, GUC registration and ereport: foreign calls; the model starts where a hook has decided what to call.
- Utility and command-tag classification, enum parsing, prediction clamping, policy lookup and its cache: single-branch facts or plumbing. The policy in force is a parameter of each admission.
- Privileges, SQL install scripts, stats rows and workload SQL: not part of this model.
- The wall clock, latch waits, interrupts and WAL counter reads: parameters of the operations, with the assumptions listed under Hypotheses.
- Raw slicing of shared memory (src/shmem/mod.rs:368-380): regions are arrays; the layout arithmetic is proved separately, with record sizes and alignments as parameters.
- Counters other than the global debt, and the profile observation between the two sections of a settlement: they touch no bucket. An error raised out of that observation, which would skip the budget section, is not modelled.
- The slots of the scope-name table (src/shmem/scope_names.rs): a scan and a saturating count; the stored record itself is modelled.
- Trimming of tenant and name values (src/scope.rs:156-162 and 227-239): needs Unicode tables.
- A capacity is any natural number; the conversion to 32 bits relies on the configured bound (src/shmem/layout.rs:112-115).
- The start time of a restore is folded into the state of a load in progress, the only state in which it is read.
- Durability.FlushDurableIff: observations of queries that are not cached yet, and evictions, between reservation and completion; a new profile can by chance equal the stored one.
- RateBound.WindowBoundIffSettled: from a full bucket, since a bucket with room may keep the bound although it is not settled.
- QueueLoop.AdmitQueue: the bound on attempts needs honest sleeps and one clock; without them the loop has no bound.
- Lifecycle.CompletionPopsOwnIff: sessions whose stacks an earlier end out of order has left unaligned; there the popped statement depends on more than the open calls (Lifecycle.MarkersOutOfOrder).
- ScopeHash.OneByteNeverCollides: says nothing of values that differ in more than one byte; a 64-bit hash of longer values must collide somewhere.
