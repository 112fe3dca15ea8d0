// The ring of recent decisions (src/shmem/recent_decisions.rs) and the byte codes its records are
// stored in (src/shmem/records.rs:264-302 and 454-558).
module RecentDecisions {
  import opened Numbers
  import opened Wrappers
  import opened Budget
  import opened Scopes

  datatype StatementClass = ReadOnly | Write | UtilityClass | Copy | Unknown

  datatype Record = Record(
    timestamp: EpochMillis, kind: DecisionKind, policyId: Option<PolicyId>, scopeKind: ScopeKind,
    scopeHash: ScopeHash, queryId: Option<QueryId>, stmtClass: StatementClass, predicted: WalBytes,
    actual: Option<WalBytes>, before: WalBytes, after: WalBytes, reason: ReasonCode)

  datatype Stored = Stored(
    timestamp: EpochMillis, kind: Byte, reason: Byte, scopeKind: Byte, stmtClass: Byte,
    hasPolicyId: Byte, hasQueryId: Byte, hasActual: Byte, policyId: PolicyId, queryId: QueryId,
    scopeHash: ScopeHash, predicted: WalBytes, actual: WalBytes, before: WalBytes, after: WalBytes)

  // What zeroed memory holds.
  const BLANK := Stored(0, 0, 0, 0, 0, 0, 0, 0, 0, 0, 0, 0, 0, 0, 0)

  datatype CodeError = InvalidCode | HeadUnderflow

  // ----- Codes -----

  function EncodeKind(k: DecisionKind): Byte {
    match k
    case Allowed => 1
    case WouldReject => 2
    case Rejected => 3
    case NoMatchingPolicy => 4
    case MissingScope => 5
    case InternalErrorFailOpen => 6
  }

  function DecodeKind(x: Byte): Result<DecisionKind, CodeError> {
    match x
    case 1 => Ok(Allowed)
    case 2 => Ok(WouldReject)
    case 3 => Ok(Rejected)
    case 4 => Ok(DecisionKind.NoMatchingPolicy)
    case 5 => Ok(DecisionKind.MissingScope)
    case 6 => Ok(InternalErrorFailOpen)
    case _ => Err(InvalidCode)
  }

  function EncodeReason(r: ReasonCode): Byte {
    match r
    case PolicyDisabled => 1
    case PolicyMatched => 2
    case BudgetAvailable => 3
    case OverBudget => 4
    case ObserveMode => 5
    case ShadowMode => 6
    case NoPolicy => 7
    case NoScope => 8
    case PredictionUnavailable => 9
    case FailedOpen => 10
  }

  function DecodeReason(x: Byte): Result<ReasonCode, CodeError> {
    match x
    case 1 => Ok(PolicyDisabled)
    case 2 => Ok(PolicyMatched)
    case 3 => Ok(BudgetAvailable)
    case 4 => Ok(OverBudget)
    case 5 => Ok(ObserveMode)
    case 6 => Ok(ShadowMode)
    case 7 => Ok(NoPolicy)
    case 8 => Ok(NoScope)
    case 9 => Ok(PredictionUnavailable)
    case 10 => Ok(FailedOpen)
    case _ => Err(InvalidCode)
  }

  function EncodeScopeKind(k: ScopeKind): Byte {
    match k
    case Database => 1
    case Role => 2
    case Application => 3
    case Tenant => 4
    case Composite => 5
  }

  function DecodeScopeKind(x: Byte): Result<ScopeKind, CodeError> {
    match x
    case 1 => Ok(Database)
    case 2 => Ok(Role)
    case 3 => Ok(Application)
    case 4 => Ok(Tenant)
    case 5 => Ok(Composite)
    case _ => Err(InvalidCode)
  }

  function EncodeClass(c: StatementClass): Byte {
    match c
    case ReadOnly => 1
    case Write => 2
    case UtilityClass => 3
    case Copy => 4
    case Unknown => 5
  }

  function DecodeClass(x: Byte): Result<StatementClass, CodeError> {
    match x
    case 1 => Ok(ReadOnly)
    case 2 => Ok(Write)
    case 3 => Ok(UtilityClass)
    case 4 => Ok(Copy)
    case 5 => Ok(Unknown)
    case _ => Err(InvalidCode)
  }

  function DecodeOptional<T>(flag: Byte, value: T): Result<Option<T>, CodeError> {
    match flag
    case 0 => Ok(None)
    case 1 => Ok(Some(value))
    case _ => Err(InvalidCode)
  }

  function Flag<T>(x: Option<T>): Byte {
    if x.Some? then 1 else 0
  }

  function OrZero(x: Option<U64>): U64 {
    if x.Some? then x.value else 0
  }

  function Encode(r: Record): Stored {
    Stored(r.timestamp, EncodeKind(r.kind), EncodeReason(r.reason), EncodeScopeKind(r.scopeKind),
           EncodeClass(r.stmtClass), Flag(r.policyId), Flag(r.queryId), Flag(r.actual),
           if r.policyId.Some? then r.policyId.value else 0, OrZero(r.queryId), r.scopeHash,
           r.predicted, OrZero(r.actual), r.before, r.after)
  }

  function Decode(s: Stored): Result<Record, CodeError> {
    var kind :- DecodeKind(s.kind);
    var policyId :- DecodeOptional(s.hasPolicyId, s.policyId);
    var scopeKind :- DecodeScopeKind(s.scopeKind);
    var queryId :- DecodeOptional(s.hasQueryId, s.queryId);
    var stmtClass :- DecodeClass(s.stmtClass);
    var actual :- DecodeOptional(s.hasActual, s.actual);
    var reason :- DecodeReason(s.reason);
    Ok(Record(s.timestamp, kind, policyId, scopeKind, s.scopeHash, queryId, stmtClass, s.predicted,
              actual, s.before, s.after, reason))
  }

  // A written record reads back as itself; a slot that was never written does not decode.
  lemma RecordRoundTrip(r: Record)
    ensures Decode(Encode(r)) == Ok(r)
    ensures Decode(BLANK) == Err(InvalidCode)
  {
    assert DecodeKind(EncodeKind(r.kind)) == Ok(r.kind);
    assert DecodeReason(EncodeReason(r.reason)) == Ok(r.reason);
    assert DecodeScopeKind(EncodeScopeKind(r.scopeKind)) == Ok(r.scopeKind);
    assert DecodeClass(EncodeClass(r.stmtClass)) == Ok(r.stmtClass);
  }

  // A slot decodes exactly when every code in it is a known one.
  lemma DecodesIff(s: Stored)
    ensures Decode(s).Ok? <==>
      && 1 <= s.kind <= 6 && 1 <= s.reason <= 10 && 1 <= s.scopeKind <= 5 && 1 <= s.stmtClass <= 5
      && s.hasPolicyId <= 1 && s.hasQueryId <= 1 && s.hasActual <= 1
    ensures Decode(s).Ok? ==>
      var r := Decode(s).value;
      && EncodeKind(r.kind) == s.kind && EncodeReason(r.reason) == s.reason
      && EncodeScopeKind(r.scopeKind) == s.scopeKind && EncodeClass(r.stmtClass) == s.stmtClass
      && r.policyId == (if s.hasPolicyId == 1 then Some(s.policyId) else None)
      && r.queryId == (if s.hasQueryId == 1 then Some(s.queryId) else None)
      && r.actual == (if s.hasActual == 1 then Some(s.actual) else None)
      && (r.timestamp, r.scopeHash, r.predicted, r.before, r.after)
         == (s.timestamp, s.scopeHash, s.predicted, s.before, s.after)
  {
  }

  // ----- The log the ring stands for -----

  // The records since the last reset; the counter of an unbounded ring starts over at its maximum.
  function Logged(log: seq<Record>, capacity: nat, r: Record): seq<Record> {
    if capacity == 0 then log
    else if |log| == U64_MAX then [r]
    else log + [r]
  }

  // A record, or a reset of the statistics, which empties the ring.
  datatype RingEvent = Recorded(record: Record) | StatsReset

  function LogOf(events: seq<RingEvent>, capacity: nat): seq<Record> {
    if events == [] then []
    else
      match events[|events| - 1]
      case Recorded(r) => Logged(LogOf(events[..|events| - 1], capacity), capacity, r)
      case StatsReset => []
  }

  // The records since the last reset.
  function SinceReset(events: seq<RingEvent>): seq<Record> {
    if events == [] then []
    else
      match events[|events| - 1]
      case Recorded(r) => SinceReset(events[..|events| - 1]) + [r]
      case StatsReset => []
  }

  // How many of n records were written since the ring last started over.
  function SinceRestart(n: nat): nat {
    if n == 0 then 0 else (n - 1) % U64_MAX + 1
  }

  lemma OneMoreSinceRestart(n: nat)
    ensures SinceRestart(n) <= n
    ensures SinceRestart(n + 1) == if SinceRestart(n) == U64_MAX then 1 else SinceRestart(n) + 1
  {
  }

  // What an unbounded ring keeps of these records: all since the counter last started over.
  function NewestPart(records: seq<Record>): (part: seq<Record>)
    ensures |part| == SinceRestart(|records|) <= |records|
  {
    OneMoreSinceRestart(|records|);
    records[|records| - SinceRestart(|records|)..]
  }

  // One more record goes behind the newest part, or starts it anew.
  lemma NewestPartGrows(records: seq<Record>, r: Record, capacity: nat)
    requires capacity > 0
    ensures Logged(NewestPart(records), capacity, r) == NewestPart(records + [r])
  {
    OneMoreSinceRestart(|records|);
  }

  lemma LogOfRecorded(events: seq<RingEvent>, capacity: nat, r: Record)
    requires events != [] && events[|events| - 1] == Recorded(r)
    ensures LogOf(events, capacity) == Logged(LogOf(events[..|events| - 1], capacity), capacity, r)
    ensures SinceReset(events) == SinceReset(events[..|events| - 1]) + [r]
  {
  }

  // After any sequence of records and resets the log is the newest part of what was recorded since the
  // last reset, back to the last time the counter started over: it is never empty after a record, and
  // never loses the last one.
  lemma {:induction false} LogIsNewestPart(events: seq<RingEvent>, capacity: nat)
    requires capacity > 0
    ensures LogOf(events, capacity) == NewestPart(SinceReset(events))
  {
    if events != [] && events[|events| - 1].Recorded? {
      var r := events[|events| - 1].record;
      LogIsNewestPart(events[..|events| - 1], capacity);
      NewestPartGrows(SinceReset(events[..|events| - 1]), r, capacity);
      LogOfRecorded(events, capacity, r);
    }
  }

  lemma SlotsDiffer(a: nat, b: nat, capacity: nat)
    requires a < b < a + capacity
    ensures a % capacity != b % capacity
  {
    if a % capacity == b % capacity {
      assert a == capacity * (a / capacity) + a % capacity;
      assert b == capacity * (b / capacity) + b % capacity;
      assert b - a == capacity * (b / capacity - a / capacity);
      if b / capacity - a / capacity >= 1 {
        MulMonoRight(capacity, 1, b / capacity - a / capacity);
      } else {
        MulMonoRight(capacity, b / capacity - a / capacity, 0);
      }
      assert false;
    }
  }

  class Ring {
    const slots: array<Stored>
    var head: U64
    var count: nat
    ghost var Log: seq<Record>

    ghost predicate Valid()
      reads this, slots
    {
      && head == |Log|
      && count == Min(|Log|, slots.Length)
      && slots.Length <= 0xFFFF_FFFF
      && (slots.Length == 0 ==> Log == [])
      && forall k {:trigger Log[k]} :: |Log| - count <= k < |Log| ==> slots[k % slots.Length] == Encode(Log[k])
    }

    constructor (capacity: nat)
      requires capacity <= 0xFFFF_FFFF
      ensures Valid() && fresh(slots) && slots.Length == capacity && Log == []
    {
      slots := new Stored[capacity](_ => BLANK);
      head, count, Log := 0, 0, [];
    }

    method Reset()
      requires Valid()
      modifies this, slots
      ensures Valid() && Log == []
      ensures forall i :: 0 <= i < slots.Length ==> slots[i] == BLANK
    {
      head, count, Log := 0, 0, [];
      forall i | 0 <= i < slots.Length {
        slots[i] := BLANK;
      }
    }

    method Write(r: Record)
      requires Valid() && slots.Length > 0 && head < U64_MAX
      modifies this, slots
      ensures Valid() && Log == old(Log) + [r]
    {
      var slot := head % slots.Length;
      forall k | |Log| - slots.Length < k < |Log| && 0 <= k ensures k % slots.Length != slot {
        SlotsDiffer(k, head, slots.Length);
      }
      slots[slot] := Encode(r);
      head := SaturatingAdd(head, 1);
      count := Min(Min(count + 1, 0xFFFF_FFFF), slots.Length);
      Log := Log + [r];
    }

    method RecordDecision(r: Record)
      requires Valid()
      modifies this, slots
      ensures Valid() && Log == Logged(old(Log), slots.Length, r)
    {
      if slots.Length == 0 {
        return;
      }
      if head == U64_MAX {
        Reset();
      }
      Write(r);
    }

    // A snapshot never fails, and it is the newest records of the log, newest first.
    method Snapshot(limit: nat) returns (r: Result<seq<Record>, CodeError>)
      requires Valid()
      ensures r.Ok? && |r.value| == Min(limit, Min(|Log|, slots.Length))
      ensures forall i :: 0 <= i < |r.value| ==> r.value[i] == Log[|Log| - 1 - i]
    {
      if slots.Length == 0 || limit == 0 {
        return Ok([]);
      }
      var n := Min(Min(limit, count), slots.Length);
      if n == 0 {
        return Ok([]);
      }
      if head == 0 {
        assert false;
        return Err(HeadUnderflow);
      }
      var records: seq<Record> := [];
      var sequence := head - 1;
      for i := 0 to n
        invariant |records| == i && forall j :: 0 <= j < i ==> records[j] == Log[|Log| - 1 - j]
        invariant sequence == if i < |Log| then |Log| - 1 - i else 0
      {
        assert sequence == |Log| - 1 - i;
        RecordRoundTrip(Log[sequence]);
        var record := Decode(slots[sequence % slots.Length]);
        if record.Err? {
          assert false;
          return Err(InvalidCode);
        }
        records := records + [record.value];
        sequence := SaturatingSub(sequence, 1);
      }
      r := Ok(records);
    }
  }
}
