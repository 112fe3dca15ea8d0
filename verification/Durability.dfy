// When a flush leaves nothing behind: the cache is written as it was when the flush was reserved, and
// the completion clears the dirty count whatever was observed in between (src/shmem/profiles.rs:57-79
// and 125-158).
module Durability {
  import opened Numbers
  import opened Wrappers
  import opened Profiles
  import opened ProfileCache
  import opened Catalog

  // Every cached profile stands in the store as it is.
  ghost predicate Durable(c: Cache, stored: seq<Entry>) {
    forall k :: k in View(c) ==> k in View(stored) && View(stored)[k] == View(c)[k]
  }

  // The cache holds both profiles of the query.
  ghost predicate Known(c: Cache, op: Op) {
    op.Observed? && ProfileKey(Some(op.scope), op.query) in View(c) && ProfileKey(None, op.query) in View(c)
  }

  lemma KnownUpsert(c: Cache, capacity: nat, k: ProfileKey, actual: WalBytes, now: EpochMillis, w: Weights)
    requires WellFormed(c, capacity) && k in View(c) && ValidWeights(w)
    ensures var r := Upsert(c, capacity, k, actual, now, w);
      && r.Ok? && WellFormed(r.value, capacity)
      && View(r.value) == View(c)[k := Observe(View(c)[k], actual, now, w)]
  {
    ViewHas(c, k);
    UpsertLaw(c, capacity, k, actual, now, w);
  }

  // Observing a known query keeps the keys, lowers no count of calls, and raises that of its global
  // profile by one.
  lemma KnownObservation(c: Cache, capacity: nat, op: Op)
    requires WellFormed(c, capacity) && Known(c, op) && ValidWeights(op.weights)
    ensures var (d, g) := (Apply(c, capacity, op), ProfileKey(None, op.query));
      && WellFormed(d, capacity) && View(d).Keys == View(c).Keys
      && (forall k :: k in View(c) ==> View(c)[k].calls <= View(d)[k].calls)
      && View(d)[g].calls == SaturatingAdd(View(c)[g].calls, 1)
  {
    var scoped, g := ProfileKey(Some(op.scope), op.query), ProfileKey(None, op.query);
    KnownUpsert(c, capacity, scoped, op.actual, op.now, op.weights);
    var d := Upsert(c, capacity, scoped, op.actual, op.now, op.weights).value;
    KnownUpsert(d, capacity, g, op.actual, op.now, op.weights);
  }

  lemma {:induction false} ObservationsShow(c: Cache, capacity: nat, ops: seq<Op>)
    requires WellFormed(c, capacity) && ValidOps(ops) && forall op :: op in ops ==> Known(c, op)
    requires forall k :: k in View(c) ==> View(c)[k].calls < U64_MAX
    ensures var d := ApplyAll(c, capacity, ops);
      && WellFormed(d, capacity) && View(d).Keys == View(c).Keys
      && (forall k :: k in View(c) ==> View(c)[k].calls <= View(d)[k].calls)
      && (ops != [] ==> exists k :: k in View(c) && View(c)[k].calls < View(d)[k].calls)
  {
    if ops != [] {
      var front, op := ops[..|ops| - 1], ops[|ops| - 1];
      assert op in ops;
      ObservationsShow(c, capacity, front);
      var before := ApplyAll(c, capacity, front);
      KnownObservation(before, capacity, op);
      var g := ProfileKey(None, op.query);
      assert View(c)[g].calls < View(Apply(before, capacity, op))[g].calls;
    }
  }

  // A flush reserved on cache c and completed after the observations `ops` of known queries leaves the
  // cache durable exactly when there were none, although the dirty count is zero either way.
  lemma FlushDurableIff(c: Cache, capacity: nat, stored: seq<Entry>, ops: seq<Op>)
    requires WellFormed(c, capacity) && Unique(stored)
    requires ValidOps(ops) && forall op :: op in ops ==> Known(c, op)
    requires forall k :: k in View(c) ==> View(c)[k].calls < U64_MAX
    ensures Durable(ApplyAll(c, capacity, ops), StoreAll(stored, c)) <==> ops == []
  {
    StoreUpdatesMap(stored, c);
    ObservationsShow(c, capacity, ops);
  }

  // With no observation in between a completed flush is durable, whatever the cache holds.
  lemma UndisturbedFlushIsDurable(c: Cache, stored: seq<Entry>)
    requires Unique(stored)
    ensures Durable(c, StoreAll(stored, c))
  {
    StoreUpdatesMap(stored, c);
  }
}
