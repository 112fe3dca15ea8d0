// The learned profile of one query: an integer moving average of its WAL (src/types.rs:281-342).
module Profiles {
  import opened Numbers
  import opened Wrappers

  datatype QueryWalProfile = QueryWalProfile(
    calls: U64, ewma: WalBytes, maxWal: WalBytes, lastSeen: EpochMillis)

  datatype Weights = Weights(numerator: U64, denominator: U64)

  datatype WeightError = InvalidWeights

  predicate ValidWeights(w: Weights) {
    0 < w.numerator <= w.denominator
  }

  function NewWeights(numerator: U64, denominator: U64): (r: Result<Weights, WeightError>)
    ensures r.Ok? <==> ValidWeights(Weights(numerator, denominator))
    ensures r.Ok? ==> r.value == Weights(numerator, denominator)
  {
    if denominator == 0 || numerator == 0 || numerator > denominator then Err(InvalidWeights)
    else Ok(Weights(numerator, denominator))
  }

  function FirstProfile(actual: WalBytes, now: EpochMillis): QueryWalProfile {
    QueryWalProfile(1, actual, actual, now)
  }

  // The weighted sum of old average and new observation, before division.
  function Mix(ewma: nat, actual: nat, w: Weights): nat
    requires ValidWeights(w)
  {
    ewma * (w.denominator - w.numerator) + actual * w.numerator
  }

  function Observe(p: QueryWalProfile, actual: WalBytes, now: EpochMillis, w: Weights): QueryWalProfile
    requires ValidWeights(w)
  {
    MixBounds(p.ewma, actual, w);
    ProductFits(Max(p.ewma, actual), w.denominator);
    var weighted: U128 := Mix(p.ewma, actual, w);
    QueryWalProfile(SaturatingAdd(p.calls, 1), SaturateToU64(weighted / w.denominator),
                    Max(p.maxWal, actual), now)
  }

  class ProfileState {
    var calls: U64
    var ewma: WalBytes
    var maxWal: WalBytes
    var lastSeen: EpochMillis

    function Value(): QueryWalProfile
      reads this
    {
      QueryWalProfile(calls, ewma, maxWal, lastSeen)
    }

    constructor (p: QueryWalProfile)
      ensures Value() == p
    {
      calls, ewma, maxWal, lastSeen := p.calls, p.ewma, p.maxWal, p.lastSeen;
    }

    method RecordObservation(actual: WalBytes, now: EpochMillis, w: Weights)
      requires ValidWeights(w)
      modifies this
      ensures Value() == Observe(old(Value()), actual, now, w)
    {
      MixBounds(ewma, actual, w);
      ProductFits(Max(ewma, actual), w.denominator);
      var oldWeight := w.denominator - w.numerator;
      var weighted: U128 := ewma * oldWeight + actual * w.numerator;
      ewma := SaturateToU64(weighted / w.denominator);
      calls := SaturatingAdd(calls, 1);
      maxWal := Max(maxWal, actual);
      lastSeen := now;
    }
  }

  lemma MixBounds(ewma: nat, actual: nat, w: Weights)
    requires ValidWeights(w)
    ensures Min(ewma, actual) * w.denominator <= Mix(ewma, actual, w) <= Max(ewma, actual) * w.denominator
  {
    var low, high, keep := Min(ewma, actual), Max(ewma, actual), w.denominator - w.numerator;
    MulMono(low, ewma, keep);
    MulMono(low, actual, w.numerator);
    MulMono(ewma, high, keep);
    MulMono(actual, high, w.numerator);
    assert low * w.denominator == low * keep + low * w.numerator;
    assert high * w.denominator == high * keep + high * w.numerator;
  }

  lemma DivBelow(x: nat, high: nat, d: nat)
    requires d > 0 && x < high * d
    ensures x / d < high
  {
    if x / d >= high {
      MulMonoRight(d, high, x / d);
      assert false;
    }
  }

  lemma DivAbove(x: nat, low: nat, d: nat)
    requires d > 0 && low * d <= x
    ensures low <= x / d
  {
    if x / d + 1 <= low {
      MulMonoRight(d, x / d + 1, low);
      assert false;
    }
  }

  lemma DivideBetween(x: nat, low: nat, high: nat, d: nat)
    requires d > 0 && low * d <= x <= high * d
    ensures low <= x / d <= high
  {
    DivAbove(x, low, d);
    DivBelow(x, high + 1, d);
  }

  // One observation keeps the average between the old average and the observation, so the overflow
  // branch is never taken and the result is the exact integer quotient.
  lemma ObserveBetween(p: QueryWalProfile, actual: WalBytes, now: EpochMillis, w: Weights)
    requires ValidWeights(w)
    ensures Observe(p, actual, now, w).ewma == Mix(p.ewma, actual, w) / w.denominator
    ensures Min(p.ewma, actual) <= Observe(p, actual, now, w).ewma <= Max(p.ewma, actual)
  {
    MixBounds(p.ewma, actual, w);
    DivideBetween(Mix(p.ewma, actual, w), Min(p.ewma, actual), Max(p.ewma, actual), w.denominator);
  }

  // ----- Whole histories -----

  datatype Observation = Observation(actual: WalBytes, now: EpochMillis)

  function ObserveAll(history: seq<Observation>, w: Weights): QueryWalProfile
    requires history != [] && ValidWeights(w)
  {
    var last := history[|history| - 1];
    if |history| == 1 then FirstProfile(last.actual, last.now)
    else Observe(ObserveAll(history[..|history| - 1], w), last.actual, last.now, w)
  }

  // After any history the average lies between the least and the greatest observation, the maximum
  // is the greatest one, and the time and count are the history's.
  lemma {:induction false} HistoryBounds(history: seq<Observation>, w: Weights, low: nat)
    requires history != [] && ValidWeights(w)
    requires forall o :: o in history ==> low <= o.actual
    ensures var p := ObserveAll(history, w);
      && low <= p.ewma <= p.maxWal
      && (forall o :: o in history ==> o.actual <= p.maxWal)
      && (exists o :: o in history && o.actual == p.maxWal)
      && p.calls == Min(|history|, U64_MAX)
      && p.lastSeen == history[|history| - 1].now
  {
    var n := |history| - 1;
    var last := history[n];
    assert history == history[..n] + [last];
    assert last in history;
    if n > 0 {
      HistoryBounds(history[..n], w, low);
      var p := ObserveAll(history[..n], w);
      ObserveBetween(p, last.actual, last.now, w);
      var o :| o in history[..n] && o.actual == p.maxWal;
      assert o in history;
    }
  }

  // ----- The same observation again and again -----

  lemma FallsOneStep(ewma: nat, actual: nat, w: Weights)
    requires ValidWeights(w) && ewma > actual
    ensures actual <= Mix(ewma, actual, w) / w.denominator < ewma
  {
    var d := w.denominator;
    MixBounds(ewma, actual, w);
    assert Mix(ewma, actual, w) == ewma * d - (ewma - actual) * w.numerator;
    MulMono(1, ewma - actual, w.numerator);
    DivideBetween(Mix(ewma, actual, w), actual, ewma, d);
    DivBelow(Mix(ewma, actual, w), ewma, d);
  }

  // The distance left to an observation is worth less than one byte.
  predicate AtRest(ewma: nat, actual: nat, w: Weights) {
    (actual - ewma) * w.numerator < w.denominator
  }

  // From below the average moves exactly when it is not at rest.
  lemma RisesOneStep(ewma: nat, actual: nat, w: Weights)
    requires ValidWeights(w) && ewma <= actual
    ensures ewma <= Mix(ewma, actual, w) / w.denominator <= actual
    ensures Mix(ewma, actual, w) / w.denominator == ewma <==> AtRest(ewma, actual, w)
  {
    var d := w.denominator;
    MixBounds(ewma, actual, w);
    DivideBetween(Mix(ewma, actual, w), ewma, actual, d);
    assert Mix(ewma, actual, w) == ewma * d + (actual - ewma) * w.numerator;
    assert (ewma + 1) * d == ewma * d + d;
    if AtRest(ewma, actual, w) {
      DivBelow(Mix(ewma, actual, w), ewma + 1, d);
    } else {
      DivAbove(Mix(ewma, actual, w), ewma + 1, d);
    }
  }

  // The profile after n more observations of `actual`.
  function Repeat(p: QueryWalProfile, actual: WalBytes, now: EpochMillis, w: Weights, n: nat): QueryWalProfile
    requires ValidWeights(w)
  {
    if n == 0 then p else Observe(Repeat(p, actual, now, w, n - 1), actual, now, w)
  }

  // From above the average falls strictly until it is exactly the observation.
  lemma {:induction false} FallsToObservation(p: QueryWalProfile, actual: WalBytes, now: EpochMillis, w: Weights,
                                              n: nat)
    requires ValidWeights(w) && p.ewma >= actual
    ensures actual <= Repeat(p, actual, now, w, n).ewma <= Max(actual, p.ewma - n)
    ensures n >= p.ewma - actual ==> Repeat(p, actual, now, w, n).ewma == actual
    ensures Repeat(p, actual, now, w, n).ewma > actual ==>
      Repeat(p, actual, now, w, n + 1).ewma < Repeat(p, actual, now, w, n).ewma
  {
    var q := Repeat(p, actual, now, w, n);
    if n > 0 {
      FallsToObservation(p, actual, now, w, n - 1);
      ObserveBetween(Repeat(p, actual, now, w, n - 1), actual, now, w);
    }
    ObserveBetween(q, actual, now, w);
    if q.ewma > actual {
      FallsOneStep(q.ewma, actual, w);
    }
  }

  lemma RepeatStep(p: QueryWalProfile, actual: WalBytes, now: EpochMillis, w: Weights, n: nat)
    requires ValidWeights(w)
    ensures var q, r := Repeat(p, actual, now, w, n), Repeat(p, actual, now, w, n + 1);
      q.ewma <= actual ==> q.ewma <= r.ewma <= actual && (r.ewma == q.ewma <==> AtRest(q.ewma, actual, w))
  {
    var q := Repeat(p, actual, now, w, n);
    if q.ewma <= actual {
      ObserveBetween(q, actual, now, w);
      RisesOneStep(q.ewma, actual, w);
    }
  }

  // From below it rises without passing the observation, and it stays where it is exactly when the
  // distance left is worth less than a byte, which it is after at most `actual - ewma` observations.
  lemma {:induction false} RisesTowardObservation(p: QueryWalProfile, actual: WalBytes, now: EpochMillis, w: Weights,
                                                  n: nat)
    requires ValidWeights(w) && p.ewma <= actual
    ensures var q, r := Repeat(p, actual, now, w, n), Repeat(p, actual, now, w, n + 1);
      && p.ewma <= q.ewma <= r.ewma <= actual
      && (r.ewma == q.ewma <==> AtRest(q.ewma, actual, w))
      && (q.ewma >= p.ewma + n || AtRest(q.ewma, actual, w))
      && (n >= actual - p.ewma ==> AtRest(q.ewma, actual, w))
  {
    if n > 0 {
      RisesTowardObservation(p, actual, now, w, n - 1);
    }
    RepeatStep(p, actual, now, w, n);
    RestAtObservation(actual, w);
  }

  lemma RestAtObservation(actual: nat, w: Weights)
    requires ValidWeights(w)
    ensures AtRest(actual, actual, w)
  {
  }
}
