// Where the four regions of shared memory lie (src/shmem/layout.rs:46-106). Sizes and alignments
// come from the compiler, so they are parameters.
module Layout {
  import opened Bits
  import opened Numbers
  import opened Wrappers

  type Usize = U64

  const USIZE_MAX: int := U64_MAX

  datatype Shape = Shape(size: Usize, log: nat) {
    function Alignment(): nat {
      Pow2(log)
    }

    // What a compiler promises of a type: the alignment is a power of two that divides the size.
    ghost predicate Valid() {
      log < 64 && size % Alignment() == 0
    }
  }

  datatype Shapes = Shapes(decision: Shape, profile: Shape, bucket: Shape, name: Shape) {
    ghost predicate Valid() {
      decision.Valid() && profile.Valid() && bucket.Valid() && name.Valid()
    }
  }

  datatype Capacities = Capacities(decisions: Usize, profiles: Usize, buckets: Usize, names: Usize)

  datatype SharedLayout = SharedLayout(
    total: nat, decisions: nat, profiles: nat, buckets: nat, names: nat, capacities: Capacities)

  datatype LayoutError = Overflow

  function CheckedAdd(a: Usize, b: Usize): Result<Usize, LayoutError> {
    if a + b <= USIZE_MAX then Ok(a + b) else Err(Overflow)
  }

  function CheckedMul(a: Usize, b: Usize): Result<Usize, LayoutError> {
    MulMonoRight(a, 0, b);
    if a * b <= USIZE_MAX then Ok(a * b) else Err(Overflow)
  }

  // The complement of a 64-bit word.
  function Not(x: Usize): Usize {
    USIZE_MAX - x
  }

  // ----- The layout over unbounded integers -----

  // The least multiple of the alignment that is not below the value.
  function RoundUp(value: nat, alignment: nat): nat
    requires alignment > 0
  {
    if value % alignment == 0 then value else value - value % alignment + alignment
  }

  lemma RoundUpIsAligned(value: nat, alignment: nat)
    requires alignment > 0
    ensures RoundUp(value, alignment) % alignment == 0
    ensures value <= RoundUp(value, alignment) < value + alignment
  {
    if value % alignment != 0 {
      var q := value / alignment;
      assert value == alignment * q + value % alignment;
      assert alignment * (q + 1) == alignment * q + alignment;
      RemainderUnique(alignment * (q + 1), alignment, q + 1, 0);
    }
  }

  lemma RoundUpIsLeast(value: nat, alignment: nat, x: nat)
    requires alignment > 0 && value <= x && x % alignment == 0
    ensures RoundUp(value, alignment) <= x
  {
    if value % alignment != 0 {
      var q, k := value / alignment, x / alignment;
      assert value == alignment * q + value % alignment && x == alignment * k;
      if k <= q {
        MulMonoRight(alignment, k, q);
        assert false;
      }
      MulMonoRight(alignment, q + 1, k);
      assert alignment * (q + 1) == alignment * q + alignment;
    }
  }

  // The sum overflows exactly when the rounded value does not fit.
  lemma OverflowIsExact(value: Usize, a: nat)
    requires a > 0 && TWO_64 % a == 0
    ensures value + (a - 1) <= USIZE_MAX <==> RoundUp(value, a) <= USIZE_MAX
  {
    RoundsUpBySum(value, a);
    if value + (a - 1) > USIZE_MAX {
      MultipleBelow(value + (a - 1), TWO_64, a);
    }
  }

  // A multiple of `a` that is at most x is at most x rounded down.
  lemma MultipleBelow(x: nat, m: nat, a: nat)
    requires a > 0 && m <= x && m % a == 0
    ensures m <= x - x % a
  {
    assert m == a * (m / a) && x == a * (x / a) + x % a;
    if x / a < m / a {
      MulMonoRight(a, x / a + 1, m / a);
    } else {
      MulMonoRight(a, m / a, x / a);
    }
  }

  lemma {:induction false} Pow2Divides(j: nat, k: nat)
    requires j <= k
    ensures Pow2(k) % Pow2(j) == 0
  {
    if j == 0 {
    } else {
      Pow2Divides(j - 1, k - 1);
      HalfRemainder(Pow2(k), Pow2(j - 1));
    }
  }

  // Adding one less than the alignment and rounding down rounds up.
  lemma RoundsUpBySum(value: nat, a: nat)
    requires a > 0
    ensures RoundUp(value, a) == (value + (a - 1)) - (value + (a - 1)) % a
  {
    var q, r := value / a, value % a;
    assert value == a * q + r;
    if r == 0 {
      RemainderUnique(value + (a - 1), a, q, a - 1);
    } else {
      assert a * (q + 1) == a * q + a;
      RemainderUnique(value + (a - 1), a, q + 1, r - 1);
    }
  }

  // Where the bytes of a region end.
  function End(start: nat, count: Usize, shape: Shape): (end: nat)
    ensures start <= end
  {
    MulMonoRight(count, 0, shape.size);
    start + count * shape.size
  }

  // Where the next region starts.
  function Place(end: nat, shape: Shape): (start: nat)
    ensures end <= start < end + shape.Alignment()
  {
    RoundUpIsAligned(end, shape.Alignment());
    RoundUp(end, shape.Alignment())
  }

  // The layout with no word size: each region at the first aligned place past the one before.
  function IdealLayout(header: Usize, shapes: Shapes, c: Capacities): (l: SharedLayout)
    ensures header <= l.decisions <= End(l.decisions, c.decisions, shapes.decision) <= l.profiles
    ensures l.profiles <= End(l.profiles, c.profiles, shapes.profile) <= l.buckets
    ensures l.buckets <= End(l.buckets, c.buckets, shapes.bucket) <= l.names
    ensures l.names <= End(l.names, c.names, shapes.name) == l.total
  {
    var decisions := Place(header, shapes.decision);
    var profiles := Place(End(decisions, c.decisions, shapes.decision), shapes.profile);
    var buckets := Place(End(profiles, c.profiles, shapes.profile), shapes.bucket);
    var names := Place(End(buckets, c.buckets, shapes.bucket), shapes.name);
    SharedLayout(End(names, c.names, shapes.name), decisions, profiles, buckets, names, c)
  }

  // A layout that keeps its promises: every region lies after the one before it and inside the total,
  // and every one of its records is aligned.
  ghost predicate Sound(l: SharedLayout, header: Usize, shapes: Shapes)
  {
    && header <= l.decisions
    && End(l.decisions, l.capacities.decisions, shapes.decision) <= l.profiles
    && End(l.profiles, l.capacities.profiles, shapes.profile) <= l.buckets
    && End(l.buckets, l.capacities.buckets, shapes.bucket) <= l.names
    && End(l.names, l.capacities.names, shapes.name) <= l.total
    && RecordsAligned(l.decisions, shapes.decision)
    && RecordsAligned(l.profiles, shapes.profile)
    && RecordsAligned(l.buckets, shapes.bucket)
    && RecordsAligned(l.names, shapes.name)
  }

  ghost predicate RecordsAligned(start: nat, shape: Shape) {
    forall slot: Usize :: End(start, slot, shape) % shape.Alignment() == 0
  }

  lemma PlacedRecordsAligned(end: nat, shape: Shape)
    requires shape.Valid()
    ensures RecordsAligned(Place(end, shape), shape)
  {
    var a, start := shape.Alignment(), Place(end, shape);
    RoundUpIsAligned(end, a);
    forall slot: Usize ensures End(start, slot, shape) % a == 0 {
      MultiplesAdd(start, slot, shape.size, a);
    }
  }

  lemma MultiplesAdd(start: nat, count: nat, size: nat, a: nat)
    requires a > 0 && start % a == 0 && size % a == 0
    ensures 0 <= count * size && (start + count * size) % a == 0
  {
    var s, z := start / a, size / a;
    assert start == a * s && size == a * z;
    assert count * (a * z) == a * (count * z);
    assert a * s + a * (count * z) == a * (s + count * z);
    MulMonoRight(count, 0, z);
    RemainderUnique(start + count * size, a, s + count * z, 0);
  }

  lemma IdealIsSound(header: Usize, shapes: Shapes, c: Capacities)
    requires shapes.Valid()
    ensures Sound(IdealLayout(header, shapes, c), header, shapes)
  {
    var l := IdealLayout(header, shapes, c);
    PlacedRecordsAligned(header, shapes.decision);
    PlacedRecordsAligned(End(l.decisions, c.decisions, shapes.decision), shapes.profile);
    PlacedRecordsAligned(End(l.profiles, c.profiles, shapes.profile), shapes.bucket);
    PlacedRecordsAligned(End(l.buckets, c.buckets, shapes.bucket), shapes.name);
  }

  // Records that are aligned and start past `end` start no earlier than the placed ones.
  lemma PlaceIsLeast(end: nat, shape: Shape, start: nat)
    requires end <= start && RecordsAligned(start, shape)
    ensures Place(end, shape) <= start
  {
    assert End(start, 0, shape) == start;
    RoundUpIsLeast(end, shape.Alignment(), start);
  }

  lemma EndGrows(start1: nat, start2: nat, count: Usize, shape: Shape)
    requires start1 <= start2
    ensures End(start1, count, shape) <= End(start2, count, shape)
  {
  }

  // No sound layout of the same capacities is smaller.
  lemma IdealIsTightest(l: SharedLayout, header: Usize, shapes: Shapes)
    requires Sound(l, header, shapes)
    ensures IdealLayout(header, shapes, l.capacities).total <= l.total
  {
    var c := l.capacities;
    var i := IdealLayout(header, shapes, c);
    PlaceIsLeast(header, shapes.decision, l.decisions);
    EndGrows(i.decisions, l.decisions, c.decisions, shapes.decision);
    PlaceIsLeast(End(i.decisions, c.decisions, shapes.decision), shapes.profile, l.profiles);
    EndGrows(i.profiles, l.profiles, c.profiles, shapes.profile);
    PlaceIsLeast(End(i.profiles, c.profiles, shapes.profile), shapes.bucket, l.buckets);
    EndGrows(i.buckets, l.buckets, c.buckets, shapes.bucket);
    PlaceIsLeast(End(i.buckets, c.buckets, shapes.bucket), shapes.name, l.names);
    EndGrows(i.names, l.names, c.names, shapes.name);
  }

  // ----- The machine layout -----

  // The masked form is the arithmetic one, and it fails exactly when the place does not fit a word.
  method AlignUp(end: Usize, shape: Shape) returns (r: Result<Usize, LayoutError>)
    requires shape.log < 64
    ensures r == if Place(end, shape) <= USIZE_MAX then Ok(Place(end, shape)) else Err(Overflow)
  {
    Pow2Is64();
    Pow2Divides(shape.log, 64);
    RoundsUpBySum(end, shape.Alignment());
    OverflowIsExact(end, shape.Alignment());
    Pow2Sum(shape.log, 64);

    var mask := shape.Alignment() - 1;
    var adjusted :- CheckedAdd(end, mask);
    AndHighBits(adjusted, shape.log, 64);
    r := Ok(And(adjusted, Not(mask)));
  }

  // The layout is the tightest sound one, and fails only when no sound layout of these capacities
  // fits a machine word.
  method ComputeLayout(header: Usize, shapes: Shapes, c: Capacities) returns (r: Result<SharedLayout, LayoutError>)
    requires shapes.Valid()
    ensures r.Ok? <==> IdealLayout(header, shapes, c).total <= USIZE_MAX
    ensures r.Ok? ==> r.value == IdealLayout(header, shapes, c)
  {
    ghost var ideal := IdealLayout(header, shapes, c);
    var offset := header;
    offset :- AlignUp(offset, shapes.decision);
    var decisions := offset;
    assert decisions == ideal.decisions;
    var bytes :- CheckedMul(c.decisions, shapes.decision.size);
    offset :- CheckedAdd(offset, bytes);
    assert offset == End(decisions, c.decisions, shapes.decision);

    offset :- AlignUp(offset, shapes.profile);
    var profiles := offset;
    assert profiles == ideal.profiles;
    bytes :- CheckedMul(c.profiles, shapes.profile.size);
    offset :- CheckedAdd(offset, bytes);
    assert offset == End(profiles, c.profiles, shapes.profile);

    offset :- AlignUp(offset, shapes.bucket);
    var buckets := offset;
    assert buckets == ideal.buckets;
    bytes :- CheckedMul(c.buckets, shapes.bucket.size);
    offset :- CheckedAdd(offset, bytes);
    assert offset == End(buckets, c.buckets, shapes.bucket);

    offset :- AlignUp(offset, shapes.name);
    var names := offset;
    assert names == ideal.names;
    bytes :- CheckedMul(c.names, shapes.name.size);
    offset :- CheckedAdd(offset, bytes);
    assert offset == End(names, c.names, shapes.name);

    r := Ok(SharedLayout(offset, decisions, profiles, buckets, names, c));
  }

  // What the caller gets: a layout exactly when some sound one fits a word, and then a sound one.
  lemma LayoutIsExact(header: Usize, shapes: Shapes, c: Capacities)
    requires shapes.Valid()
    ensures var ideal := IdealLayout(header, shapes, c);
      && Sound(ideal, header, shapes)
      && (ideal.total <= USIZE_MAX
          <==> exists l: SharedLayout :: l.capacities == c && Sound(l, header, shapes) && l.total <= USIZE_MAX)
  {
    var ideal := IdealLayout(header, shapes, c);
    IdealIsSound(header, shapes, c);
    forall l: SharedLayout | l.capacities == c && Sound(l, header, shapes)
      ensures ideal.total <= l.total
    {
      IdealIsTightest(l, header, shapes);
    }
  }
}
