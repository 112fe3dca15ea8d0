// The scope hash: 64-bit FNV-1a over a kind tag, a colon and the value (src/scope.rs:241-264;
// FNV-1a as in section 2 of draft-eastlake-fnv).
module ScopeHash {
  import opened Numbers
  import opened Bits
  import opened Scopes

  const FNV_OFFSET_BASIS: U64 := 0xcbf2_9ce4_8422_2325
  const FNV_PRIME: U64 := 0x0000_0100_0000_01b3
  // The inverse of the prime modulo 2^64.
  const FNV_PRIME_INVERSE: U64 := 0xce96_5057_aff6_957b

  function WrappingMul(a: U64, b: U64): U64 {
    a * b % TWO_64
  }

  function XorByte(h: U64, b: Byte): U64 {
    XorFits64(h, b);
    Xor(h, b)
  }

  // One turn of the hash loop.
  function HashStep(h: U64, b: Byte): U64 {
    WrappingMul(XorByte(h, b), FNV_PRIME)
  }

  // The state a turn with byte b started from.
  function UndoStep(g: U64, b: Byte): U64 {
    XorByte(WrappingMul(g, FNV_PRIME_INVERSE), b)
  }

  function HashUpdate(h: U64, bytes: seq<Byte>): U64 {
    if bytes == [] then h else HashStep(HashUpdate(h, bytes[..|bytes| - 1]), bytes[|bytes| - 1])
  }

  function KindTag(kind: ScopeKind): Byte {
    match kind
    case Database => 'd' as int
    case Role => 'r' as int
    case Application => 'a' as int
    case Tenant => 't' as int
    case Composite => 'c' as int
  }

  function HashOf(kind: ScopeKind, value: seq<Byte>): U64 {
    HashUpdate(HashUpdate(HashUpdate(FNV_OFFSET_BASIS, [KindTag(kind)]), [':' as int]), value)
  }

  method Fnv1aUpdate(start: U64, bytes: seq<Byte>) returns (hash: U64)
    ensures hash == HashUpdate(start, bytes)
  {
    hash := start;
    for i := 0 to |bytes|
      invariant hash == HashUpdate(start, bytes[..i])
    {
      assert bytes[..i + 1][..i] == bytes[..i];
      hash := XorByte(hash, bytes[i]);
      hash := WrappingMul(hash, FNV_PRIME);
    }
    assert bytes[..|bytes|] == bytes;
  }

  method HashScopeValue(kind: ScopeKind, value: seq<Byte>) returns (hash: U64)
    ensures hash == HashOf(kind, value)
  {
    hash := FNV_OFFSET_BASIS;
    hash := Fnv1aUpdate(hash, [KindTag(kind)]);
    hash := Fnv1aUpdate(hash, [':' as int]);
    hash := Fnv1aUpdate(hash, value);
  }

  // ----- Every turn is a bijection -----

  lemma XorFits64(h: U64, b: Byte)
    ensures Xor(h, b) < TWO_64
  {
    Pow2Is64();
    XorFits(h, b, 64);
  }

  lemma MulInverse(x: nat, p: nat, q: nat, m: nat, c: nat)
    requires m > 0 && x < m && p * q == m * c + 1
    ensures (x * p % m) * q % m == x
  {
    var a, r := x * p / m, x * p % m;
    var t := x * c - a * q;
    assert x * p == m * a + r;
    assert r * q == (x * p - m * a) * q == x * (p * q) - m * (a * q);
    assert x * (p * q) == x * (m * c + 1) == m * (x * c) + x;
    assert r * q == m * t + x;
    MulMonoRight(r, 0, q);
    if t < 0 {
      MulMonoRight(m, t, -1);
      assert false;
    }
    RemainderUnique(r * q, m, t, x);
  }

  lemma MulRoundTrips(x: U64)
    ensures WrappingMul(WrappingMul(x, FNV_PRIME), FNV_PRIME_INVERSE) == x
    ensures WrappingMul(WrappingMul(x, FNV_PRIME_INVERSE), FNV_PRIME) == x
  {
    assert FNV_PRIME * FNV_PRIME_INVERSE == TWO_64 * QUOTIENT + 1;
    MulInverse(x, FNV_PRIME, FNV_PRIME_INVERSE, TWO_64, QUOTIENT);
    MulInverse(x, FNV_PRIME_INVERSE, FNV_PRIME, TWO_64, QUOTIENT);
  }

  const QUOTIENT: nat := 887_285_111_055

  // For a fixed byte a turn of the loop is a bijection on 64-bit states.
  lemma StepIsBijection(h: U64, b: Byte)
    ensures UndoStep(HashStep(h, b), b) == h
    ensures HashStep(UndoStep(h, b), b) == h
  {
    MulRoundTrips(XorByte(h, b));
    MulRoundTrips(h);
    XorCancels(h, b);
    XorCancels(WrappingMul(h, FNV_PRIME_INVERSE), b);
  }

  lemma {:induction false} UpdateKeepsApart(g: U64, h: U64, bytes: seq<Byte>)
    requires g != h
    ensures HashUpdate(g, bytes) != HashUpdate(h, bytes)
  {
    if bytes != [] {
      var n := |bytes| - 1;
      UpdateKeepsApart(g, h, bytes[..n]);
      StepIsBijection(HashUpdate(g, bytes[..n]), bytes[n]);
      StepIsBijection(HashUpdate(h, bytes[..n]), bytes[n]);
    }
  }

  lemma BytesKeepApart(h: U64, a: Byte, b: Byte)
    requires a != b
    ensures HashStep(h, a) != HashStep(h, b)
  {
    MulRoundTrips(XorByte(h, a));
    MulRoundTrips(XorByte(h, b));
    XorCommutes(h, a);
    XorCommutes(h, b);
    XorCancels(a, h);
    XorCancels(b, h);
  }

  lemma OneByte(h: U64, a: Byte)
    ensures HashUpdate(h, [a]) == HashStep(h, a)
  {
    assert [a][..0] == [];
    assert HashUpdate(h, []) == h;
  }

  lemma FirstByteKeepsApart(h: U64, a: Byte, b: Byte, separator: seq<Byte>, value: seq<Byte>)
    requires a != b
    ensures HashUpdate(HashUpdate(HashUpdate(h, [a]), separator), value)
         != HashUpdate(HashUpdate(HashUpdate(h, [b]), separator), value)
  {
    OneByte(h, a);
    OneByte(h, b);
    BytesKeepApart(h, a, b);
    UpdateKeepsApart(HashUpdate(h, [a]), HashUpdate(h, [b]), separator);
    UpdateKeepsApart(HashUpdate(HashUpdate(h, [a]), separator), HashUpdate(HashUpdate(h, [b]), separator), value);
  }

  lemma TagsDiffer(k1: ScopeKind, k2: ScopeKind)
    requires k1 != k2
    ensures KindTag(k1) != KindTag(k2)
  {
  }

  // ----- A known hash -----

  lemma XorDoubled(y: nat, r: nat, b: nat)
    requires Xor(y + r / 2, b / 2) == y + Xor(r / 2, b / 2)
    ensures Xor(2 * y + r, b) == 2 * y + Xor(r, b)
  {
    assert (2 * y + r) / 2 == y + r / 2 && (2 * y + r) % 2 == r % 2;
    XorStep(2 * y + r, b);
    XorStep(r, b);
  }

  lemma {:induction false} XorZero(q: nat)
    ensures Xor(q, 0) == q
  {
    if q != 0 {
      XorZero(q / 2);
    }
  }

  // q moved up by k bits.
  function Shifted(q: nat, k: nat): nat {
    if k == 0 then q else 2 * Shifted(q, k - 1)
  }

  // Low bits are combined with low bits only.
  lemma {:induction false} XorLowBits(q: nat, r: nat, b: nat, k: nat)
    requires r < Pow2(k) && b < Pow2(k)
    ensures Xor(Shifted(q, k) + r, b) == Shifted(q, k) + Xor(r, b)
  {
    if k == 0 {
      XorZero(q);
    } else {
      XorLowBits(q, r / 2, b / 2, k - 1);
      XorDoubled(Shifted(q, k - 1), r, b);
    }
  }

  lemma ShiftedByte(q: nat)
    ensures Shifted(q, 8) == 256 * q
  {
    assert Shifted(q, 1) == 2 * q;
    assert Shifted(q, 3) == 8 * q;
    assert Shifted(q, 5) == 32 * q;
    assert Shifted(q, 7) == 128 * q;
  }

  lemma BasisXorA()
    ensures Xor(FNV_OFFSET_BASIS, 'a' as int) == 0xcbf2_9ce4_8422_2344
  {
    var q: nat := 0xcbf2_9ce4_8422_23;
    ShiftedByte(q);
    assert Pow2(4) == 16 && Pow2(8) == 16 * Pow2(4);
    XorLowBits(q, 0x25, 0x61, 8);
    XorSmall();
  }

  lemma OneTurnIs(h: U64, b: Byte, x: nat)
    requires Xor(h, b) == x
    ensures HashUpdate(h, [b]) == x * FNV_PRIME % TWO_64
  {
    OneByte(h, b);
  }

  lemma TimesPrime()
    ensures 0xcbf2_9ce4_8422_2344 * FNV_PRIME % TWO_64 == 0xaf63_dc4c_8601_ec8c
  {
  }

  lemma OneTurnFromBasis(h: U64, b: Byte, x: nat)
    requires Xor(h, b) == x && x == 0xcbf2_9ce4_8422_2344
    ensures HashUpdate(h, [b]) == 0xaf63_dc4c_8601_ec8c
  {
    TimesPrime();
    OneTurnIs(h, b, x);
  }

  // The published hash of the one-letter text "a".
  lemma HashOfLetterA()
    ensures HashUpdate(FNV_OFFSET_BASIS, ['a' as int]) == 0xaf63_dc4c_8601_ec8c
  {
    BasisXorA();
    OneTurnFromBasis(FNV_OFFSET_BASIS, 'a' as int, 0xcbf2_9ce4_8422_2344);
  }

  lemma XorSmall()
    ensures Xor(0x25, 0x61) == 0x44
  {
    assert Xor(0, 1) == 1;
    assert Xor(1, 3) == 2;
    assert Xor(2, 6) == 4;
    assert Xor(4, 12) == 8;
    assert Xor(9, 24) == 17;
    assert Xor(18, 48) == 34;
    assert Xor(0x25, 0x61) == 2 * Xor(18, 48);
  }

  // The same value under two kinds never collides.
  lemma KindsNeverCollide(k1: ScopeKind, k2: ScopeKind, value: seq<Byte>)
    requires k1 != k2
    ensures HashOf(k1, value) != HashOf(k2, value)
  {
    TagsDiffer(k1, k2);
    FirstByteKeepsApart(FNV_OFFSET_BASIS, KindTag(k1), KindTag(k2), [':' as int], value);
  }

  lemma {:induction false} UpdateConcat(h: U64, a: seq<Byte>, b: seq<Byte>)
    ensures HashUpdate(h, a + b) == HashUpdate(HashUpdate(h, a), b)
  {
    if b == [] {
      assert a + b == a;
    } else {
      UpdateConcat(h, a, b[..|b| - 1]);
      assert (a + b)[..|a + b| - 1] == a + b[..|b| - 1];
    }
  }

  // Two values that differ in one byte never collide under one kind.
  lemma OneByteNeverCollides(kind: ScopeKind, before: seq<Byte>, x: Byte, y: Byte, after: seq<Byte>)
    requires x != y
    ensures HashOf(kind, before + [x] + after) != HashOf(kind, before + [y] + after)
  {
    var start := HashUpdate(HashUpdate(FNV_OFFSET_BASIS, [KindTag(kind)]), [':' as int]);
    UpdateConcat(start, before + [x], after);
    UpdateConcat(start, before + [y], after);
    var h := HashUpdate(start, before);
    assert (before + [x])[..|before|] == before && (before + [y])[..|before|] == before;
    BytesKeepApart(h, x, y);
    UpdateKeepsApart(HashStep(h, x), HashStep(h, y), after);
  }
}
