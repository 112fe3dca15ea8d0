// How a scope's value is kept in a fixed buffer of 256 bytes (src/shmem/records.rs:377-452).
// Strings are sequences of bytes, well formed as in RFC 3629, sections 3 and 4.
module ScopeNames {
  import opened Numbers
  import opened RecentDecisions
  import opened Scopes
  import opened Wrappers

  const SCOPE_NAME_VALUE_BYTES: nat := 256

  // ----- UTF-8 -----

  predicate Continuation(b: Byte) {
    0x80 <= b <= 0xBF
  }

  // The length of the character the bytes begin with, zero when they begin with none.
  function CharLength(s: seq<Byte>): (n: nat)
    ensures n <= 4 && n <= |s|
    ensures n > 0 ==> !Continuation(s[0])
    ensures forall i :: 1 <= i < n ==> Continuation(s[i])
  {
    if |s| >= 1 && s[0] <= 0x7F then 1
    else if |s| >= 2 && 0xC2 <= s[0] <= 0xDF && Continuation(s[1]) then 2
    else if |s| >= 3 && Continuation(s[1]) && Continuation(s[2])
      && (|| (s[0] == 0xE0 && 0xA0 <= s[1]) || 0xE1 <= s[0] <= 0xEC
          || (s[0] == 0xED && s[1] <= 0x9F) || 0xEE <= s[0] <= 0xEF)
    then 3
    else if |s| >= 4 && Continuation(s[1]) && Continuation(s[2]) && Continuation(s[3])
      && ((s[0] == 0xF0 && 0x90 <= s[1]) || 0xF1 <= s[0] <= 0xF3 || (s[0] == 0xF4 && s[1] <= 0x8F))
    then 4
    else 0
  }

  predicate WellFormed(s: seq<Byte>) {
    s == [] || (CharLength(s) > 0 && WellFormed(s[CharLength(s)..]))
  }

  type Utf8 = s: seq<Byte> | WellFormed(s) witness []

  // `str::is_char_boundary`: looks at one byte only.
  predicate IsCharBoundary(s: seq<Byte>, i: nat) {
    i == 0 || i == |s| || (i < |s| && !Continuation(s[i]))
  }

  // A character read from a prefix is the one read from the whole.
  lemma CharOfPrefix(s: seq<Byte>, i: nat)
    requires i <= |s| && 0 < CharLength(s)
    ensures CharLength(s[..i]) == if CharLength(s) <= i then CharLength(s) else 0
  {
  }

  // On well-formed text the one-byte test finds exactly the places where whole characters end.
  lemma {:induction false} BoundaryIsWholePrefix(s: Utf8, i: nat)
    requires i <= |s|
    ensures IsCharBoundary(s, i) <==> WellFormed(s[..i])
    decreases |s|
  {
    if i == 0 {
      assert s[..0] == [];
    } else {
      var n := CharLength(s);
      CharOfPrefix(s, i);
      if n <= i {
        var rest: Utf8 := s[n..];
        BoundaryIsWholePrefix(rest, i - n);
        assert s[..i][n..] == rest[..i - n];
        assert i < |s| ==> s[i] == rest[i - n];
        RestStartsCharacter(s);
      }
    }
  }

  lemma RestStartsCharacter(s: Utf8)
    requires s != []
    ensures CharLength(s) < |s| ==> !Continuation(s[CharLength(s)])
  {
    var n := CharLength(s);
    if n < |s| {
      var rest: Utf8 := s[n..];
      assert rest[0] == s[n] && rest != [] && WellFormed(rest);
    }
  }

  // No character is longer than four bytes, so a boundary is never more than three bytes away.
  lemma {:induction false} BoundaryNearby(s: Utf8, i: nat)
    requires 3 <= i <= |s|
    ensures exists j :: i - 3 <= j <= i && IsCharBoundary(s, j)
    decreases |s|
  {
    var n := CharLength(s);
    RestStartsCharacter(s);
    if n > i {
      assert IsCharBoundary(s, 0);
    } else if i - 3 <= n {
      assert IsCharBoundary(s, n);
    } else {
      var rest: Utf8 := s[n..];
      BoundaryNearby(rest, i - n);
      var j :| i - n - 3 <= j <= i - n && IsCharBoundary(rest, j);
      assert j < |rest| ==> s[n + j] == rest[j];
      assert IsCharBoundary(s, n + j);
    }
  }

  // ----- Truncation -----

  // The longest prefix made of whole characters that fits the limit.
  ghost predicate LongestPrefix(s: seq<Byte>, limit: nat, kept: seq<Byte>) {
    && kept <= s
    && |kept| <= limit
    && WellFormed(kept)
    && forall j :: |kept| < j <= limit && j <= |s| ==> !WellFormed(s[..j])
  }

  lemma LongestPrefixIsUnique(s: seq<Byte>, limit: nat, k1: seq<Byte>, k2: seq<Byte>)
    requires LongestPrefix(s, limit, k1) && LongestPrefix(s, limit, k2)
    ensures k1 == k2
  {
    assert k1 == s[..|k1|] && k2 == s[..|k2|];
  }

  method TruncateUtf8(value: Utf8, maxBytes: nat) returns (kept: Utf8)
    ensures LongestPrefix(value, maxBytes, kept)
    ensures kept == value || maxBytes < |kept| + 4
  {
    if |value| <= maxBytes {
      return value;
    }
    var end := maxBytes;
    while !IsCharBoundary(value, end)
      invariant 0 <= end <= maxBytes
      invariant forall j :: end < j <= maxBytes ==> !IsCharBoundary(value, j)
      decreases end
    {
      end := end - 1;
    }
    forall j | 0 <= j <= maxBytes ensures IsCharBoundary(value, j) <==> WellFormed(value[..j]) {
      BoundaryIsWholePrefix(value, j);
    }
    if maxBytes >= 3 {
      BoundaryNearby(value, maxBytes);
    }
    kept := value[..end];
  }

  // ----- The stored record -----

  type U16 = x: int | 0 <= x <= 0xFFFF witness 0

  type ValueBytes = s: seq<Byte> | |s| == SCOPE_NAME_VALUE_BYTES witness seq(SCOPE_NAME_VALUE_BYTES, _ => 0)

  datatype StoredName = StoredName(
    occupied: Byte, scopeKind: Byte, valueLen: U16, scopeHash: ScopeHash, firstSeen: EpochMillis,
    lastSeen: EpochMillis, seenCount: U64, bytes: ValueBytes)

  datatype Snapshot = Snapshot(
    scopeKind: ScopeKind, scopeHash: ScopeHash, value: seq<Byte>, firstSeen: EpochMillis,
    lastSeen: EpochMillis, seenCount: U64)

  datatype NameError = InvalidFlag | InvalidLength | InvalidUtf8 | InvalidKind

  function DecodeName(stored: StoredName): Result<Snapshot, NameError> {
    if stored.occupied != 1 then Err(InvalidFlag)
    else if stored.valueLen > SCOPE_NAME_VALUE_BYTES then Err(InvalidLength)
    else if !WellFormed(stored.bytes[..stored.valueLen]) then Err(InvalidUtf8)
    else match DecodeScopeKind(stored.scopeKind)
      case Err(_) => Err(InvalidKind)
      case Ok(kind) =>
        Ok(Snapshot(kind, stored.scopeHash, stored.bytes[..stored.valueLen], stored.firstSeen, stored.lastSeen,
                    stored.seenCount))
  }

  // A stored name decodes exactly when its slot is used, its length fits, its bytes are well formed and
  // its kind is known.
  lemma NameDecodesIff(stored: StoredName)
    ensures DecodeName(stored).Ok? <==>
      && stored.occupied == 1 && stored.valueLen <= 256
      && WellFormed(stored.bytes[..stored.valueLen]) && 1 <= stored.scopeKind <= 5
    ensures DecodeName(stored).Ok? ==>
      var n := DecodeName(stored).value;
      && EncodeScopeKind(n.scopeKind) == stored.scopeKind && n.value == stored.bytes[..stored.valueLen]
      && (n.scopeHash, n.firstSeen, n.lastSeen, n.seenCount)
         == (stored.scopeHash, stored.firstSeen, stored.lastSeen, stored.seenCount)
  {
  }

  // Whatever well-formed value goes in, decoding succeeds and gives its longest prefix that fits: all
  // of it up to 256 bytes, and otherwise at least 253 bytes.
  method EncodeValue(kind: ScopeKind, hash: ScopeHash, value: Utf8, firstSeen: EpochMillis, lastSeen: EpochMillis,
                     seenCount: U64) returns (stored: StoredName)
    ensures stored.valueLen <= SCOPE_NAME_VALUE_BYTES
    ensures forall i :: stored.valueLen <= i < SCOPE_NAME_VALUE_BYTES ==> stored.bytes[i] == 0
    ensures DecodeName(stored).Ok?
    ensures var s := DecodeName(stored).value;
      && s == Snapshot(kind, hash, s.value, firstSeen, lastSeen, seenCount)
      && LongestPrefix(value, SCOPE_NAME_VALUE_BYTES, s.value)
      && (|value| <= 256 ==> s.value == value)
      && (|value| > 256 ==> 253 <= |s.value|)
  {
    var buffer := new Byte[SCOPE_NAME_VALUE_BYTES](_ => 0);
    var truncated := TruncateUtf8(value, SCOPE_NAME_VALUE_BYTES);
    forall i | 0 <= i < |truncated| {
      buffer[i] := truncated[i];
    }
    stored := StoredName(1, EncodeScopeKind(kind), |truncated|, hash, firstSeen, lastSeen, seenCount, buffer[..]);
    assert stored.bytes[..stored.valueLen] == truncated;
    if |value| <= 256 {
      LongestPrefixIsUnique(value, 256, value, truncated) by {
        assert value[..|value|] == value;
      }
    }
  }
}
