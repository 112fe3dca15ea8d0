// The durable profile table and its decimal text (src/catalog.rs), and the way of a cache through a
// flush, a restart and a restore (src/shmem/profiles.rs:71-79 and 104-113).
module Catalog {
  import opened Numbers
  import opened Wrappers
  import opened Profiles
  import opened ProfileCache
  import opened ProfileRestore

  // ----- Decimal text -----

  function DigitChar(d: nat): char
    requires d < 10
  {
    '0' + d as char
  }

  function ToDecimal(n: nat): string {
    if n < 10 then [DigitChar(n)] else ToDecimal(n / 10) + [DigitChar(n % 10)]
  }

  // The value of a string of digits, none if some character is not one.
  function DigitsValue(s: string): Option<nat> {
    if s == [] then Some(0)
    else
      var front, c := DigitsValue(s[..|s| - 1]), s[|s| - 1];
      if front.None? || !('0' <= c <= '9') then None
      else Some(front.value * 10 + (c as int - '0' as int))
  }

  // Rust's `parse::<u64>`: an optional plus sign, at least one digit, no overflow.
  function ParseU64(s: string): Option<U64> {
    var digits := if s != [] && s[0] == '+' then s[1..] else s;
    var value := DigitsValue(digits);
    if digits == [] || value.None? || value.value > U64_MAX then None else Some(value.value)
  }

  lemma {:induction false} DigitsOfDecimal(n: nat)
    ensures DigitsValue(ToDecimal(n)) == Some(n)
    ensures ToDecimal(n) != [] && ToDecimal(n)[0] != '+'
  {
    if n < 10 {
      assert ToDecimal(n)[..0] == [];
    } else {
      DigitsOfDecimal(n / 10);
      var s := ToDecimal(n);
      assert s[..|s| - 1] == ToDecimal(n / 10);
    }
  }

  lemma DecimalRoundTrip(n: U64)
    ensures ParseU64(ToDecimal(n)) == Some(n)
  {
    DigitsOfDecimal(n);
  }

  function Zeros(z: nat): string {
    seq(z, _ => '0')
  }

  lemma {:induction false} LeadingZeros(z: nat, t: string)
    ensures DigitsValue(Zeros(z) + t) == DigitsValue(t)
    decreases z + |t|
  {
    if t == [] {
      assert Zeros(z) + t == Zeros(z);
      if z > 0 {
        assert Zeros(z)[..z - 1] == Zeros(z - 1);
        LeadingZeros(z - 1, []);
        assert Zeros(z - 1) + [] == Zeros(z - 1);
      }
    } else {
      LeadingZeros(z, t[..|t| - 1]);
      assert (Zeros(z) + t)[..z + |t| - 1] == Zeros(z) + t[..|t| - 1];
    }
  }

  // A string of digits is the decimal text of its value behind some zeros.
  lemma {:induction false} DigitsAreDecimal(t: string) returns (z: nat)
    requires t != [] && DigitsValue(t).Some?
    ensures t == Zeros(z) + ToDecimal(DigitsValue(t).value)
  {
    var front, c := t[..|t| - 1], t[|t| - 1];
    assert t == front + [c];
    if front == [] {
      z := 0;
      assert t == [c];
    } else {
      z := DigitsAreDecimal(front);
      if DigitsValue(front).value == 0 {
        assert Zeros(z) + ['0'] == Zeros(z + 1);
        z := z + 1;
      }
    }
  }

  function Signed(plus: bool, t: string): string {
    if plus then "+" + t else t
  }

  // Exactly these texts parse to n: its decimal text, after any zeros, after an optional plus sign.
  lemma ParsesIff(s: string, n: U64)
    ensures ParseU64(s) == Some(n) <==> exists plus, z: nat :: s == Signed(plus, Zeros(z) + ToDecimal(n))
  {
    if ParseU64(s) == Some(n) {
      var plus := s[0] == '+';
      var z := DigitsAreDecimal(if plus then s[1..] else s);
      assert s == Signed(plus, Zeros(z) + ToDecimal(n));
    }
    if exists plus, z: nat :: s == Signed(plus, Zeros(z) + ToDecimal(n)) {
      var plus, z: nat :| s == Signed(plus, Zeros(z) + ToDecimal(n));
      var t := Zeros(z) + ToDecimal(n);
      DigitsOfDecimal(n);
      LeadingZeros(z, ToDecimal(n));
      assert t[0] != '+';
      if plus {
        assert s[1..] == t;
      }
    }
  }

  function Pow10(k: nat): nat {
    if k == 0 then 1 else 10 * Pow10(k - 1)
  }

  lemma {:induction false} DecimalLength(n: nat, k: nat)
    requires k > 0 && n < Pow10(k)
    ensures |ToDecimal(n)| <= k
  {
    if n >= 10 {
      DecimalLength(n / 10, k - 1);
    }
  }

  // Every 64-bit value fits the table's numeric(20, 0) columns.
  lemma DecimalFitsColumn(n: U64)
    ensures |ToDecimal(n)| <= 20
  {
    assert Pow10(5) == 100_000;
    assert Pow10(10) == 100_000 * Pow10(5);
    assert Pow10(15) == 100_000 * Pow10(10);
    assert Pow10(20) == 100_000 * Pow10(15);
    DecimalLength(n, 20);
  }

  // ----- Rows -----

  datatype SqlRow = SqlRow(
    scope: Option<string>, query: string, calls: string, ewma: string, maxWal: string, lastSeen: string)

  datatype RawRow = RawRow(
    scope: Option<string>, query: Option<string>, calls: Option<string>, ewma: Option<string>,
    maxWal: Option<string>, lastSeen: Option<string>)

  datatype RowError = MissingField | NotU64

  function FromSnapshot(e: Entry): SqlRow {
    SqlRow(if e.key.scope.None? then None else Some(ToDecimal(e.key.scope.value)), ToDecimal(e.key.query),
           ToDecimal(e.profile.calls), ToDecimal(e.profile.ewma), ToDecimal(e.profile.maxWal),
           ToDecimal(e.profile.lastSeen))
  }

  // A row as it is read back: every column may be null.
  function ReadBack(r: SqlRow): RawRow {
    RawRow(r.scope, Some(r.query), Some(r.calls), Some(r.ewma), Some(r.maxWal), Some(r.lastSeen))
  }

  function RequiredU64(field: Option<string>): Result<U64, RowError> {
    if field.None? then Err(MissingField)
    else if ParseU64(field.value).None? then Err(NotU64)
    else Ok(ParseU64(field.value).value)
  }

  function DecodeProfile(r: RawRow): Result<Entry, RowError> {
    var scope :- if r.scope.None? then Ok(None)
                 else if ParseU64(r.scope.value).None? then Err(NotU64)
                 else Ok(Some(ParseU64(r.scope.value).value));
    var query :- RequiredU64(r.query);
    var calls :- RequiredU64(r.calls);
    var ewma :- RequiredU64(r.ewma);
    var maxWal :- RequiredU64(r.maxWal);
    var lastSeen :- RequiredU64(r.lastSeen);
    Ok(Entry(ProfileKey(scope, query), QueryWalProfile(calls, ewma, maxWal, lastSeen)))
  }

  lemma RowRoundTrip(e: Entry)
    ensures DecodeProfile(ReadBack(FromSnapshot(e))) == Ok(e)
  {
    if e.key.scope.Some? {
      DecimalRoundTrip(e.key.scope.value);
    }
    DecimalRoundTrip(e.key.query);
    DecimalRoundTrip(e.profile.calls);
    DecimalRoundTrip(e.profile.ewma);
    DecimalRoundTrip(e.profile.maxWal);
    DecimalRoundTrip(e.profile.lastSeen);
  }

  predicate Parses(field: Option<string>) {
    field.Some? && ParseU64(field.value).Some?
  }

  // A row decodes exactly when every required column is there and is a 64-bit number, and so is the scope
  // unless it is null, which means the global profile.
  lemma RowDecodesIff(r: RawRow)
    ensures DecodeProfile(r).Ok? <==>
      && (r.scope.None? || Parses(r.scope)) && Parses(r.query) && Parses(r.calls) && Parses(r.ewma)
      && Parses(r.maxWal) && Parses(r.lastSeen)
    ensures DecodeProfile(r).Ok? ==>
      var (k, p) := (DecodeProfile(r).value.key, DecodeProfile(r).value.profile);
      && k.scope == (if r.scope.None? then None else ParseU64(r.scope.value))
      && Some(k.query) == ParseU64(r.query.value) && Some(p.calls) == ParseU64(r.calls.value)
      && Some(p.ewma) == ParseU64(r.ewma.value) && Some(p.maxWal) == ParseU64(r.maxWal.value)
      && Some(p.lastSeen) == ParseU64(r.lastSeen.value)
  {
  }

  function ToRows(entries: seq<Entry>): seq<RawRow> {
    seq(|entries|, i requires 0 <= i < |entries| => ReadBack(FromSnapshot(entries[i])))
  }

  function DecodeAll(rows: seq<RawRow>): Result<seq<Entry>, RowError> {
    if rows == [] then Ok([])
    else
      var front :- DecodeAll(rows[..|rows| - 1]);
      var last :- DecodeProfile(rows[|rows| - 1]);
      Ok(front + [last])
  }

  lemma {:induction false} RowsRoundTrip(entries: seq<Entry>)
    ensures DecodeAll(ToRows(entries)) == Ok(entries)
  {
    if entries != [] {
      var n := |entries| - 1;
      RowsRoundTrip(entries[..n]);
      assert ToRows(entries)[..n] == ToRows(entries[..n]);
      RowRoundTrip(entries[n]);
      assert entries == entries[..n] + [entries[n]];
    }
  }

  // ----- The store -----

  // Insert, or update the row of the same key.
  function StoreOne(stored: seq<Entry>, e: Entry): seq<Entry> {
    var slot := FindSlot(stored, e.key);
    Put(stored, if slot.Some? then slot.value else |stored|, e)
  }

  function StoreAll(stored: seq<Entry>, entries: seq<Entry>): seq<Entry> {
    if entries == [] then stored
    else StoreOne(StoreAll(stored, entries[..|entries| - 1]), entries[|entries| - 1])
  }

  // Newest first, then by query, then by scope with the global profile first.
  predicate Before(a: Entry, b: Entry) {
    || a.profile.lastSeen > b.profile.lastSeen
    || (a.profile.lastSeen == b.profile.lastSeen
        && (|| a.key.query < b.key.query
            || (a.key.query == b.key.query && b.key.scope.Some?
                && (a.key.scope.None? || a.key.scope.value < b.key.scope.value))))
  }

  function Insert(s: seq<Entry>, e: Entry): seq<Entry> {
    if s == [] || !Before(e, s[|s| - 1]) then s + [e]
    else Insert(s[..|s| - 1], e) + [s[|s| - 1]]
  }

  function SortRows(s: seq<Entry>): seq<Entry> {
    if s == [] then [] else Insert(SortRows(s[..|s| - 1]), s[|s| - 1])
  }

  function LoadProfiles(stored: seq<Entry>, limit: nat): seq<Entry> {
    SortRows(stored)[..Min(|SortRows(stored)|, limit)]
  }

  ghost predicate Sorted(s: seq<Entry>) {
    forall i, j :: 0 <= i < j < |s| ==> !Before(s[j], s[i])
  }

  lemma {:induction false} InsertAdds(s: seq<Entry>, e: Entry)
    ensures |Insert(s, e)| == |s| + 1
    ensures multiset(Insert(s, e)) == multiset(s) + multiset{e}
    ensures forall x :: x in Insert(s, e) ==> x == e || x in s
  {
    if s != [] && Before(e, s[|s| - 1]) {
      InsertAdds(s[..|s| - 1], e);
      assert s == s[..|s| - 1] + [s[|s| - 1]];
    }
  }

  lemma {:induction false} InsertSorts(s: seq<Entry>, e: Entry)
    requires Sorted(s)
    ensures Sorted(Insert(s, e))
  {
    if s != [] && Before(e, s[|s| - 1]) {
      var front, last := s[..|s| - 1], s[|s| - 1];
      InsertSorts(front, e);
      InsertAdds(front, e);
      var placed := Insert(front, e);
      forall i | 0 <= i < |placed| ensures !Before(last, placed[i]) {
        assert placed[i] in placed;
        if placed[i] != e {
          assert placed[i] in front;
        }
      }
    } else if s != [] {
      var last := s[|s| - 1];
      forall i | 0 <= i < |s| ensures !Before(e, s[i]) {
        assert s[i] == last || !Before(last, s[i]);
      }
    }
  }

  lemma {:induction false} SortIsSorted(s: seq<Entry>)
    ensures Sorted(SortRows(s)) && |SortRows(s)| == |s| && multiset(SortRows(s)) == multiset(s)
  {
    if s != [] {
      var n := |s| - 1;
      SortIsSorted(s[..n]);
      InsertSorts(SortRows(s[..n]), s[n]);
      InsertAdds(SortRows(s[..n]), s[n]);
      assert s == s[..n] + [s[n]];
    }
  }

  // A limited load returns stored rows only, as many as fit, and leaves out none that is newer than
  // one it returns.
  lemma LoadTakesNewest(stored: seq<Entry>, limit: nat)
    ensures var loaded := LoadProfiles(stored, limit);
      && |loaded| == Min(|stored|, limit)
      && multiset(loaded) <= multiset(stored)
      && forall a, b :: a in multiset(stored) - multiset(loaded) && b in loaded ==>
           a.profile.lastSeen <= b.profile.lastSeen
  {
    SortIsSorted(stored);
    var all := SortRows(stored);
    var n := Min(|all|, limit);
    assert all == all[..n] + all[n..];
    assert multiset(stored) == multiset(all[..n]) + multiset(all[n..]);
    forall a, b | a in multiset(stored) - multiset(all[..n]) && b in all[..n]
      ensures a.profile.lastSeen <= b.profile.lastSeen
    {
      assert a in multiset(all[n..]);
      SplitSorted(all, n, a, b);
    }
  }

  // Loaded rows of different keys come newest first, at the same time by query, and for the same query
  // the global profile first and then by scope.
  lemma LoadIsOrdered(stored: seq<Entry>, limit: nat, i: nat, j: nat)
    requires i < j < |LoadProfiles(stored, limit)|
    ensures var (a, b) := (LoadProfiles(stored, limit)[i], LoadProfiles(stored, limit)[j]);
      || a.profile.lastSeen > b.profile.lastSeen
      || (a.profile.lastSeen == b.profile.lastSeen && a.key.query < b.key.query)
      || (a.profile.lastSeen == b.profile.lastSeen && a.key.query == b.key.query
          && (a.key.scope.None? || (b.key.scope.Some? && a.key.scope.value <= b.key.scope.value)))
  {
    SortIsSorted(stored);
    assert !Before(SortRows(stored)[j], SortRows(stored)[i]);
  }

  lemma SplitSorted(all: seq<Entry>, n: nat, a: Entry, b: Entry)
    requires Sorted(all) && n <= |all| && a in all[n..] && b in all[..n]
    ensures a.profile.lastSeen <= b.profile.lastSeen
  {
    var i :| 0 <= i < n && all[i] == b;
    var j :| n <= j < |all| && all[j] == a;
    assert !Before(all[j], all[i]);
  }

  class MemoryCatalogStore {
    var profiles: seq<Entry>
    const tablesExist: bool

    constructor (tablesExist: bool)
      ensures profiles == [] && this.tablesExist == tablesExist
    {
      profiles := [];
      this.tablesExist := tablesExist;
    }

    method Persist(entries: seq<Entry>)
      modifies this
      ensures profiles == if tablesExist then StoreAll(old(profiles), entries) else old(profiles)
    {
      if !tablesExist {
        return;
      }
      for i := 0 to |entries|
        invariant profiles == StoreAll(old(profiles), entries[..i])
      {
        assert entries[..i + 1][..i] == entries[..i];
        var slot := FindSlot(profiles, entries[i].key);
        if slot.Some? {
          profiles := profiles[slot.value := entries[i]];
        } else {
          profiles := profiles + [entries[i]];
        }
      }
      assert entries[..|entries|] == entries;
    }

    method Load(limit: nat) returns (loaded: seq<Entry>)
      ensures loaded == if tablesExist then LoadProfiles(profiles, limit) else []
    {
      if !tablesExist {
        return [];
      }
      var sorted := SortRows(profiles);
      loaded := sorted[..Min(|sorted|, limit)];
    }

    method Delete()
      modifies this
      ensures profiles == if tablesExist then [] else old(profiles)
    {
      if tablesExist {
        profiles := [];
      }
    }
  }

  // ----- Flush, restart, restore -----

  lemma SumUpdated(m: map<ProfileKey, QueryWalProfile>, n: map<ProfileKey, QueryWalProfile>, e: Entry)
    ensures m + n[e.key := e.profile] == (m + n)[e.key := e.profile]
  {
  }

  // Storing rows sets the profile of each of their keys, the last row of a key winning, and keeps every
  // other row.
  lemma {:induction false} StoreUpdatesMap(stored: seq<Entry>, entries: seq<Entry>)
    requires Unique(stored)
    ensures Unique(StoreAll(stored, entries))
    ensures View(StoreAll(stored, entries)) == View(stored) + View(entries)
  {
    if entries == [] {
      assert View(stored) + map[] == View(stored);
    } else {
      var front, e := entries[..|entries| - 1], entries[|entries| - 1];
      StoreUpdatesMap(stored, front);
      StoreOneUpdates(StoreAll(stored, front), e);
      SumUpdated(View(stored), View(front), e);
    }
  }

  lemma StoreOneUpdates(stored: seq<Entry>, e: Entry)
    requires Unique(stored)
    ensures Unique(StoreOne(stored, e))
    ensures View(StoreOne(stored, e)) == View(stored)[e.key := e.profile]
  {
    var slot := FindSlot(stored, e.key);
    PutView(stored, if slot.Some? then slot.value else |stored|, e);
    ViewHas(stored, e.key);
  }

  lemma {:induction false} StoreFresh(c: Cache)
    requires Unique(c)
    ensures StoreAll([], c) == c
  {
    if c != [] {
      var n := |c| - 1;
      StoreFresh(c[..n]);
      assert c == c[..n] + [c[n]];
    }
  }

  lemma AppendView(c: Cache, e: Entry)
    requires Unique(c) && e.key !in View(c)
    ensures Unique(c + [e]) && View(c + [e]) == View(c)[e.key := e.profile]
  {
    ViewDomain(c);
    assert (c + [e])[..|c|] == c;
  }

  lemma {:induction false} InsertView(s: seq<Entry>, e: Entry)
    requires Unique(s) && e.key !in View(s)
    ensures Unique(Insert(s, e)) && View(Insert(s, e)) == View(s)[e.key := e.profile]
  {
    if s == [] || !Before(e, s[|s| - 1]) {
      AppendView(s, e);
    } else {
      var front, last := s[..|s| - 1], s[|s| - 1];
      FrontView(s);
      InsertView(front, e);
      AppendView(Insert(front, e), last);
    }
  }

  lemma {:induction false} SortView(c: Cache)
    requires Unique(c)
    ensures Unique(SortRows(c)) && View(SortRows(c)) == View(c)
  {
    if c != [] {
      FrontView(c);
      SortView(c[..|c| - 1]);
      InsertView(SortRows(c[..|c| - 1]), c[|c| - 1]);
    }
  }

  lemma {:induction false} MergeOfUnique(s: seq<Entry>)
    requires Unique(s)
    ensures MergeNewer(map[], s) == View(s)
  {
    if s != [] {
      FrontView(s);
      MergeOfUnique(s[..|s| - 1]);
    }
  }

  // Flushing a cache into an empty table, losing shared memory, and restoring under the same capacity
  // rebuilds the same profiles under the same keys.
  lemma FlushRestartRestore(c: Cache, capacity: nat)
    requires WellFormed(c, capacity)
    ensures var flushed := DecodeAll(ToRows(c));
      flushed.Ok? &&
      var loaded := DecodeAll(ToRows(LoadProfiles(StoreAll([], flushed.value), capacity)));
      loaded.Ok? &&
      var r := RestoreAll([], capacity, loaded.value);
      r.Ok? && WellFormed(r.value, capacity) && View(r.value) == View(c)
  {
    RowsRoundTrip(c);
    StoreFresh(c);
    SortIsSorted(c);
    SortView(c);
    var rows := SortRows(c);
    assert LoadProfiles(c, capacity) == rows;
    RowsRoundTrip(rows);
    if capacity > 0 {
      KeysOfView(rows);
      assert View([]).Keys + KeysOf(rows) == KeysOf(rows);
      RestoreIsMergeWithRoom([], capacity, rows);
      MergeOfUnique(rows);
    }
  }

  lemma KeysOfView(c: Cache)
    requires Unique(c)
    ensures |KeysOf(c)| <= |c|
  {
    ViewDomain(c);
    forall k | k in KeysOf(c) ensures k in View(c) {
      var i :| 0 <= i < |c| && c[i].key == k;
      ViewAt(c, i);
    }
    SubsetSize(KeysOf(c), View(c).Keys);
  }
}
