// The text of a composite scope: its components' kinds and values, joined with delimiters
// (src/scope.rs:139-174).
module CompositeScopes {
  import opened Scopes
  import opened Wrappers

  datatype Component = Component(kind: ScopeKind, value: string)

  const DELIMITER := '|'

  function KindText(k: ScopeKind): string {
    match k
    case Database => "database"
    case Role => "role"
    case Application => "application"
    case Tenant => "tenant"
    case Composite => "composite"
  }

  function Piece(c: Component): string {
    KindText(c.kind) + "=" + c.value
  }

  function Pieces(cs: seq<Component>): seq<string> {
    seq(|cs|, i requires 0 <= i < |cs| => Piece(cs[i]))
  }

  function Joined(pieces: seq<string>): string {
    var n := |pieces| - 1;
    if pieces == [] then ""
    else if n == 0 then pieces[0]
    else Joined(pieces[..n]) + [DELIMITER] + pieces[n]
  }

  lemma JoinedStep(cs: seq<Component>, i: nat)
    requires i < |cs|
    ensures Joined(Pieces(cs[..i + 1]))
         == (if i == 0 then "" else Joined(Pieces(cs[..i])) + [DELIMITER]) + Piece(cs[i])
  {
    assert Pieces(cs[..i + 1])[..i] == Pieces(cs[..i]);
    assert Pieces(cs[..i + 1])[i] == Piece(cs[i]);
    assert "" + Piece(cs[i]) == Piece(cs[i]);
  }

  lemma PiecePushed(text: string, c: Component)
    ensures text + KindText(c.kind) + "=" + c.value == text + Piece(c) != ""
  {
  }

  // A composite needs two components. The loop tells the first component by the empty buffer.
  method CompositeScopeValue(cs: seq<Component>) returns (r: Option<string>)
    ensures r == if |cs| < 2 then None else Some(Joined(Pieces(cs)))
  {
    if |cs| < 2 {
      return None;
    }
    var value := "";
    for i := 0 to |cs|
      invariant value == Joined(Pieces(cs[..i]))
      invariant (value == "") == (i == 0)
    {
      JoinedStep(cs, i);
      ghost var next := Joined(Pieces(cs[..i + 1]));
      if value != "" {
        value := value + [DELIMITER];
      }
      assert next == value + Piece(cs[i]);
      PiecePushed(value, cs[i]);
      value := value + KindText(cs[i].kind);
      value := value + "=";
      value := value + cs[i].value;
      assert value == next;
    }
    assert cs[..|cs|] == cs;
    r := Some(value);
  }

  // ----- Reading a composite back -----

  // The stretches between delimiters.
  function Split(s: string): (pieces: seq<string>)
    ensures pieces != []
  {
    if s == "" then [""]
    else
      var front, last := Split(s[..|s| - 1]), s[|s| - 1];
      if last == DELIMITER then front + [""]
      else front[|front| - 1 := front[|front| - 1] + [last]]
  }

  function Delimiters(s: string): nat {
    if s == "" then 0 else Delimiters(s[..|s| - 1]) + if s[|s| - 1] == DELIMITER then 1 else 0
  }

  lemma {:induction false} SplitCountsDelimiters(s: string)
    ensures |Split(s)| == Delimiters(s) + 1
    ensures Delimiters(s) == 0 <==> DELIMITER !in s
  {
    if s != "" {
      var n := |s| - 1;
      SplitCountsDelimiters(s[..n]);
      assert s == s[..n] + [s[n]];
    }
  }

  lemma {:induction false} DelimitersConcat(s: string, t: string)
    ensures Delimiters(s + t) == Delimiters(s) + Delimiters(t)
  {
    if t == "" {
      assert s + t == s;
    } else {
      DelimitersConcat(s, t[..|t| - 1]);
      assert (s + t)[..|s + t| - 1] == s + t[..|t| - 1];
    }
  }

  // After a delimiter a text without one is the last piece.
  lemma {:induction false} SplitLastPiece(s: string, t: string)
    requires DELIMITER !in t
    ensures Split(s + [DELIMITER] + t) == Split(s) + [t]
  {
    var all := s + [DELIMITER] + t;
    if t == "" {
      assert all[..|all| - 1] == s;
    } else {
      var n := |t| - 1;
      SplitLastPiece(s, t[..n]);
      assert all[..|all| - 1] == s + [DELIMITER] + t[..n];
      assert t == t[..n] + [t[n]];
    }
  }

  lemma {:induction false} SplitOnePiece(t: string)
    requires DELIMITER !in t
    ensures Split(t) == [t]
  {
    if t != "" {
      SplitOnePiece(t[..|t| - 1]);
      assert t == t[..|t| - 1] + [t[|t| - 1]];
    }
  }

  lemma {:induction false} SplitUndoesJoin(pieces: seq<string>)
    requires pieces != [] && forall p :: p in pieces ==> DELIMITER !in p
    ensures Split(Joined(pieces)) == pieces
  {
    var n := |pieces| - 1;
    assert pieces[n] in pieces;
    if n == 0 {
      SplitOnePiece(pieces[0]);
    } else {
      forall p | p in pieces[..n] ensures DELIMITER !in p {
        assert p in pieces;
      }
      SplitUndoesJoin(pieces[..n]);
      SplitLastPiece(Joined(pieces[..n]), pieces[n]);
      assert pieces == pieces[..n] + [pieces[n]];
    }
  }

  // A joined text has one delimiter for each joint and those its pieces brought along.
  lemma {:induction false} JoinedDelimiters(pieces: seq<string>, p: string)
    requires p in pieces
    ensures Delimiters(Joined(pieces)) >= |pieces| - 1 + Delimiters(p)
  {
    var n := |pieces| - 1;
    if n > 0 {
      var front := Joined(pieces[..n]);
      DelimitersConcat(front + [DELIMITER], pieces[n]);
      DelimitersConcat(front, [DELIMITER]);
      assert [DELIMITER][..0] == "";
      JoinedDelimiters(pieces[..n], if p in pieces[..n] then p else pieces[0]);
    }
  }

  lemma PieceDelimiter(c: Component)
    ensures DELIMITER in Piece(c) <==> DELIMITER in c.value
  {
    var head := KindText(c.kind) + "=";
    assert DELIMITER !in head;
    assert Piece(c) == head + c.value;
  }

  lemma FirstEquals(x: string, v: string)
    requires '=' !in x
    ensures (x + "=" + v)[|x|] == '=' && forall i :: 0 <= i < |x| ==> (x + "=" + v)[i] != '='
    ensures (x + "=" + v)[..|x|] == x && (x + "=" + v)[|x| + 1..] == v
  {
  }

  lemma HeadEndsAtEquals(x: string, v: string, y: string, w: string)
    requires '=' !in x && '=' !in y && x + "=" + v == y + "=" + w
    ensures x == y && v == w
  {
    FirstEquals(x, v);
    FirstEquals(y, w);
  }

  // The kind ends at the first equals sign, so a piece names one component.
  lemma PieceIsInjective(a: Component, b: Component)
    requires Piece(a) == Piece(b)
    ensures a == b
  {
    KindHasNoEquals(a.kind);
    KindHasNoEquals(b.kind);
    HeadEndsAtEquals(KindText(a.kind), a.value, KindText(b.kind), b.value);
    KindTextIsInjective(a.kind, b.kind);
  }

  lemma KindHasNoEquals(k: ScopeKind)
    ensures '=' !in KindText(k)
  {
  }

  lemma KindTextIsInjective(a: ScopeKind, b: ScopeKind)
    requires KindText(a) == KindText(b)
    ensures a == b
  {
    assert KindText(a)[0] == KindText(b)[0];
  }

  ghost predicate DelimiterFree(cs: seq<Component>) {
    forall c :: c in cs ==> DELIMITER !in c.value
  }

  // A composite reads back as its components exactly when no value holds the delimiter.
  lemma CompositeReadsBackIff(cs: seq<Component>)
    requires cs != []
    ensures Split(Joined(Pieces(cs))) == Pieces(cs) <==> DelimiterFree(cs)
  {
    if DelimiterFree(cs) {
      forall p | p in Pieces(cs) ensures DELIMITER !in p {
        var i :| 0 <= i < |cs| && p == Piece(cs[i]);
        PieceDelimiter(cs[i]);
      }
      SplitUndoesJoin(Pieces(cs));
    } else {
      var i :| 0 <= i < |cs| && DELIMITER in cs[i].value;
      PieceDelimiter(cs[i]);
      assert Pieces(cs)[i] in Pieces(cs);
      JoinedDelimiters(Pieces(cs), Piece(cs[i]));
      SplitCountsDelimiters(Piece(cs[i]));
      SplitCountsDelimiters(Joined(Pieces(cs)));
    }
  }

  // Different components, free of the delimiter, make different composites.
  lemma CompositesDiffer(a: seq<Component>, b: seq<Component>)
    requires a != [] && b != [] && DelimiterFree(a) && DelimiterFree(b)
    ensures Joined(Pieces(a)) == Joined(Pieces(b)) <==> a == b
  {
    CompositeReadsBackIff(a);
    CompositeReadsBackIff(b);
    if Joined(Pieces(a)) == Joined(Pieces(b)) {
      assert |Pieces(a)| == |Pieces(b)|;
      forall i | 0 <= i < |a| ensures a[i] == b[i] {
        assert Pieces(a)[i] == Pieces(b)[i];
        PieceIsInjective(a[i], b[i]);
      }
    }
  }

  lemma PiecesAppend(cs: seq<Component>, c: Component)
    ensures Joined(Pieces(cs + [c])) == (if cs == [] then "" else Joined(Pieces(cs)) + [DELIMITER]) + Piece(c)
  {
    var all := cs + [c];
    assert all[..|cs| + 1] == all && all[..|cs|] == cs && all[|cs|] == c;
    JoinedStep(all, |cs|);
  }

  // The first of two components with the whole of the second written into its value.
  function Merged(a: Component, b: Component): Component {
    Component(a.kind, a.value + [DELIMITER] + Piece(b))
  }

  lemma MergedPiece(a: Component, b: Component)
    ensures Piece(Merged(a, b)) == Piece(a) + [DELIMITER] + Piece(b)
  {
    var head := KindText(a.kind) + "=";
    assert head + (a.value + [DELIMITER] + Piece(b)) == head + a.value + [DELIMITER] + Piece(b);
  }

  lemma Regroup(lead: string, x: string, y: string)
    ensures lead + (x + [DELIMITER] + y) == lead + x + [DELIMITER] + y
  {
  }

  lemma MergedAtEnd(before: seq<Component>, a: Component, b: Component)
    ensures Joined(Pieces(before + [Merged(a, b)])) == Joined(Pieces(before + [a] + [b]))
  {
    PiecesAppend(before, Merged(a, b));
    PiecesAppend(before, a);
    PiecesAppend(before + [a], b);
    MergedPiece(a, b);
    Regroup(if before == [] then "" else Joined(Pieces(before)) + [DELIMITER], Piece(a), Piece(b));
  }

  lemma LastOfConcat(xs: seq<Component>, after: seq<Component>)
    requires after != []
    ensures xs + after == (xs + after[..|after| - 1]) + [after[|after| - 1]]
  {
  }

  lemma OneMoreStaysSame(xs: seq<Component>, ys: seq<Component>, c: Component)
    requires xs != [] && ys != [] && Joined(Pieces(xs)) == Joined(Pieces(ys))
    ensures Joined(Pieces(xs + [c])) == Joined(Pieces(ys + [c]))
  {
    PiecesAppend(xs, c);
    PiecesAppend(ys, c);
  }

  lemma {:induction false} SameTextStaysSame(xs: seq<Component>, ys: seq<Component>, after: seq<Component>)
    requires xs != [] && ys != [] && Joined(Pieces(xs)) == Joined(Pieces(ys))
    ensures Joined(Pieces(xs + after)) == Joined(Pieces(ys + after))
  {
    if after == [] {
      assert xs + after == xs && ys + after == ys;
    } else {
      var front, last := after[..|after| - 1], after[|after| - 1];
      SameTextStaysSame(xs, ys, front);
      OneMoreStaysSame(xs + front, ys + front, last);
      LastOfConcat(xs, after);
      LastOfConcat(ys, after);
    }
  }

  // Only tenants are checked for the delimiter. Wherever another name holds one followed by a whole
  // component, the composite is the same text as that of one component more.
  lemma MergedCollides(before: seq<Component>, a: Component, b: Component, after: seq<Component>)
    ensures Joined(Pieces(before + [Merged(a, b)] + after)) == Joined(Pieces(before + [a] + [b] + after))
  {
    MergedAtEnd(before, a, b);
    SameTextStaysSame(before + [Merged(a, b)], before + [a] + [b], after);
  }
}
