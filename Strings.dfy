/** Splitting a string at a separator character, as Rust's `str::split(char)`
    followed by `collect`, and its inverse, joining pieces with the separator. */
module Strings {

  /** The pieces put back together with `sep` between neighbours. */
  function Join(pieces: seq<string>, sep: char): (s: string)
    requires |pieces| >= 1
  {
    if |pieces| == 1 then pieces[0] else pieces[0] + [sep] + Join(pieces[1..], sep)
  }

  /** The pieces of `s` between occurrences of `sep`. There is always one
      piece more than there are separators, so even the empty string yields
      one (empty) piece. */
  function Split(s: string, sep: char): (pieces: seq<string>)
    ensures |pieces| >= 1
    ensures forall i :: 0 <= i < |pieces| ==> sep !in pieces[i]
    ensures Join(pieces, sep) == s
  {
    if s == [] then [[]]
    else
      var rest := Split(s[1..], sep);
      if s[0] == sep then
        var pieces := [[]] + rest;
        assert pieces[1..] == rest;
        pieces
      else
        var pieces := [[s[0]] + rest[0]] + rest[1..];
        assert |rest| > 1 ==> pieces[1..] == rest[1..];
        pieces
  }

  /** There is one piece more than there are separators. */
  lemma {:induction false} SplitCount(s: string, sep: char)
    ensures |Split(s, sep)| == multiset(s)[sep] + 1
  {
    if s != [] {
      SplitCount(s[1..], sep);
      assert s == [s[0]] + s[1..];
      assert multiset(s) == multiset([s[0]]) + multiset(s[1..]);
    }
  }

  lemma JoinTwo(a: string, b: string, sep: char)
    ensures Join([a, b], sep) == a + [sep] + b
  {
    assert [a, b][1..] == [b];
  }

  lemma JoinThree(a: string, b: string, c: string, sep: char)
    ensures Join([a, b, c], sep) == a + [sep] + b + [sep] + c
  {
    assert [a, b, c][1..] == [b, c];
    JoinTwo(b, c, sep);
  }

  /** Where the first piece ends inside the joined string. */
  lemma JoinFirstPiece(pieces: seq<string>, sep: char)
    requires |pieces| >= 1
    ensures |Join(pieces, sep)| >= |pieces[0]|
    ensures Join(pieces, sep)[..|pieces[0]|] == pieces[0]
    ensures |pieces| == 1 ==> |Join(pieces, sep)| == |pieces[0]|
    ensures |pieces| > 1 ==> |Join(pieces, sep)| > |pieces[0]| && Join(pieces, sep)[|pieces[0]|] == sep
    ensures |pieces| > 1 ==> Join(pieces, sep)[|pieces[0]| + 1..] == Join(pieces[1..], sep)
  {
  }

  /** Joining pieces that do not contain the separator loses nothing. */
  lemma {:induction false} JoinInjective(p: seq<string>, q: seq<string>, sep: char)
    requires |p| >= 1 && |q| >= 1
    requires forall i :: 0 <= i < |p| ==> sep !in p[i]
    requires forall i :: 0 <= i < |q| ==> sep !in q[i]
    requires Join(p, sep) == Join(q, sep)
    ensures p == q
  {
    var s := Join(p, sep);
    JoinFirstPiece(p, sep);
    JoinFirstPiece(q, sep);
    forall i | 0 <= i < |p[0]| ensures s[i] != sep {
      assert s[i] == p[0][i];
    }
    forall i | 0 <= i < |q[0]| ensures s[i] != sep {
      assert s[i] == q[0][i];
    }
    assert p[0] == q[0];
    if |p| > 1 && |q| > 1 {
      JoinInjective(p[1..], q[1..], sep);
      assert p == [p[0]] + p[1..];
      assert q == [q[0]] + q[1..];
    }
  }

  /** Splitting undoes joining, whenever no piece holds the separator. */
  lemma SplitJoin(pieces: seq<string>, sep: char)
    requires |pieces| >= 1
    requires forall i :: 0 <= i < |pieces| ==> sep !in pieces[i]
    ensures Split(Join(pieces, sep), sep) == pieces
  {
    JoinInjective(Split(Join(pieces, sep), sep), pieces, sep);
  }
}
