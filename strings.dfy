/**
 * The .NET string and LINQ operations the agent relies on, on `string` = `seq<char>`:
 * `String.IndexOf(char)`, `String.Split(char)`, `String.Contains`, `Enumerable.Distinct`.
 */
module Strings {

  /** Index of the first `c` in `s`, or `|s|` when there is none. */
  function IndexOf(s: string, c: char): (i: nat)
    ensures i <= |s|
    ensures i < |s| ==> s[i] == c
  {
    if s == [] then 0
    else if s[0] == c then 0
    else 1 + IndexOf(s[1..], c)
  }

  /** No `c` comes before `IndexOf`, and it reaches the end exactly when there is no `c`. */
  lemma {:induction false} IndexOfAbsent(s: string, c: char)
    ensures forall j :: 0 <= j < IndexOf(s, c) ==> s[j] != c
    ensures c !in s[..IndexOf(s, c)]
    ensures IndexOf(s, c) == |s| <==> c !in s
  {
    var i := IndexOf(s, c);
    if s != [] && s[0] != c {
      IndexOfAbsent(s[1..], c);
      assert forall j :: 1 <= j < i ==> s[j] == s[1..][j - 1];
    }
    assert forall j :: 0 <= j < i ==> s[..i][j] == s[j];
    if i == |s| {
      assert s[..i] == s;
    }
  }

  /**
   * `s.Split(c)`: the pieces of `s` between occurrences of `c`, so there is
   * always one more piece than there are separators.
   */
  function Split(s: string, c: char): (tokens: seq<string>)
    ensures |tokens| >= 1
    decreases |s|
  {
    var i := IndexOf(s, c);
    if i == |s| then [s]
    else [s[..i]] + Split(s[i + 1..], c)
  }

  /** A split gives a single piece exactly when there is no separator. */
  lemma SplitSingle(s: string, c: char)
    ensures |Split(s, c)| == 1 <==> c !in s
  {
    IndexOfAbsent(s, c);
  }

  /** One step of `Split`: the piece before the first separator, then the split of the rest. */
  lemma SplitUnfold(s: string, c: char)
    ensures IndexOf(s, c) == |s| ==> Split(s, c) == [s]
    ensures IndexOf(s, c) < |s| ==> Split(s, c) == [s[..IndexOf(s, c)]] + Split(s[IndexOf(s, c) + 1..], c)
  {
  }

  /** The first piece of a split is the text before the first separator. */
  lemma FirstToken(s: string, c: char)
    ensures Split(s, c)[0] == s[..IndexOf(s, c)]
  {
    SplitUnfold(s, c);
  }

  /** The last piece of `Split(s, c)`. */
  function LastPiece(s: string, c: char): string
  {
    Split(s, c)[|Split(s, c)| - 1]
  }

  /** One step of `LastPiece`: the whole input when there is no separator, else the last piece of the rest. */
  lemma LastPieceUnfold(s: string, c: char)
    ensures IndexOf(s, c) == |s| ==> LastPiece(s, c) == s
    ensures IndexOf(s, c) < |s| ==> LastPiece(s, c) == LastPiece(s[IndexOf(s, c) + 1..], c)
  {
    SplitUnfold(s, c);
    var i := IndexOf(s, c);
    if i < |s| {
      LastOfCons(s[..i], Split(s[i + 1..], c));
    }
  }

  /** Putting an element in front of a non-empty sequence keeps its last element. */
  lemma LastOfCons<T>(x: T, r: seq<T>)
    requires |r| >= 1
    ensures ([x] + r)[|[x] + r| - 1] == r[|r| - 1]
  {
  }

  /** The last piece is a suffix of the input. */
  lemma {:induction false} LastPieceSuffix(s: string, c: char)
    ensures |LastPiece(s, c)| <= |s| && s[|s| - |LastPiece(s, c)|..] == LastPiece(s, c)
    decreases |s|
  {
    var i := IndexOf(s, c);
    LastPieceUnfold(s, c);
    if i < |s| {
      var rest := s[i + 1..];
      LastPieceSuffix(rest, c);
      var t := LastPiece(rest, c);
      assert s[|s| - |t|..] == rest[|rest| - |t|..];
    }
  }

  /** The last piece holds no separator. */
  lemma {:induction false} LastPieceFree(s: string, c: char)
    ensures c !in LastPiece(s, c)
    decreases |s|
  {
    var i := IndexOf(s, c);
    LastPieceUnfold(s, c);
    if i < |s| {
      LastPieceFree(s[i + 1..], c);
    } else {
      IndexOfAbsent(s, c);
    }
  }

  /** The last piece is the whole input or comes right after a separator. */
  lemma {:induction false} LastPieceAfterSeparator(s: string, c: char)
    ensures |LastPiece(s, c)| <= |s|
    ensures LastPiece(s, c) == s || (|LastPiece(s, c)| < |s| && s[|s| - |LastPiece(s, c)| - 1] == c)
    decreases |s|
  {
    var i := IndexOf(s, c);
    LastPieceUnfold(s, c);
    LastPieceSuffix(s, c);
    if i < |s| {
      var rest := s[i + 1..];
      LastPieceAfterSeparator(rest, c);
      var t := LastPiece(rest, c);
      if t == rest {
        assert |s| - |t| - 1 == i;
      } else {
        assert s[|s| - |t| - 1] == rest[|rest| - |t| - 1];
      }
    }
  }

  /**
   * The last piece of a split is the text after the last separator: it holds no
   * separator and is either the whole input or a suffix preceded by a separator.
   */
  lemma LastToken(s: string, c: char)
    ensures var t := Split(s, c)[|Split(s, c)| - 1];
      |t| <= |s| && s[|s| - |t|..] == t && c !in t &&
      (t == s || s[|s| - |t| - 1] == c)
  {
    LastPieceSuffix(s, c);
    LastPieceFree(s, c);
    LastPieceAfterSeparator(s, c);
  }

  /** `s.Contains(sub)`: `sub` occurs in `s` as a contiguous piece. */
  predicate Contains(s: string, sub: string)
    decreases |s|
  {
    (|sub| <= |s| && s[..|sub|] == sub) || (s != [] && Contains(s[1..], sub))
  }

  /** `s.StartsWith(pre)`. */
  predicate StartsWith(s: string, pre: string) {
    |pre| <= |s| && s[..|pre|] == pre
  }

  /** `s.EndsWith(suf)`. */
  predicate EndsWith(s: string, suf: string) {
    |suf| <= |s| && s[|s| - |suf|..] == suf
  }

  /** Keeps the elements of `s` that satisfy `keep`, in order (LINQ `Where`). */
  function Filter<T(!new)>(s: seq<T>, keep: T -> bool): (r: seq<T>)
    ensures |r| <= |s|
    ensures forall x :: x in r <==> x in s && keep(x)
  {
    if s == [] then []
    else
      var rest := Filter(s[1..], keep);
      if keep(s[0]) then [s[0]] + rest else rest
  }

  /** Applies `f` to every element of `s` (LINQ `Select`). */
  function Map<T, U>(s: seq<T>, f: T -> U): (r: seq<U>)
    ensures |r| == |s|
    ensures forall k :: 0 <= k < |s| ==> r[k] == f(s[k])
  {
    if s == [] then [] else [f(s[0])] + Map(s[1..], f)
  }

  /** True when no element of `s` occurs twice. */
  predicate NoDuplicates<T(==)>(s: seq<T>) {
    forall i, j :: 0 <= i < j < |s| ==> s[i] != s[j]
  }

  /**
   * LINQ `Distinct`: the elements of `s`, each once, at the place of its first
   * occurrence.
   */
  function Distinct<T(==,!new)>(s: seq<T>): (r: seq<T>)
    ensures forall x :: x in r <==> x in s
    ensures NoDuplicates(r)
  {
    if s == [] then []
    else
      var d := Distinct(s[..|s| - 1]);
      var last := s[|s| - 1];
      assert forall x :: x in s <==> x in s[..|s| - 1] || x == last by {
        assert s == s[..|s| - 1] + [last];
      }
      if last in d then d else d + [last]
  }
}
