/** The Java string operations the parsers use. Strings are sequences of Unicode scalar values. */
module Strings {

  /** `s.indexOf(c, from)`: the first position from `from` on that holds `c`, or -1. */
  function IndexFrom(s: string, c: char, from: nat): (i: int)
    ensures i == -1 || from <= i < |s|
    ensures i == -1 ==> forall j :: from <= j < |s| ==> s[j] != c
    ensures i != -1 ==> s[i] == c && forall j :: from <= j < i ==> s[j] != c
    decreases |s| - from
  {
    if from >= |s| then -1 else if s[from] == c then from else IndexFrom(s, c, from + 1)
  }

  lemma IndexFromAt(s: string, c: char, from: nat, k: nat)
    requires from <= k <= |s| && (forall j :: from <= j < k ==> s[j] != c) && (k < |s| ==> s[k] == c)
    ensures IndexFrom(s, c, from) == if k < |s| then k else -1
  {
    hide IndexFrom;
    var i := IndexFrom(s, c, from);
    assert i != -1 ==> !(i < k) && !(k < i);
  }

  /** The pieces between separators, empty ones included. */
  function Pieces(s: string, c: char): (ps: seq<string>)
    ensures |ps| >= 1
    decreases |s|
  {
    var i := IndexFrom(s, c, 0);
    if i == -1 then [s] else [s[..i]] + Pieces(s[i + 1..], c)
  }

  function DropTrailingEmpty(ps: seq<string>): (r: seq<string>)
    ensures r <= ps
  {
    if ps == [] || ps[|ps| - 1] != "" then ps else DropTrailingEmpty(ps[..|ps| - 1])
  }

  /** `s.split(c)`: trailing empty pieces are dropped, unless there is no separator at all. */
  function Split(s: string, c: char): seq<string> {
    if c !in s then [s] else DropTrailingEmpty(Pieces(s, c))
  }

  function Join(ps: seq<string>, c: char): string {
    if ps == [] then "" else if |ps| == 1 then ps[0] else ps[0] + [c] + Join(ps[1..], c)
  }

  lemma FirstPiece(head: string, c: char, rest: string)
    requires c !in head
    ensures Pieces(head + [c] + rest, c) == [head] + Pieces(rest, c)
  {
    hide IndexFrom;
    var s := head + [c] + rest;
    IndexFromAt(s, c, 0, |head|);
    assert s[..|head|] == head && s[|head| + 1..] == rest;
  }

  lemma {:induction false} PiecesOfJoin(ps: seq<string>, c: char)
    requires ps != [] && forall i :: 0 <= i < |ps| ==> c !in ps[i]
    ensures Pieces(Join(ps, c), c) == ps
  {
    hide IndexFrom;
    if |ps| == 1 {
      IndexFromAt(ps[0], c, 0, |ps[0]|);
    } else {
      PiecesOfJoin(ps[1..], c);
      FirstPiece(ps[0], c, Join(ps[1..], c));
    }
  }

  lemma {:induction false} JoinHasSeparator(ps: seq<string>, c: char)
    requires ps != []  && forall i :: 0 <= i < |ps| ==> c !in ps[i]
    ensures c in Join(ps, c) <==> |ps| > 1
  {
    if |ps| > 1 { assert Join(ps, c)[|ps[0]|] == c; }
  }

  /** Splitting undoes joining for non-empty pieces without the separator. */
  lemma SplitOfJoin(ps: seq<string>, c: char)
    requires ps != [] && forall i :: 0 <= i < |ps| ==> ps[i] != "" && c !in ps[i]
    ensures Split(Join(ps, c), c) == ps
  {
    JoinHasSeparator(ps, c);
    PiecesOfJoin(ps, c);
    if |ps| == 1 { assert ps == [ps[0]]; }
  }

  /** `r` without the empty pieces at the end. */
  predicate Trimmed(r: seq<string>, ps: seq<string>) {
    r <= ps && (r == [] || r[|r| - 1] != "") && forall i :: |r| <= i < |ps| ==> ps[i] == ""
  }

  lemma {:induction false} DropTrailingTrims(ps: seq<string>)
    ensures forall r :: r == DropTrailingEmpty(ps) <==> Trimmed(r, ps)
  {
    if ps != [] && ps[|ps| - 1] == "" {
      var n := |ps| - 1;
      DropTrailingTrims(ps[..n]);
      forall r
        ensures Trimmed(r, ps) <==> Trimmed(r, ps[..n])
      {
        if r <= ps && |r| == |ps| { assert r == ps; }
      }
    } else {
      forall r
        ensures Trimmed(r, ps) <==> r == ps
      {
        if r <= ps && |r| == |ps| { assert r == ps; }
      }
    }
  }

  /** Splitting any pieces joined by separators leaves out the empty ones at the end, unless there is just one piece. */
  lemma SplitMeans(ps: seq<string>, c: char, r: seq<string>)
    requires ps != [] && forall i :: 0 <= i < |ps| ==> c !in ps[i]
    ensures Split(Join(ps, c), c) == r <==> if |ps| == 1 then r == ps else Trimmed(r, ps)
  {
    JoinHasSeparator(ps, c);
    PiecesOfJoin(ps, c);
    DropTrailingTrims(ps);
    if |ps| == 1 { assert ps == [ps[0]]; }
  }

  lemma {:induction false} PiecesLackSeparator(s: string, c: char)
    ensures forall i :: 0 <= i < |Pieces(s, c)| ==> c !in Pieces(s, c)[i]
    decreases |s|
  {
    var i := IndexFrom(s, c, 0);
    if i != -1 { PiecesLackSeparator(s[i + 1..], c); }
  }

  lemma SplitLacksSeparator(s: string, c: char)
    ensures forall i :: 0 <= i < |Split(s, c)| ==> c !in Split(s, c)[i]
  {
    PiecesLackSeparator(s, c);
    assert forall i :: 0 <= i < |DropTrailingEmpty(Pieces(s, c))| ==> DropTrailingEmpty(Pieces(s, c))[i] == Pieces(s, c)[i];
  }

  function LowerChar(c: char): char {
    if 'A' <= c <= 'Z' then (c as int + 32) as char else c
  }

  function Lower(s: string): (r: string)
    ensures |r| == |s| && forall i :: 0 <= i < |s| ==> r[i] == LowerChar(s[i])
  {
    seq(|s|, i requires 0 <= i < |s| => LowerChar(s[i]))
  }

  predicate IsLower(s: string) { Lower(s) == s }
}
