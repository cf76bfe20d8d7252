/** Sequences of any elements. */
module Sequences {
  function ToSet<T>(xs: seq<T>): set<T> { set x | x in xs }

  predicate Distinct<T(==)>(xs: seq<T>) { forall i, j :: 0 <= i < j < |xs| ==> xs[i] != xs[j] }

  /** The sequences one after another. */
  function Flatten<T>(chunks: seq<seq<T>>): seq<T> {
    if chunks == [] then [] else Flatten(chunks[..|chunks| - 1]) + chunks[|chunks| - 1]
  }

  lemma FlattenPush<T>(cs: seq<seq<T>>, c: seq<T>)
    ensures Flatten(cs + [c]) == Flatten(cs) + c
  {
    assert (cs + [c])[..|cs|] == cs;
  }

  lemma {:induction false} FlattenMore<T>(xs: seq<seq<T>>, ys: seq<seq<T>>)
    ensures Flatten(xs + ys) == Flatten(xs) + Flatten(ys)
  {
    hide Flatten;
    if ys == [] {
      FlattenNone<T>();
      assert xs + ys == xs;
    } else {
      var before, last := ys[..|ys| - 1], ys[|ys| - 1];
      FlattenMore(xs, before);
      FlattenPush(before, last);
      FlattenPush(xs + before, last);
      assert ys == before + [last] && xs + ys == (xs + before) + [last];
    }
  }

  lemma FlattenOne<T>(x: seq<T>)
    ensures Flatten([x]) == x
  {
    assert [x][..0] == [];
  }

  lemma FlattenNone<T>()
    ensures Flatten<T>([]) == []
  {
  }

  lemma FlattenSplit<T>(cs: seq<seq<T>>, k: nat)
    requires k <= |cs|
    ensures Flatten(cs) == Flatten(cs[..k]) + Flatten(cs[k..])
  {
    hide Flatten;
    FlattenMore(cs[..k], cs[k..]);
    assert cs[..k] + cs[k..] == cs;
  }

  lemma FlattenNext<T>(cs: seq<seq<T>>, k: nat)
    requires k < |cs|
    ensures Flatten(cs[..k + 1]) == Flatten(cs[..k]) + cs[k]
    ensures |Flatten(cs[..k])| + |cs[k]| <= |Flatten(cs)|
  {
    assert Flatten(cs[..k + 1]) == Flatten(cs[..k]) + cs[k] by { assert cs[..k + 1][..k] == cs[..k]; }
    FlattenSplit(cs, k + 1);
  }

  lemma FlattenFirst<T>(cs: seq<seq<T>>)
    requires cs != []
    ensures Flatten(cs) == cs[0] + Flatten(cs[1..])
  {
    hide Flatten;
    FlattenMore([cs[0]], cs[1..]);
    FlattenOne(cs[0]);
    assert cs == [cs[0]] + cs[1..];
  }
}
