/** A queue that evicts the least recently hit identifier: two inverse dictionaries and a moving base. */
module LruQueues {
  import opened Options
  import opened Sequences

  // ----- the specification: identifiers in order of recency, least recent first

  function Without<Id(==)>(s: seq<Id>, x: Id): (r: seq<Id>)
    ensures x !in r && |r| <= |s|
    ensures x !in s ==> r == s
  {
    if s == [] then []
    else
      var rest := Without(s[..|s| - 1], x);
      var last := s[|s| - 1];
      if last == x then rest else rest + [last]
  }

  datatype Op<Id> = Hit(id: Id) | Delete(id: Id) | Clear

  /** The list after an operation, and what a hit evicts. */
  function Apply<Id(==)>(limit: nat, s: seq<Id>, op: Op<Id>): (seq<Id>, Option<Id>) {
    match op
    case Hit(x) =>
      var t := Without(s, x) + [x];
      if x in s || |t| <= limit then (t, None) else (t[1..], Some(t[0]))
    case Delete(x) => (Without(s, x), None)
    case Clear => ([], None)
  }

  lemma ApplyNew<Id>(limit: nat, s: seq<Id>, x: Id)
    requires x !in s
    ensures Apply(limit, s, Hit(x)) == if |s| < limit then (s + [x], None) else ((s + [x])[1..], Some((s + [x])[0]))
  {
  }

  lemma ApplyHeld<Id>(limit: nat, s: seq<Id>, x: Id)
    requires x in s
    ensures Apply(limit, s, Hit(x)) == (Without(s, x) + [x], None)
  {
  }

  // ----- the live entries of a dictionary, in index order

  function Live<Id>(queue: map<nat, Id>, n: nat): (s: seq<Id>)
    ensures |s| <= n
  {
    if n == 0 then [] else Live(queue, n - 1) + if n in queue then [queue[n]] else []
  }

  predicate Inverse<Id(!new)>(queue: map<nat, Id>, positions: map<Id, nat>) {
    && (forall i :: i in queue ==> queue[i] in positions && positions[queue[i]] == i)
    && (forall x :: x in positions ==> positions[x] in queue && queue[positions[x]] == x)
  }

  lemma {:induction false} LiveSame<Id>(q: map<nat, Id>, r: map<nat, Id>, n: nat)
    requires forall i :: 0 < i <= n ==> (i in q <==> i in r) && (i in q ==> q[i] == r[i])
    ensures Live(q, n) == Live(r, n)
  {
    if n > 0 { LiveSame(q, r, n - 1); }
  }

  lemma {:induction false} LiveHolds<Id>(q: map<nat, Id>, n: nat, x: Id)
    ensures x in Live(q, n) <==> exists i :: 0 < i <= n && i in q && q[i] == x
  {
    if n > 0 { LiveHolds(q, n - 1, x); }
  }

  lemma WithoutLast<Id>(s: seq<Id>, y: Id, x: Id)
    ensures Without(s + [y], x) == Without(s, x) + if y == x then [] else [y]
  {
    assert (s + [y])[..|s|] == s;
  }

  /** Removing an entry removes its identifier from the list. */
  lemma {:induction false} LiveRemoved<Id>(q: map<nat, Id>, n: nat, i: nat)
    requires 0 < i && i in q && forall j :: j in q && q[j] == q[i] ==> j == i
    ensures Live(q - {i}, n) == if i <= n then Without(Live(q, n), q[i]) else Live(q, n)
  {
    hide Without;
    if i > n {
      LiveSame(q - {i}, q, n);
    } else {
      var before := Live(q, n - 1);
      LiveRemoved(q, n - 1, i);
      LiveHolds(q, n - 1, q[i]);
      assert before + [] == before && Without(before, q[i]) + [] == Without(before, q[i]);
      if n in q { WithoutLast(before, q[n], q[i]); }
    }
  }

  /** The entry at the smallest index comes first. */
  lemma {:induction false} LiveFirst<Id>(q: map<nat, Id>, n: nat, base: nat)
    requires 0 < base <= n && base in q && forall i :: i in q ==> base <= i
    ensures Live(q, n) != [] && Live(q, n)[0] == q[base]
  {
    if base == n { LiveNone(q, n - 1); } else { LiveFirst(q, n - 1, base); }
  }

  lemma {:induction false} LiveNone<Id>(q: map<nat, Id>, n: nat)
    requires forall i :: 0 < i <= n ==> i !in q
    ensures Live(q, n) == []
  {
    if n > 0 { LiveNone(q, n - 1); }
  }

  function KeysTo<Id>(q: map<nat, Id>, n: nat): set<nat> { set i | i in q.Keys && 0 < i <= n }

  lemma {:induction false} LiveCount<Id>(q: map<nat, Id>, n: nat)
    ensures |Live(q, n)| == |KeysTo(q, n)|
  {
    if n > 0 {
      LiveCount(q, n - 1);
      assert KeysTo(q, n) == KeysTo(q, n - 1) + if n in q then {n} else {};
    } else {
      assert KeysTo(q, 0) == {};
    }
  }

  lemma LiveCountAll<Id>(q: map<nat, Id>, n: nat)
    requires forall i :: i in q ==> 0 < i <= n
    ensures |Live(q, n)| == |q|
  {
    LiveCount(q, n);
    assert KeysTo(q, n) == q.Keys;
  }

  lemma LiveHit<Id>(q: map<nat, Id>, n: nat, x: Id)
    ensures Live(q[n + 1 := x], n + 1) == Live(q, n) + [x]
  {
    LiveSame(q, q[n + 1 := x], n);
  }

  lemma {:induction false} LiveDistinct<Id>(q: map<nat, Id>, n: nat)
    requires forall i, j :: i in q && j in q && q[i] == q[j] ==> i == j
    ensures Distinct(Live(q, n))
  {
    if n > 0 {
      LiveDistinct(q, n - 1);
      if n in q { LiveHolds(q, n - 1, q[n]); }
    }
  }

  lemma {:induction false} WithoutFirst<Id>(s: seq<Id>)
    requires s != [] && Distinct(s)
    ensures Without(s, s[0]) == s[1..]
  {
    if |s| > 1 { WithoutFirst(s[..|s| - 1]); }
  }

  lemma EmptyLive<Id>(q: map<nat, Id>, n: nat)
    requires |q| == 0
    ensures Live(q, n) == []
  {
    LiveNone(q, n);
  }

  predicate Bounds<Id(!new)>(queue: map<nat, Id>, base: nat, index: nat) {
    0 < base && forall i :: i in queue ==> base <= i <= index
  }

  // ----- the two dictionaries together

  lemma SizeRemoved<K, V>(m: map<K, V>, k: K)
    requires k in m
    ensures |m - {k}| == |m| - 1
  {
    assert (m - {k}).Keys == m.Keys - {k};
    assert |m| == |m.Keys| && |m - {k}| == |(m - {k}).Keys|;
  }

  lemma SizeAdded<K, V>(m: map<K, V>, k: K, v: V)
    requires k !in m
    ensures |m[k := v]| == |m| + 1
  {
    assert m[k := v].Keys == m.Keys + {k};
    assert |m| == |m.Keys| && |m[k := v]| == |m[k := v].Keys|;
  }

  lemma InverseRemoved<Id(!new)>(queue: map<nat, Id>, positions: map<Id, nat>, x: Id)
    requires Inverse(queue, positions) && x in positions
    ensures Inverse(queue - {positions[x]}, positions - {x})
  {
  }

  lemma InverseHit<Id(!new)>(queue: map<nat, Id>, positions: map<Id, nat>, x: Id, f: nat)
    requires Inverse(queue, positions) && f !in queue
    ensures x in positions ==> Inverse(queue[f := x] - {positions[x]}, positions[x := f])
    ensures x !in positions ==> Inverse(queue[f := x], positions[x := f])
  {
  }

  lemma HitNew<Id(!new)>(queue: map<nat, Id>, positions: map<Id, nat>, base: nat, n: nat, x: Id)
    requires Inverse(queue, positions) && x !in positions && Bounds(queue, base, n) && base <= n + 1
    ensures Live(queue[n + 1 := x], n + 1) == Live(queue, n) + [x]
    ensures |queue[n + 1 := x]| == |queue| + 1 && Inverse(queue[n + 1 := x], positions[x := n + 1])
    ensures Bounds(queue[n + 1 := x], base, n + 1)
  {
    hide Live, Inverse;
    LiveHit(queue, n, x);
    SizeAdded(queue, n + 1, x);
    InverseHit(queue, positions, x, n + 1);
  }

  lemma HitHeld<Id(!new)>(queue: map<nat, Id>, positions: map<Id, nat>, base: nat, n: nat, x: Id)
    requires Inverse(queue, positions) && x in positions && Bounds(queue, base, n) && base in queue
    ensures var q := queue[n + 1 := x] - {positions[x]};
            && Live(q, n + 1) == Without(Live(queue, n), x) + [x]
            && |q| == |queue| && Inverse(q, positions[x := n + 1]) && Bounds(q, base, n + 1)
            && (base in q <==> base != positions[x])
    ensures positions[x] in queue
  {
    hide Live;
    var i := positions[x];
    LiveRemoved(queue, n, i);
    LiveHit(queue - {i}, n, x);
    SizeAdded(queue, n + 1, x);
    SizeRemoved(queue[n + 1 := x], i);
    InverseHit(queue, positions, x, n + 1);
    assert queue[n + 1 := x] - {i} == (queue - {i})[n + 1 := x];
  }

  class LruQueue<Id(==,!new)> {
    const limit: nat
    var size: nat
    var base: nat
    var queue: map<nat, Id>
    var positions: map<Id, nat>
    var index: nat

    /** The base is the smallest live index, or 1 if there is none. */
    ghost predicate Consistent()
      reads this
    {
      && Inverse(queue, positions)
      && size == |queue|
      && Bounds(queue, base, index)
      && (if size == 0 then base == 1 && index == 0 else base in queue)
    }

    ghost predicate Valid()
      reads this
    {
      Consistent() && size <= limit
    }

    ghost function Order(): seq<Id>
      reads this
    {
      Live(queue, index)
    }

    constructor (limit: nat)
      ensures Valid() && Order() == [] && this.limit == limit
    {
      this.limit := limit;
      size, base, queue, positions, index := 0, 1, map[], map[], 0;
    }

    /** The next base: the first live index after the old one. */
    method Advance()
      requires |queue| > 0 && Bounds(queue, base, index) && base !in queue
      modifies this`base
      ensures base in queue && base > old(base) && Bounds(queue, base, index)
    {
      assert queue != map[];
      base := base + 1;
      while base !in queue
        invariant base > old(base) && Bounds(queue, base, index)
        decreases index - base
      {
        ghost var i :| i in queue;
        base := base + 1;
      }
    }

    /** Deleting an identifier that is held removes it from the list. */
    method Delete(x: Id)
      requires Consistent()
      modifies this
      ensures Consistent()
      ensures Order() == Without(old(Order()), x)
      ensures size == old(size) - if old(x in positions) then 1 else 0
    {
      hide Live, Without, Inverse;
      Absent(x);
      if x !in positions {
        return;
      }
      var i := positions[x];
      PositionOf(x);
      LiveRemoved(queue, index, i);
      InverseRemoved(queue, positions, x);
      SizeRemoved(queue, i);
      queue, positions := queue - {i}, positions - {x};
      size := size - 1;
      if base == i {
        if size == 0 {
          EmptyLive(queue, index);
          index, base := 0, 1;
          EmptyLive(queue, index);
        } else {
          Advance();
        }
      }
    }

    lemma Sized()
      requires Consistent()
      ensures |Order()| == size && base <= index + 1
      ensures size > 0 ==> base <= index
    {
      LiveCountAll(queue, index);
    }

    lemma Absent(x: Id)
      requires Consistent()
      ensures x in Order() <==> x in positions
      ensures Distinct(Order())
    {
      LiveHolds(queue, index, x);
      LiveDistinct(queue, index);
    }

    lemma PositionOf(x: Id)
      requires Inverse(queue, positions) && x in positions
      ensures positions[x] in queue && queue[positions[x]] == x
      ensures forall j :: j in queue && queue[j] == x ==> j == positions[x]
    {
    }

    /** A hit makes an identifier the most recent one, and evicts the least recent one if there are too many. */
    method Hit(x: Id) returns (evicted: Option<Id>)
      requires Valid()
      modifies this
      ensures Valid()
      ensures (Order(), evicted) == Apply(limit, old(Order()), Op.Hit(x))
    {
      hide Live, Without, Inverse, Apply, Distinct, Bounds, Consistent;
      Absent(x);
      Sized();
      if x in positions {
        ApplyHeld(limit, Order(), x);
        MoveUp(x);
        return None;
      }
      ApplyNew(limit, Order(), x);
      Append(x);
      if size <= limit {
        return None;
      }
      FirstIsOldest();
      var oldest := queue[base];
      Delete(oldest);
      evicted := Some(oldest);
    }

    /** The part of a hit for an identifier that is not held. */
    method Append(x: Id)
      requires Consistent() && x !in positions
      modifies this
      ensures Consistent() && size == old(size) + 1
      ensures Order() == old(Order()) + [x]
    {
      hide Live, Inverse, Bounds;
      Sized();
      HitNew(queue, positions, base, index, x);
      index := index + 1;
      queue, positions := queue[index := x], positions[x := index];
      size := size + 1;
    }

    /** The part of a hit for an identifier that is held: its old index goes. */
    method MoveUp(x: Id)
      requires Consistent() && x in positions
      modifies this
      ensures Consistent() && size == old(size)
      ensures Order() == Without(old(Order()), x) + [x]
    {
      hide Live, Without, Inverse, Bounds;
      Sized();
      HasSome(x);
      HitHeld(queue, positions, base, index, x);
      var i := positions[x];
      index := index + 1;
      queue, positions := queue[index := x], positions[x := index];
      queue := queue - {i};
      if base == i {
        Advance();
      }
    }

    lemma HasSome(x: Id)
      requires Consistent() && x in positions
      ensures size > 0
    {
    }

    lemma FirstIsOldest()
      requires Consistent() && size > 0
      ensures base in queue && Order() != [] && Order()[0] == queue[base] && Without(Order(), queue[base]) == Order()[1..]
      ensures queue[base] in positions
    {
      hide Live, Without;
      LiveFirst(queue, index, base);
      Absent(queue[base]);
      WithoutFirst(Order());
    }

    method Clear()
      modifies this
      ensures Valid() && Order() == []
    {
      size, base, queue, positions, index := 0, 1, map[], map[], 0;
    }

    /** Carries out a run on an empty queue, and tells what each operation evicts. */
    method Serve(run: seq<Op<Id>>) returns (evicted: seq<Option<Id>>)
      requires Valid() && Order() == []
      modifies this
      ensures Valid() && Order() == OrderAfter(limit, run)
      ensures |evicted| == |run|
      ensures forall n :: 0 <= n < |run| ==> evicted[n] == Apply(limit, OrderAfter(limit, run[..n]), run[n]).1
    {
      hide Apply, Live, Bounds, Inverse;
      evicted := [];
      assert run[..0] == [];
      for i := 0 to |run|
        invariant Valid() && Order() == OrderAfter(limit, run[..i]) && |evicted| == i
        invariant forall n :: 0 <= n < i ==> evicted[n] == Apply(limit, OrderAfter(limit, run[..n]), run[n]).1
      {
        assert run[..i + 1][..i] == run[..i];
        var e: Option<Id> := None;
        ApplyOther(limit, Order(), run[i]);
        match run[i] {
          case Hit(x) => e := Hit(x);
          case Delete(x) => Delete(x);
          case Clear => Clear();
        }
        evicted := evicted + [e];
      }
      assert run[..|run|] == run;
    }
  }

  lemma ApplyOther<Id>(limit: nat, s: seq<Id>, op: Op<Id>)
    ensures op.Delete? ==> Apply(limit, s, op) == (Without(s, op.id), None)
    ensures op.Clear? ==> Apply(limit, s, op) == ([], None)
  {
  }

  // ----- whole runs

  function OrderAfter<Id(==)>(limit: nat, run: seq<Op<Id>>): seq<Id> {
    if run == [] then [] else Apply(limit, OrderAfter(limit, run[..|run| - 1]), run[|run| - 1]).0
  }

  /** The position of the last hit on an identifier in a run, or -1. */
  function LastHit<Id(==)>(run: seq<Op<Id>>, x: Id): (k: int)
    ensures -1 <= k < |run|
  {
    if run == [] then -1
    else if run[|run| - 1] == Hit(x) then |run| - 1
    else LastHit(run[..|run| - 1], x)
  }

  ghost predicate ByLastHit<Id(!new)>(run: seq<Op<Id>>, s: seq<Id>) {
    && (forall i :: 0 <= i < |s| ==> LastHit(run, s[i]) >= 0)
    && (forall i, j :: 0 <= i < j < |s| ==> LastHit(run, s[i]) < LastHit(run, s[j]))
  }

  lemma {:induction false} WithoutHolds<Id>(s: seq<Id>, x: Id, y: Id)
    ensures y in Without(s, x) <==> y in s && y != x
  {
    if s != [] { WithoutHolds(s[..|s| - 1], x, y); }
  }

  lemma {:induction false} WithoutByLastHit<Id(!new)>(run: seq<Op<Id>>, s: seq<Id>, x: Id)
    requires ByLastHit(run, s)
    ensures ByLastHit(run, Without(s, x))
  {
    hide LastHit;
    if s != [] {
      var n := |s| - 1;
      var rest := Without(s[..n], x);
      WithoutByLastHit(run, s[..n], x);
      forall i | 0 <= i < |rest|
        ensures LastHit(run, rest[i]) < LastHit(run, s[n])
      {
        WithoutHolds(s[..n], x, rest[i]);
        var j :| 0 <= j < n && s[j] == rest[i];
      }
    }
  }

  lemma LaterByLastHit<Id(!new)>(run: seq<Op<Id>>, s: seq<Id>, op: Op<Id>)
    requires ByLastHit(run, s) && (op.Hit? ==> op.id !in s)
    ensures ByLastHit(run + [op], s)
    ensures op.Hit? ==> ByLastHit(run + [op], s + [op.id])
  {
    assert (run + [op])[..|run|] == run;
    forall i | 0 <= i < |s|
      ensures LastHit(run + [op], s[i]) == LastHit(run, s[i])
    {
    }
  }

  lemma ByLastHitDistinct<Id(!new)>(run: seq<Op<Id>>, s: seq<Id>)
    requires ByLastHit(run, s)
    ensures Distinct(s)
  {
    hide LastHit;
  }

  lemma ApplyByLastHit<Id(!new)>(limit: nat, run: seq<Op<Id>>, s: seq<Id>, op: Op<Id>)
    requires ByLastHit(run, s)
    ensures ByLastHit(run + [op], Apply(limit, s, op).0)
    ensures op.Hit? ==> ByLastHit(run + [op], Without(s, op.id) + [op.id])
  {
    hide LastHit, Without;
    if !op.Clear? { WithoutByLastHit(run, s, op.id); }
    LaterByLastHit(run, if op.Clear? then [] else Without(s, op.id), op);
  }

  lemma {:induction false} WithoutShorter<Id>(s: seq<Id>, x: Id)
    requires x in s
    ensures |Without(s, x)| < |s|
  {
    if s[|s| - 1] != x { WithoutShorter(s[..|s| - 1], x); }
  }

  /** After any run the identifiers held are in the order of their last hits, and no more than the limit. */
  lemma {:induction false} RunByLastHit<Id(!new)>(limit: nat, run: seq<Op<Id>>)
    ensures ByLastHit(run, OrderAfter(limit, run)) && |OrderAfter(limit, run)| <= limit
  {
    hide LastHit, ByLastHit, Without;
    if run == [] {
      assert ByLastHit<Id>([], []) by { NothingHit<Id>(); }
    } else {
      var n := |run| - 1;
      RunByLastHit(limit, run[..n]);
      var s := OrderAfter(limit, run[..n]);
      assert run == run[..n] + [run[n]];
      ApplyByLastHit(limit, run[..n], s, run[n]);
      if run[n].Hit? && run[n].id in s { WithoutShorter(s, run[n].id); }
    }
  }

  lemma NothingHit<Id(!new)>()
    ensures ByLastHit<Id>([], [])
  {
  }

  /** What a hit evicts was held, or is the identifier hit, and was hit longer ago than all that stay. */
  lemma EvictsLeastRecent<Id(!new)>(limit: nat, run: seq<Op<Id>>, x: Id)
    ensures var held := OrderAfter(limit, run);
            var (kept, evicted) := Apply(limit, held, Hit(x));
            if x !in held && |held| == limit then
              && evicted.Some? && evicted.value in held + [x]
              && (forall z :: z in kept <==> z in held + [x] && z != evicted.value)
              && (forall z :: z in kept ==> LastHit(run + [Hit(x)], evicted.value) < LastHit(run + [Hit(x)], z))
            else evicted.None? && (forall z :: z in kept <==> z in held || z == x)
  {
    hide LastHit, Without;
    var held := OrderAfter(limit, run);
    RunByLastHit(limit, run);
    ApplyByLastHit(limit, run, held, Hit(x));
    forall z
      ensures z in Without(held, x) <==> z in held && z != x
    {
      WithoutHolds(held, x, z);
    }
    ByLastHitDistinct(run + [Hit(x)], Without(held, x) + [x]);
  }
}
