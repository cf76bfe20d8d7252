/** The map: a size and a root. Any run of sets and removals answers like a finite map of the same size. */
module TrieMap {
  import opened Options
  import opened TrieNodes
  import opened TrieUpdate
  import opened TrieLaws

  datatype Map<K, V> = Map(size: int, root: Node<K, V>)

  function EmptyMap<K, V>(): Map<K, V> { Map(0, Absent) }

  /** A root that is missing or well formed. */
  ghost predicate ValidRoot<K, V>(h: K -> Hash, n: Node<K, V>) {
    n.Absent? || Valid(h, n, [])
  }

  // ----- updating the root

  /** The trie holding `k` and the first `n` entries of a full array map. */
  function NodesOf<K(!new, ==), V(!new, ==)>(h: K -> Hash, es: seq<Entry<K, V>>, n: nat, k: K, v: V): (r: Node<K, V>)
    requires n <= |es|
    ensures ValidChild(h, r, []) && !r.Absent?
  {
    if n == 0 then Value(h(k), Entry(k, v))
    else
      var e := es[n - 1];
      var before := NodesOf(h, es, n - 1, k, v);
      UpdateValid(h, before, 0, e.key, Some(e.value));
      Update(h, before, 0, e.key, Some(e.value)).node
  }

  /** The array map used while there are at most eight entries. */
  function UpdateArrayMap<K(!new, ==), V(!new, ==)>(h: K -> Hash, es: seq<Entry<K, V>>, k: K, v: Option<V>): Outcome<K, V> {
    var c := IndexOf(es, k);
    var found := c < |es|;
    if (if found then v == Some(es[c].value) else v.None?) then Same(ArrayMap(es))
    else if v.None? && |es| == 1 then Outcome(Absent, true, true)
    else if !found && v.Some? && |es| >= MAX_ARRAY_MAP_SIZE then
      Outcome(NodesOf(h, es, |es|, k, v.value), true, true)
    else Outcome(ArrayMap(EntriesAfter(es, k, v)), true, v.None? || !found)
  }

  function UpdateRoot<K(!new, ==), V(!new, ==)>(h: K -> Hash, n: Node<K, V>, k: K, v: Option<V>): Outcome<K, V>
    requires Valid(h, n, [])
  {
    if n.ArrayMap? then UpdateArrayMap(h, n.entries, k, v) else Update(h, n, 0, k, v)
  }

  /** Setting a key (`Some`) or removing it (`None`). */
  function UpdateMap<K(!new, ==), V(!new, ==)>(h: K -> Hash, m: Map<K, V>, k: K, v: Option<V>): Map<K, V>
    requires ValidRoot(h, m.root)
  {
    if m.root.Absent? then
      if v.None? then m else Map(1, ArrayMap([Entry(k, v.value)]))
    else
      var u := UpdateRoot(h, m.root, k, v);
      if !u.altered then m
      else if u.node.Absent? then EmptyMap()
      else Map(m.size + if !u.resized then 0 else if v.None? then -1 else 1, u.node)
  }

  function GetMap<K(==), V>(h: K -> Hash, m: Map<K, V>, k: K): Option<V>
    requires ValidRoot(h, m.root)
  {
    Find(h, m.root, 0, k)
  }

  // ----- the laws at the root

  lemma NewValueGet<K(!new), V(!new)>(h: K -> Hash, k: K, v: V, k': K)
    ensures Get(h, Value(h(k), Entry(k, v)), 0, k') == if k' == k then Some(v) else None
  {
  }

  lemma {:induction false} NodesOfGet<K(!new), V(!new)>(h: K -> Hash, es: seq<Entry<K, V>>, n: nat, k: K, v: V, k': K)
    requires n <= |es| && Distinct(es) && IndexOf(es, k) == |es|
    ensures Get(h, NodesOf(h, es, n, k, v), 0, k') ==
            if IndexOf(es, k') < n then Lookup(es, k') else if k' == k then Some(v) else None
  {
    hide Get, Update, IndexOf, Valid, Lookup;
    if n == 0 {
      NewValueGet(h, k, v, k');
    } else {
      var e := es[n - 1];
      NodesOfGet(h, es, n - 1, k, v, k');
      UpdateGet(h, NodesOf(h, es, n - 1, k, v), 0, e.key, Some(e.value), k');
      LookupEntry(es, n - 1);
    }
  }

  /** An array map turns into nodes exactly when it has eight entries and a new key is set. */
  lemma KindOfArrayMap<K(!new), V(!new)>(h: K -> Hash, es: seq<Entry<K, V>>, k: K, v: Option<V>)
    requires Valid(h, ArrayMap(es), [])
    ensures var r := UpdateArrayMap(h, es, k, v).node;
            && (r.Absent? <==> v.None? && |es| == 1 && es[0].key == k)
            && (r.ArrayMap? <==> !r.Absent? && !(|es| == 8 && v.Some? && forall i :: 0 <= i < |es| ==> es[i].key != k))
  {
    hide NodesOf;
    var c := IndexOf(es, k);
  }

  /** The laws of update hold at the root as they do below it. */
  lemma UpdateArrayMapLaws<K(!new), V(!new)>(h: K -> Hash, es: seq<Entry<K, V>>, k: K, v: Option<V>, k': K)
    requires Valid(h, ArrayMap(es), [])
    ensures var u := UpdateArrayMap(h, es, k, v);
            && ValidRoot(h, u.node)
            && Find(h, u.node, 0, k') == (if k' == k then v else Lookup(es, k'))
            && Flags(u, ArrayMap(es), Lookup(es, k), v)
  {
    var u := UpdateArrayMap(h, es, k, v);
    if u.node.Absent? {
    } else if u.node.ArrayMap? {
      if u.altered { EntriesAfterLookup(es, k, v, k'); EntriesAfterLookup(es, k, v, k); }
    } else {
      NodesOfGet(h, es, |es|, k, v.value, k');
    }
  }

  lemma UpdateRootLaws<K(!new), V(!new)>(h: K -> Hash, n: Node<K, V>, k: K, v: Option<V>, k': K)
    requires Valid(h, n, [])
    ensures var u := UpdateRoot(h, n, k, v);
            && ValidRoot(h, u.node)
            && Find(h, u.node, 0, k') == (if k' == k then v else Get(h, n, 0, k'))
            && Flags(u, n, Get(h, n, 0, k), v)
  {
    if n.ArrayMap? {
      UpdateArrayMapLaws(h, n.entries, k, v, k');
    } else {
      UpdateGet(h, n, 0, k, v, k');
      UpdateFlags(h, n, 0, k, v);
    }
  }

  // ----- refinement of a finite map

  function Expected<K, V>(model: map<K, V>, k: K): Option<V> {
    if k in model then Some(model[k]) else None
  }

  function ModelUpdate<K, V>(model: map<K, V>, k: K, v: Option<V>): map<K, V> {
    if v.None? then model - {k} else model[k := v.value]
  }

  ghost predicate Represents<K(!new), V>(h: K -> Hash, m: Map<K, V>, model: map<K, V>) {
    && ValidRoot(h, m.root)
    && m.size == |model|
    && forall k :: GetMap(h, m, k) == Expected(model, k)
  }

  lemma ModelSize<K, V>(model: map<K, V>, k: K, v: Option<V>)
    ensures |ModelUpdate(model, k, v)| ==
            |model| + (if v.Some? then 1 else 0) - (if k in model then 1 else 0)
  {
    var r := ModelUpdate(model, k, v);
    if v.None? {
      assert r.Keys == model.Keys - {k};
    } else {
      assert r.Keys == model.Keys + {k};
    }
    assert |model.Keys| == |model| && |r.Keys| == |r|;
  }

  /** One set or removal on the trie is the same on the finite map it represents. */
  lemma UpdateRefines<K(!new), V(!new)>(h: K -> Hash, m: Map<K, V>, model: map<K, V>, k: K, v: Option<V>)
    requires Represents(h, m, model)
    ensures Represents(h, UpdateMap(h, m, k, v), ModelUpdate(model, k, v))
  {
    var m' := UpdateMap(h, m, k, v);
    var model' := ModelUpdate(model, k, v);
    ModelSize(model, k, v);
    assert GetMap(h, m, k) == Expected(model, k);
    forall k'
      ensures ValidRoot(h, m'.root) && GetMap(h, m', k') == Expected(model', k')
    {
      assert GetMap(h, m, k') == Expected(model, k');
      if !m.root.Absent? { UpdateRootLaws(h, m.root, k, v, k'); }
    }
    if m.root.Absent? {
      assert model == map[] by { NothingExpected(h, m, model); }
    } else {
      UpdateRootLaws(h, m.root, k, v, k);
      if m'.root.Absent? { NothingExpected(h, m', model'); }
    }
  }

  lemma NothingExpected<K(!new), V>(h: K -> Hash, m: Map<K, V>, model: map<K, V>)
    requires m.root.Absent? && forall k :: GetMap(h, m, k) == Expected(model, k)
    ensures model == map[] && |model| == 0
  {
    forall k
      ensures k !in model
    {
      assert GetMap(h, m, k) == Expected(model, k);
    }
    assert model.Keys == {};
  }

  // ----- whole runs

  datatype Operation<K, V> = Set(key: K, value: V) | Remove(key: K)

  function Effect<K, V>(op: Operation<K, V>): Option<V> {
    if op.Set? then Some(op.value) else None
  }

  function RunModel<K, V>(ops: seq<Operation<K, V>>): map<K, V> {
    if ops == [] then map[]
    else var last := ops[|ops| - 1];
      ModelUpdate(RunModel(ops[..|ops| - 1]), last.key, Effect(last))
  }

  lemma UpdateMapValid<K(!new), V(!new)>(h: K -> Hash, m: Map<K, V>, k: K, v: Option<V>)
    requires ValidRoot(h, m.root)
    ensures ValidRoot(h, UpdateMap(h, m, k, v).root)
  {
    if !m.root.Absent? { UpdateRootLaws(h, m.root, k, v, k); }
  }

  function Run<K(!new, ==), V(!new, ==)>(h: K -> Hash, ops: seq<Operation<K, V>>): (m: Map<K, V>)
    ensures ValidRoot(h, m.root)
  {
    if ops == [] then EmptyMap()
    else
      var last := ops[|ops| - 1];
      var before := Run(h, ops[..|ops| - 1]);
      UpdateMapValid(h, before, last.key, Effect(last));
      UpdateMap(h, before, last.key, Effect(last))
  }

  lemma {:induction false} RunRepresents<K(!new), V(!new)>(h: K -> Hash, ops: seq<Operation<K, V>>)
    ensures Represents(h, Run(h, ops), RunModel(ops))
  {
    hide UpdateMap, ModelUpdate;
    if ops != [] {
      var last := ops[|ops| - 1];
      RunRepresents(h, ops[..|ops| - 1]);
      UpdateRefines(h, Run(h, ops[..|ops| - 1]), RunModel(ops[..|ops| - 1]), last.key, Effect(last));
    }
  }

  /** After any sequence of sets and removals, and for any hash function, lookup and size are those of the finite map. */
  lemma {:induction false} RunRefines<K(!new), V(!new)>(h: K -> Hash, ops: seq<Operation<K, V>>, k: K)
    ensures ValidRoot(h, Run(h, ops).root)
    ensures GetMap(h, Run(h, ops), k) == Expected(RunModel(ops), k)
    ensures Run(h, ops).size == |RunModel(ops)|
  {
    RunRepresents(h, ops);
  }

  // ----- no empty nodes

  lemma {:induction false} OccupiedSome<K, V>(slots: seq<Node<K, V>>, n: nat) returns (i: nat)
    requires n <= |slots| && Occupied(slots, n) > 0
    ensures i < n && !slots[i].Absent?
  {
    if slots[n - 1].Absent? { i := OccupiedSome(slots, n - 1); } else { i := n - 1; }
  }

  /** Every well-formed node holds a key on its path. */
  lemma {:induction false} HoldsSomeKey<K, V>(h: K -> Hash, n: Node<K, V>, path: seq<nat>) returns (k: K)
    requires Valid(h, n, path)
    ensures Path(h(k), |path|) == path && Get(h, n, |path|, k).Some?
    decreases n
  {
    if n.Value? {
      k := n.entry.key;
    } else if n.ArrayMap? || n.Collision? {
      k := n.entries[0].key;
    } else {
      var i: nat;
      if n.BitmapIndexed? {
        i := PackedChild(h, n, path, 0);
      } else {
        i := OccupiedSome(n.slots, SIZE);
      }
      ValidChildren(h, n, path, i);
      k := HoldsSomeKey(h, Child(n, i), path + [i]);
      PathLast(h(k), path, i);
      GetInner(h, n, |path|, k);
    }
  }

  /** The size is zero exactly when there is no root. */
  lemma EmptyIffNoRoot<K(!new), V>(h: K -> Hash, m: Map<K, V>, model: map<K, V>)
    requires Represents(h, m, model)
    ensures m.size == 0 <==> m.root.Absent?
  {
    if m.root.Absent? {
      NothingExpected(h, m, model);
    } else {
      var k := HoldsSomeKey(h, m.root, []);
      assert GetMap(h, m, k) == Expected(model, k);
      assert k in model;
    }
  }
}
