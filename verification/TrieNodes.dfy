/** The five node kinds of the persistent hash trie, what makes a node well formed, and lookup. */
module TrieNodes {
  import opened Bits
  import opened Options

  /** A 32-bit hash, read as an unsigned number. */
  type Hash = h: int | 0 <= h < 0x1_0000_0000

  const SIZE: nat := 32                    // children per node: `1 << 5`
  const WORD: nat := 0x1_0000_0000         // bitmaps are 32-bit words
  const LEVELS: nat := 7                   // levels at shifts 0, 5, ..., 30
  const MAX_ARRAY_MAP_SIZE: nat := 8       // SIZE / 4
  const MAX_BITMAP_INDEXED_SIZE: nat := 16 // SIZE / 2
  const MIN_HASH_ARRAY_MAP_SIZE: nat := 8  // SIZE / 4

  datatype Entry<K, V> = Entry(key: K, value: V)

  /** `Absent` is the source's `undefined`: no node. */
  datatype Node<K, V> =
    | Absent
    | ArrayMap(entries: seq<Entry<K, V>>)
    | BitmapIndexed(bitmap: nat, nodes: seq<Node<K, V>>)
    | HashArray(count: nat, slots: seq<Node<K, V>>)
    | Collision(keyHash: Hash, entries: seq<Entry<K, V>>)
    | Value(keyHash: Hash, entry: Entry<K, V>)

  lemma WordIsBit()
    ensures Bit(SIZE) == WORD
  {
    BitValues();
  }

  predicate IsLeaf<K, V>(n: Node<K, V>) { n.Value? || n.Collision? }

  // ----- hash paths

  /** `(hash >>> 5 * level) & 31`. */
  function Slot(hash: nat, level: nat): (s: nat)
    ensures s < SIZE
  {
    if level == 0 then hash % 32 else Slot(hash / 32, level - 1)
  }

  /** The slots a hash goes through on the way down to `level`. */
  function Path(hash: nat, level: nat): (p: seq<nat>)
    ensures |p| == level
  {
    if level == 0 then [] else Path(hash, level - 1) + [Slot(hash, level - 1)]
  }

  lemma PathStep(a: nat, b: nat, level: nat)
    ensures Path(a, level + 1) == Path(b, level + 1) <==> Path(a, level) == Path(b, level) && Slot(a, level) == Slot(b, level)
  {
    assert Path(a, level + 1)[..level] == Path(a, level);
    assert Path(b, level + 1)[..level] == Path(b, level);
    assert Path(a, level + 1)[level] == Slot(a, level);
    assert Path(b, level + 1)[level] == Slot(b, level);
  }

  lemma {:induction false} PathSlot(hash: nat, level: nat, l: nat)
    requires l < level
    ensures Path(hash, level)[l] == Slot(hash, l)
  {
    if l < level - 1 { PathSlot(hash, level - 1, l); }
  }

  lemma PathLast(hash: nat, path: seq<nat>, i: nat)
    requires path + [i] == Path(hash, |path| + 1)
    ensures path == Path(hash, |path|) && Slot(hash, |path|) == i
  {
    assert path == (path + [i])[..|path|] == Path(hash, |path| + 1)[..|path|] == Path(hash, |path|);
    assert i == (path + [i])[|path|];
  }

  function Power32(n: nat): nat { if n == 0 then 1 else 32 * Power32(n - 1) }

  lemma {:induction false} SlotsDetermine(a: nat, b: nat, n: nat)
    requires a < Power32(n) && b < Power32(n)
    requires forall l :: 0 <= l < n ==> Slot(a, l) == Slot(b, l)
    ensures a == b
  {
    if n > 0 {
      assert Slot(a, 0) == Slot(b, 0);
      forall l | 0 <= l < n - 1
        ensures Slot(a / 32, l) == Slot(b / 32, l)
      {
        assert Slot(a, l + 1) == Slot(b, l + 1);
      }
      SlotsDetermine(a / 32, b / 32, n - 1);
    }
  }

  /** Two different 32-bit hashes part ways at one of the seven levels. */
  lemma DifferentHashesPart(a: Hash, b: Hash)
    requires Path(a, LEVELS) == Path(b, LEVELS)
    ensures a == b
  {
    assert Power32(7) == 32 * 32 * 32 * 32 * 32 * 32 * 32 by {
      assert Power32(4) == 32 * 32 * 32 * 32;
    }
    forall l | 0 <= l < LEVELS
      ensures Slot(a, l) == Slot(b, l)
    {
      PathSlot(a, LEVELS, l);
      PathSlot(b, LEVELS, l);
    }
    SlotsDetermine(a, b, LEVELS);
  }

  // ----- entry lists

  predicate Distinct<K(==), V>(es: seq<Entry<K, V>>) {
    forall i, j :: 0 <= i < j < |es| ==> es[i].key != es[j].key
  }

  /** The position of the first entry with key `k`, or the length of the list. */
  function IndexOf<K(==), V>(es: seq<Entry<K, V>>, k: K): (c: nat)
    ensures c <= |es|
    ensures c < |es| ==> es[c].key == k
    ensures forall j :: 0 <= j < c ==> es[j].key != k
  {
    if es == [] then 0 else if es[0].key == k then 0 else 1 + IndexOf(es[1..], k)
  }

  function Lookup<K(==), V>(es: seq<Entry<K, V>>, k: K): Option<V> {
    var c := IndexOf(es, k);
    if c < |es| then Some(es[c].value) else None
  }

  /** The entries without the one at `c`, which the last one replaces. */
  function Dropped<K, V>(es: seq<Entry<K, V>>, c: nat): (r: seq<Entry<K, V>>)
    requires c < |es|
    ensures |r| == |es| - 1
    ensures forall i :: 0 <= i < |r| ==> r[i] == es[if i == c then |es| - 1 else i]
  {
    if c == |es| - 1 then es[..c] else es[c := es[|es| - 1]][..|es| - 1]
  }

  /** The entries after setting (`Some`) or removing (`None`) key `k`. */
  function EntriesAfter<K(==), V>(es: seq<Entry<K, V>>, k: K, v: Option<V>): seq<Entry<K, V>>
    requires v.None? ==> IndexOf(es, k) < |es|
  {
    var c := IndexOf(es, k);
    if v.None? then Dropped(es, c)
    else if c < |es| then es[c := Entry(k, v.value)]
    else es + [Entry(k, v.value)]
  }

  lemma LookupEntry<K, V>(es: seq<Entry<K, V>>, i: nat)
    requires Distinct(es) && i < |es|
    ensures IndexOf(es, es[i].key) == i && Lookup(es, es[i].key) == Some(es[i].value)
  {
    var c := IndexOf(es, es[i].key);
    assert !(c < i) && !(i < c);
  }

  lemma DroppedDistinct<K, V>(es: seq<Entry<K, V>>, c: nat)
    requires Distinct(es) && c < |es|
    ensures Distinct(Dropped(es, c))
  {
    hide Dropped;
  }

  lemma DropLookup<K, V>(es: seq<Entry<K, V>>, c: nat, k': K)
    requires Distinct(es) && c < |es|
    ensures Distinct(Dropped(es, c))
    ensures Lookup(Dropped(es, c), k') == if k' == es[c].key then None else Lookup(es, k')
  {
    hide Dropped, IndexOf;
    var r := Dropped(es, c);
    DroppedDistinct(es, c);
    var d := IndexOf(es, k');
    if d < |es| && d != c { LookupEntry(r, if d == |es| - 1 then c else d); }
  }

  lemma ReplaceLookup<K, V>(es: seq<Entry<K, V>>, c: nat, v: V, k': K)
    requires Distinct(es) && c < |es|
    ensures var es' := es[c := Entry(es[c].key, v)];
            Distinct(es') && Lookup(es', k') == if k' == es[c].key then Some(v) else Lookup(es, k')
  {
    var es' := es[c := Entry(es[c].key, v)];
    var d := IndexOf(es, k');
    if d < |es| {
      LookupEntry(es', d);
      LookupEntry(es, c);
    }
  }

  lemma AppendLookup<K, V>(es: seq<Entry<K, V>>, e: Entry<K, V>, k': K)
    requires Distinct(es) && IndexOf(es, e.key) == |es|
    ensures Distinct(es + [e])
    ensures Lookup(es + [e], k') == if k' == e.key then Some(e.value) else Lookup(es, k')
  {
    var es' := es + [e];
    var d := IndexOf(es, k');
    if d < |es| {
      LookupEntry(es', d);
    } else if k' == e.key {
      LookupEntry(es', |es|);
    }
  }

  /** Setting or removing a key changes the lookup of that key only, and keeps the keys distinct. */
  lemma EntriesAfterLookup<K, V>(es: seq<Entry<K, V>>, k: K, v: Option<V>, k': K)
    requires Distinct(es)
    requires v.None? ==> IndexOf(es, k) < |es|
    ensures Distinct(EntriesAfter(es, k, v))
    ensures Lookup(EntriesAfter(es, k, v), k') == if k' == k then v else Lookup(es, k')
  {
    hide Distinct, Lookup, IndexOf;
    var c := IndexOf(es, k);
    if v.None? {
      DropLookup(es, c, k');
    } else if c < |es| {
      ReplaceLookup(es, c, v.value, k');
    } else {
      AppendLookup(es, Entry(k, v.value), k');
    }
  }

  // ----- well-formed nodes

  /** The number of occupied slots among the first `n`. */
  function Occupied<K, V>(slots: seq<Node<K, V>>, n: nat): nat
    requires n <= |slots|
  {
    if n == 0 then 0 else Occupied(slots, n - 1) + if slots[n - 1].Absent? then 0 else 1
  }

  /** A node reached along `path`: sizes and counters are right, every key lies on its own hash path,
      and a chain node with one child never holds a leaf. */
  ghost predicate Valid<K, V>(h: K -> Hash, n: Node<K, V>, path: seq<nat>)
    decreases n
  {
    && |path| <= LEVELS
    && match n
       case Absent => false
       case ArrayMap(es) => path == [] && 0 < |es| <= MAX_ARRAY_MAP_SIZE && Distinct(es)
       case BitmapIndexed(b, nodes) =>
         && |path| < LEVELS
         && b < WORD
         && 1 <= |nodes| <= MAX_BITMAP_INDEXED_SIZE
         && |nodes| == Rank(b, SIZE)
         && (|nodes| == 1 ==> !IsLeaf(nodes[0]))
         && forall i :: 0 <= i < SIZE && Has(b, i) ==>
              Rank(b, i) < |nodes| && Valid(h, nodes[Rank(b, i)], path + [i])
       case HashArray(count, slots) =>
         && |path| < LEVELS
         && |slots| == SIZE
         && count == Occupied(slots, SIZE)
         && count >= MIN_HASH_ARRAY_MAP_SIZE
         && forall i :: 0 <= i < SIZE ==> slots[i].Absent? || Valid(h, slots[i], path + [i])
       case Collision(kh, es) =>
         && path == Path(kh, |path|)
         && |es| >= 2 && Distinct(es)
         && forall i :: 0 <= i < |es| ==> h(es[i].key) == kh
       case Value(kh, e) =>
         path == Path(kh, |path|) && h(e.key) == kh
  }

  /** No node, or a well-formed one below the root. */
  ghost predicate ValidChild<K, V>(h: K -> Hash, n: Node<K, V>, path: seq<nat>) {
    n.Absent? || (Valid(h, n, path) && !n.ArrayMap?)
  }

  predicate IsInner<K, V>(n: Node<K, V>) {
    (n.BitmapIndexed? && n.bitmap < WORD && |n.nodes| == Rank(n.bitmap, SIZE)) ||
    (n.HashArray? && |n.slots| == SIZE)
  }

  /** The child of an inner node in slot `i`. */
  function Child<K, V>(n: Node<K, V>, i: nat): (c: Node<K, V>)
    requires IsInner(n) && i < SIZE
    ensures c.Absent? || c < n
  {
    if n.HashArray? then n.slots[i]
    else if Has(n.bitmap, i) then
      RankStrict(n.bitmap, i, SIZE);
      n.nodes[Rank(n.bitmap, i)]
    else Absent
  }

  // ----- lookup

  /** The child of a well-formed inner node on a key's path. */
  lemma SlotChild<K, V>(h: K -> Hash, n: Node<K, V>, level: nat, k: K)
    requires Valid(h, n, Path(h(k), level)) && (n.BitmapIndexed? || n.HashArray?)
    ensures level < LEVELS && IsInner(n)
    ensures ValidChild(h, Child(n, Slot(h(k), level)), Path(h(k), level + 1))
    ensures n.HashArray? ==> n.count == Occupied(n.slots, SIZE)
    ensures n.BitmapIndexed? && Child(n, Slot(h(k), level)).Absent? ==> !Has(n.bitmap, Slot(h(k), level))
  {
    ValidChildren(h, n, Path(h(k), level), Slot(h(k), level));
  }

  function Get<K(==), V>(h: K -> Hash, n: Node<K, V>, level: nat, k: K): Option<V>
    requires Valid(h, n, Path(h(k), level))
    decreases n
  {
    if n.ArrayMap? || n.Collision? then Lookup(n.entries, k)
    else if n.Value? then if n.entry.key == k then Some(n.entry.value) else None
    else
      SlotChild(h, n, level, k);
      var c := Child(n, Slot(h(k), level));
      if c.Absent? then None else Get(h, c, level + 1, k)
  }

  /** Lookup where there may be no node. */
  function Find<K(==), V>(h: K -> Hash, n: Node<K, V>, level: nat, k: K): Option<V>
    requires n.Absent? || Valid(h, n, Path(h(k), level))
  {
    if n.Absent? then None else Get(h, n, level, k)
  }

  lemma ValidChildren<K, V>(h: K -> Hash, n: Node<K, V>, path: seq<nat>, i: nat)
    requires Valid(h, n, path) && (n.BitmapIndexed? || n.HashArray?) && i < SIZE
    ensures |path| < LEVELS && IsInner(n) && ValidChild(h, Child(n, i), path + [i])
  {
  }

  /** An inner node answers what its child on the key's path answers. */
  lemma GetInner<K, V>(h: K -> Hash, n: Node<K, V>, level: nat, k: K)
    requires Valid(h, n, Path(h(k), level)) && (n.BitmapIndexed? || n.HashArray?)
    ensures IsInner(n) && ValidChild(h, Child(n, Slot(h(k), level)), Path(h(k), level + 1))
    ensures Get(h, n, level, k) == Find(h, Child(n, Slot(h(k), level)), level + 1, k)
  {
    SlotChild(h, n, level, k);
  }

  /** A leaf only finds keys with its own hash, at whatever level it is asked. */
  lemma LeafGet<K, V>(h: K -> Hash, n: Node<K, V>, level: nat, level': nat, k: K)
    requires IsLeaf(n) && Valid(h, n, Path(h(k), level))
    ensures h(k) != n.keyHash ==> Get(h, n, level, k) == None
    ensures Valid(h, n, Path(h(k), level')) ==> Get(h, n, level', k) == Get(h, n, level, k)
  {
  }

  /** A leaf that is well formed further down its path is well formed higher up. */
  lemma LeafLifts<K, V>(h: K -> Hash, n: Node<K, V>, path: seq<nat>, i: nat)
    requires IsLeaf(n) && Valid(h, n, path + [i])
    ensures Valid(h, n, path) && Slot(n.keyHash, |path|) == i
  {
    PathLast(n.keyHash, path, i);
  }
}
