/** Setting and removing a key in the trie, without an owner: every changed node is rebuilt. */
module TrieUpdate {
  import opened Bits
  import opened Options
  import opened TrieNodes
  import opened TrieShapes

  /** The updated node, and the source's two flags: did anything change, did the number of entries change. */
  datatype Outcome<K, V> = Outcome(node: Node<K, V>, altered: bool, resized: bool)

  function Same<K, V>(n: Node<K, V>): Outcome<K, V> { Outcome(n, false, false) }

  // ----- branching a leaf

  /** Puts a leaf and a new entry under common ancestors until their hashes part. */
  function MergeIntoNode<K, V>(leaf: Node<K, V>, level: nat, hash: Hash, e: Entry<K, V>): (r: Node<K, V>)
    requires leaf.Value? || (leaf.Collision? && leaf.keyHash != hash)
    requires level <= LEVELS && Path(leaf.keyHash, level) == Path(hash, level)
    ensures r.Collision? <==> leaf.keyHash == hash
    ensures r.Collision? || r.BitmapIndexed?
    decreases LEVELS - level
  {
    if leaf.keyHash == hash then Collision(hash, [leaf.entry, e])
    else
      var a := Slot(leaf.keyHash, level);
      var b := Slot(hash, level);
      PathStep(leaf.keyHash, hash, level);
      if level == LEVELS then DifferentHashesPart(leaf.keyHash, hash); leaf
      else
        BitmapIndexed(Or(Bit(a), Bit(b)),
                      if a == b then [MergeIntoNode(leaf, level + 1, hash, e)]
                      else if a < b then [leaf, Value(hash, e)] else [Value(hash, e), leaf])
  }

  // ----- rebuilding an inner node around a changed child

  /** A packed node whose child in `slot` becomes `d`. */
  function BitmapAfter<K, V>(b: nat, nodes: seq<Node<K, V>>, slot: nat, d: Node<K, V>): Node<K, V>
    requires b < WORD && slot < SIZE && |nodes| == Rank(b, SIZE)
    requires Has(b, slot) || !d.Absent?
  {
    var has := Has(b, slot);
    var idx := Rank(b, slot);
    RanksInRange(b);
    RankMonotone(b, slot, SIZE);
    if !has && !d.Absent? && |nodes| >= MAX_BITMAP_INDEXED_SIZE then
      HashArray(|nodes| + 1, Expanded(nodes, b, slot, d))
    else if has && d.Absent? && |nodes| == 2 && IsLeaf(nodes[1 - idx]) then nodes[1 - idx]
    else if has && !d.Absent? && |nodes| == 1 && IsLeaf(d) then d
    else if has then
      if d.Absent? then BitmapIndexed(Xor(b, Bit(slot)), SpliceOut(nodes, idx))
      else BitmapIndexed(b, nodes[idx := d])
    else BitmapIndexed(Or(b, Bit(slot)), SpliceIn(nodes, idx, d))
  }

  /** A slot array whose child in `slot` becomes `d`. */
  function HashArrayAfter<K, V>(count: nat, slots: seq<Node<K, V>>, slot: nat, d: Node<K, V>): Node<K, V>
    requires |slots| == SIZE && slot < SIZE
    requires count == Occupied(slots, SIZE)
    requires slots[slot].Absent? ==> !d.Absent?
  {
    if slots[slot].Absent? then HashArray(count + 1, slots[slot := d])
    else if !d.Absent? then HashArray(count, slots[slot := d])
    else
      OccupiedSlot(slots, slot, SIZE);
      if count - 1 < MIN_HASH_ARRAY_MAP_SIZE then
        BitmapIndexed(PackedBits(slots, slot, SIZE), PackedNodes(slots, slot, SIZE))
      else HashArray(count - 1, slots[slot := d])
  }

  lemma {:induction false} OccupiedSlot<K, V>(slots: seq<Node<K, V>>, slot: nat, n: nat)
    requires slot < n <= |slots| && !slots[slot].Absent?
    ensures Occupied(slots, n) >= 1
  {
    if slot < n - 1 { OccupiedSlot(slots, slot, n - 1); }
  }

  // ----- update

  /** Setting a key where there is no node yet. */
  function Created<K, V>(h: K -> Hash, k: K, v: Option<V>): (r: Outcome<K, V>)
    ensures r.node.Absent? ==> v.None?
  {
    if v.None? then Same(Absent) else Outcome(Value(h(k), Entry(k, v.value)), true, true)
  }

  /** A leaf after setting key `k` to `v`, or removing it when `v` is `None`. */
  function UpdateLeaf<K(==), V(==)>(h: K -> Hash, n: Node<K, V>, level: nat, k: K, v: Option<V>): (r: Outcome<K, V>)
    requires level <= LEVELS && Valid(h, n, Path(h(k), level)) && IsLeaf(n)
    ensures r.node.Absent? ==> v.None?
  {
    match n
    case Value(kh, e) =>
      if (if e.key == k then v == Some(e.value) else v.None?) then Same(n)
      else if v.None? then Outcome(Absent, true, true)
      else if e.key == k then Outcome(Value(kh, Entry(k, v.value)), true, false)
      else Outcome(MergeIntoNode(n, level, h(k), Entry(k, v.value)), true, true)
    case Collision(kh, es) =>
      if h(k) != kh then
        if v.None? then Same(n)
        else Outcome(MergeIntoNode(n, level, h(k), Entry(k, v.value)), true, true)
      else
        var c := IndexOf(es, k);
        var found := c < |es|;
        if (if found then v == Some(es[c].value) else v.None?) then Same(n)
        else if v.None? && |es| == 2 then Outcome(Value(kh, es[1 - c]), true, true)
        else Outcome(Collision(kh, EntriesAfter(es, k, v)), true, v.None? || !found)
  }

  /** What rebuilding an inner node relies on. */
  predicate Rebuildable<K, V>(n: Node<K, V>, slot: nat) {
    && IsInner(n) && slot < SIZE
    && (n.HashArray? ==> n.count == Occupied(n.slots, SIZE))
    && (n.BitmapIndexed? && Child(n, slot).Absent? ==> !Has(n.bitmap, slot))
  }

  /** An inner node after the outcome `u` for its child in `slot`. */
  function NodeAfter<K(==), V(==)>(n: Node<K, V>, slot: nat, u: Outcome<K, V>): (r: Outcome<K, V>)
    requires Rebuildable(n, slot)
    ensures !r.node.Absent?
  {
    var child := Child(n, slot);
    if u.node == child then Outcome(n, u.altered, u.resized)
    else if n.BitmapIndexed? then Outcome(BitmapAfter(n.bitmap, n.nodes, slot, u.node), u.altered, u.resized)
    else Outcome(HashArrayAfter(n.count, n.slots, slot, u.node), u.altered, u.resized)
  }

  /** A node below the root after setting key `k` to `v`, or removing it when `v` is `None`. */
  function Update<K(==), V(==)>(h: K -> Hash, n: Node<K, V>, level: nat, k: K, v: Option<V>): Outcome<K, V>
    requires level <= LEVELS && Valid(h, n, Path(h(k), level)) && !n.ArrayMap?
    decreases n
  {
    if IsLeaf(n) then UpdateLeaf(h, n, level, k, v)
    else
      var slot := Slot(h(k), level);
      SlotChild(h, n, level, k);
      var child := Child(n, slot);
      if child.Absent? && v.None? then Same(n)
      else NodeAfter(n, slot, if child.Absent? then Created(h, k, v) else Update(h, child, level + 1, k, v))
  }
}
