/** The trie as the source runs it: bit tests, the popcount index, and loops that fill arrays.
    Each method is proved equal to the function whose laws are proved elsewhere. */
module TrieCode {
  import opened Bits
  import opened Options
  import opened TrieNodes
  import opened TrieShapes
  import opened TrieUpdate
  import opened TrieLaws
  import opened TrieMap

  /** `(bitmap & bit) !== 0`. */
  predicate BitmapHas(b: nat, slot: nat)
    ensures BitmapHas(b, slot) <==> Has(b, slot)
  {
    AndBit(b, slot);
    And(b, Bit(slot)) != 0
  }

  /** `popCount(bitmap & (bit - 1))`: the packed position of a slot is its rank among the set bits. */
  function BitmapIndex(b: nat, slot: nat): (i: nat)
    requires b < WORD && slot < SIZE
    ensures i == Rank(b, slot)
  {
    WordIsBit();
    AndBound(b, Bit(slot) - 1);
    CountMasked(b, slot, SIZE);
    PopCountCorrect(And(b, Bit(slot) - 1));
    PopCount(And(b, Bit(slot) - 1))
  }

  // ----- shifts and masks

  lemma {:induction false} ShiftFive(b: nat, a: nat)
    ensures ShiftRight(b, a + 5) == ShiftRight(b / 32, a)
  {
    if a > 0 {
      ShiftFive(b, a - 1);
    } else {
      assert ShiftRight(b, 0) == b;
      assert ShiftRight(b, 1) == b / 2;
      assert ShiftRight(b, 2) == b / 4;
      assert ShiftRight(b, 3) == b / 8;
      assert ShiftRight(b, 4) == b / 16;
    }
  }

  lemma {:induction false} SlotIsShifted(hash: nat, level: nat)
    ensures ShiftRight(hash, 5 * level) % 32 == Slot(hash, level)
  {
    if level > 0 {
      ShiftFive(hash, 5 * (level - 1));
      SlotIsShifted(hash / 32, level - 1);
    }
  }

  /** `(shift === 0 ? hash : hash >>> shift) & 31`. */
  function MaskedSlot(hash: nat, shift: nat): (s: nat)
    ensures s < SIZE
  {
    AndBound(if shift == 0 then hash else ShiftRight(hash, shift), 31);
    And(if shift == 0 then hash else ShiftRight(hash, shift), 31)
  }

  /** The shift and mask pick the slot of a level. */
  lemma MaskedSlotIs(hash: nat, level: nat)
    ensures MaskedSlot(hash, 5 * level) == Slot(hash, level)
  {
    hide And;
    var x := ShiftRight(hash, 5 * level);
    assert Bit(5) == 32;
    AndLow(x, 5);
    SlotIsShifted(hash, level);
  }

  /** The child in a slot, read by bit test and packed index or straight from the slot array. */
  method ReadChild<K, V>(n: Node<K, V>, slot: nat) returns (child: Node<K, V>)
    requires IsInner(n) && slot < SIZE
    ensures child == Child(n, slot)
  {
    if n.HashArray? {
      child := n.slots[slot];
    } else if BitmapHas(n.bitmap, slot) {
      RankStrict(n.bitmap, slot, SIZE);
      child := n.nodes[BitmapIndex(n.bitmap, slot)];
    } else {
      child := Absent;
    }
  }

  lemma LastAnswer<K, V>(h: K -> Hash, n: Node<K, V>, level: nat, k: K)
    requires Valid(h, n, Path(h(k), level)) && !n.BitmapIndexed? && !n.HashArray?
    ensures n.Value? || n.ArrayMap? || n.Collision?
    ensures Get(h, n, level, k) == if n.Value? then if n.entry.key == k then Some(n.entry.value) else None
                                   else Lookup(n.entries, k)
  {
  }

  /** Lookup, descending one level at a time. */
  method GetNode<K(==), V>(h: K -> Hash, root: Node<K, V>, k: K) returns (r: Option<V>)
    requires ValidRoot(h, root)
    ensures r == Find(h, root, 0, k)
  {
    hide MaskedSlot, Slot, Path, Valid, Get, Child, IsInner;
    if root.Absent? { return None; }
    var n, shift := root, 0;
    ghost var level := 0;
    assert Path(h(k), 0) == [] by { PathStart(h(k)); }
    while n.BitmapIndexed? || n.HashArray?
      invariant shift == 5 * level
      invariant Valid(h, n, Path(h(k), level)) && Get(h, n, level, k) == Find(h, root, 0, k)
      decreases n
    {
      GetInner(h, n, level, k);
      MaskedSlotIs(h(k), level);
      var child := ReadChild(n, MaskedSlot(h(k), shift));
      if child.Absent? { return None; }
      n, level, shift := child, level + 1, shift + 5;
    }
    LastAnswer(h, n, level, k);
    if n.Value? {
      r := if n.entry.key == k then Some(n.entry.value) else None;
    } else {
      var c := FindEntry(n.entries, k);
      r := if c < |n.entries| then Some(n.entries[c].value) else None;
    }
  }

  lemma PathStart(hash: nat)
    ensures Path(hash, 0) == []
  {
  }


  /** The entry list after a change: overwrite, append, or move the last entry into the hole. */
  method ChangeEntries<K(==), V>(es: seq<Entry<K, V>>, c: nat, k: K, v: Option<V>) returns (r: seq<Entry<K, V>>)
    requires c == IndexOf(es, k) && (v.None? ==> c < |es|)
    ensures r == EntriesAfter(es, k, v)
  {
    r := es;
    if c < |es| {
      if v.None? {
        var last := r[|r| - 1];
        r := r[..|r| - 1];
        if c < |es| - 1 {
          r := r[c := last];
        }
      } else {
        r := r[c := Entry(k, v.value)];
      }
    } else {
      r := r + [Entry(k, v.value)];
    }
  }

  lemma LevelsLeft(a: Hash, b: Hash, level: nat)
    requires level <= LEVELS && Path(a, level) == Path(b, level) && a != b
    ensures level < LEVELS
    ensures Slot(a, level) == Slot(b, level) ==> Path(a, level + 1) == Path(b, level + 1)
  {
    if level == LEVELS { DifferentHashesPart(a, b); }
    PathStep(a, b, level);
  }

  /** `mergeIntoNode`: bits of both slots, and another level while the slots are the same. */
  method MergeNodes<K, V>(leaf: Node<K, V>, ghost level: nat, shift: nat, hash: Hash, e: Entry<K, V>)
    returns (r: Node<K, V>)
    requires leaf.Value? || (leaf.Collision? && leaf.keyHash != hash)
    requires level <= LEVELS && shift == 5 * level && Path(leaf.keyHash, level) == Path(hash, level)
    ensures r == MergeIntoNode(leaf, level, hash, e)
    decreases LEVELS - level
  {
    hide MaskedSlot, Slot, Path, Or, Bit;
    if leaf.keyHash == hash {
      return Collision(hash, [leaf.entry, e]);
    }
    LevelsLeft(leaf.keyHash, hash, level);
    var a, b := MaskedSlot(leaf.keyHash, shift), MaskedSlot(hash, shift);
    MaskedSlotIs(leaf.keyHash, level);
    MaskedSlotIs(hash, level);
    var nodes;
    if a == b {
      var inner := MergeNodes(leaf, level + 1, shift + 5, hash, e);
      nodes := [inner];
    } else {
      var other := Value(hash, e);
      nodes := if a < b then [leaf, other] else [other, leaf];
    }
    r := BitmapIndexed(Or(Bit(a), Bit(b)), nodes);
  }

  lemma LeafPath<K, V>(h: K -> Hash, n: Node<K, V>, level: nat, k: K)
    requires IsLeaf(n) && Valid(h, n, Path(h(k), level))
    ensures Path(n.keyHash, level) == Path(h(k), level)
  {
  }

  method UpdateValue<K(==), V(==)>(h: K -> Hash, n: Node<K, V>, ghost level: nat, shift: nat, k: K, v: Option<V>)
    returns (r: Outcome<K, V>)
    requires level <= LEVELS && shift == 5 * level && Valid(h, n, Path(h(k), level)) && n.Value?
    ensures r == Update(h, n, level, k, v)
  {
    LeafPath(h, n, level, k);
    var found := n.entry.key == k;
    if (found && v == Some(n.entry.value)) || (!found && v.None?) { return Same(n); }
    if v.None? { return Outcome(Absent, true, true); }
    if found { return Outcome(Value(n.keyHash, Entry(k, v.value)), true, false); }
    var branch := MergeNodes(n, level, shift, h(k), Entry(k, v.value));
    r := Outcome(branch, true, true);
  }

  method UpdateCollision<K(==), V(==)>(h: K -> Hash, n: Node<K, V>, ghost level: nat, shift: nat, k: K, v: Option<V>)
    returns (r: Outcome<K, V>)
    requires level <= LEVELS && shift == 5 * level && Valid(h, n, Path(h(k), level)) && n.Collision?
    ensures r == Update(h, n, level, k, v)
  {
    LeafPath(h, n, level, k);
    if h(k) != n.keyHash {
      if v.None? { return Same(n); }
      var branch := MergeNodes(n, level, shift, h(k), Entry(k, v.value));
      return Outcome(branch, true, true);
    }
    var c := FindEntry(n.entries, k);
    var found := c < |n.entries|;
    if (found && v == Some(n.entries[c].value)) || (!found && v.None?) { return Same(n); }
    if v.None? && |n.entries| == 2 {
      return Outcome(Value(n.keyHash, n.entries[1 - c]), true, true);
    }
    var es := ChangeEntries(n.entries, c, k, v);
    r := Outcome(Collision(n.keyHash, es), true, v.None? || !found);
  }

  /** The packed node after its child in `slot`, at packed position `idx`, becomes `d`. */
  method ChangeBitmap<K(!new), V(!new)>(b: nat, nodes: seq<Node<K, V>>, slot: nat, idx: nat, d: Node<K, V>)
    returns (r: Node<K, V>)
    requires b < WORD && slot < SIZE && |nodes| == Rank(b, SIZE) && idx == Rank(b, slot)
    requires Has(b, slot) || !d.Absent?
    ensures r == BitmapAfter(b, nodes, slot, d)
  {
    var has := BitmapHas(b, slot);
    RankMonotone(b, slot, SIZE);
    if has { RankStrict(b, slot, SIZE); }
    if !has && !d.Absent? && |nodes| >= MAX_BITMAP_INDEXED_SIZE {
      r := ExpandNodes(nodes, b, slot, d);
    } else if has && d.Absent? && |nodes| == 2 && IsLeaf(nodes[1 - idx]) {
      r := nodes[1 - idx];
    } else if has && !d.Absent? && |nodes| == 1 && IsLeaf(d) {
      r := d;
    } else if has && !d.Absent? {
      r := BitmapIndexed(b, nodes[idx := d]);
    } else if has {
      var left := SpliceOutLoop(nodes, idx, Absent);
      r := BitmapIndexed(Xor(b, Bit(slot)), left);
    } else {
      var more := SpliceInLoop(nodes, idx, d);
      r := BitmapIndexed(Or(b, Bit(slot)), more);
    }
  }

  method ChangeHashArray<K(!new), V(!new)>(count: nat, slots: seq<Node<K, V>>, slot: nat, d: Node<K, V>)
    returns (r: Node<K, V>)
    requires |slots| == SIZE && slot < SIZE && count == Occupied(slots, SIZE)
    requires slots[slot].Absent? ==> !d.Absent?
    ensures r == HashArrayAfter(count, slots, slot, d)
  {
    var n: int := count;
    if slots[slot].Absent? {
      n := n + 1;
    } else if d.Absent? {
      OccupiedSlot(slots, slot, SIZE);
      n := n - 1;
      if n < MIN_HASH_ARRAY_MAP_SIZE {
        PackedLength(slots, slot, SIZE);
        r := PackNodes(slots, n, slot);
        return;
      }
    }
    r := HashArray(n, slots[slot := d]);
  }

  method ChangeNode<K(!new, ==), V(!new, ==)>(n: Node<K, V>, slot: nat, child: Node<K, V>, u: Outcome<K, V>)
    returns (r: Outcome<K, V>)
    requires Rebuildable(n, slot) && child == Child(n, slot) && (u.node.Absent? ==> !child.Absent?)
    ensures r == NodeAfter(n, slot, u)
  {
    if u.node == child { return Outcome(n, u.altered, u.resized); }
    var changed;
    if n.HashArray? {
      changed := ChangeHashArray(n.count, n.slots, slot, u.node);
    } else {
      changed := ChangeBitmap(n.bitmap, n.nodes, slot, BitmapIndex(n.bitmap, slot), u.node);
    }
    r := Outcome(changed, u.altered, u.resized);
  }

  /** Setting or removing a key below the root. */
  method UpdateNode<K(!new, ==), V(!new, ==)>(h: K -> Hash, n: Node<K, V>, ghost level: nat, shift: nat, k: K,
                                              v: Option<V>)
    returns (r: Outcome<K, V>)
    requires level <= LEVELS && shift == 5 * level && Valid(h, n, Path(h(k), level)) && !n.ArrayMap?
    ensures r == Update(h, n, level, k, v)
    decreases n
  {
    hide Update, UpdateLeaf, Valid, Path, Slot, MaskedSlot, Child, IsInner, Rebuildable, NodeAfter;
    PresentIfValid(h, n, Path(h(k), level));
    if n.Value? {
      r := UpdateValue(h, n, level, shift, k, v);
    } else if n.Collision? {
      r := UpdateCollision(h, n, level, shift, k, v);
    } else {
      ghost var slot', child' := InnerUpdate(h, n, level, k, v);
      var slot := MaskedSlot(h(k), shift);
      MaskedSlotIs(h(k), level);
      var child := ReadChild(n, slot);
      if child.Absent? && v.None? { return Same(n); }
      var u;
      if child.Absent? {
        u := Created(h, k, v);
      } else {
        u := UpdateNode(h, child, level + 1, shift + 5, k, v);
      }
      r := ChangeNode(n, slot, child, u);
    }
  }

  /** The trie of nine entries that replaces a full array map. */
  method CreateNodes<K(!new, ==), V(!new, ==)>(h: K -> Hash, es: seq<Entry<K, V>>, k: K, v: V) returns (r: Node<K, V>)
    ensures r == NodesOf(h, es, |es|, k, v)
  {
    r := Value(h(k), Entry(k, v));
    for i := 0 to |es|
      invariant r == NodesOf(h, es, i, k, v)
    {
      var u := UpdateNode(h, r, 0, 0, es[i].key, Some(es[i].value));
      r := u.node;
    }
  }

  /** `set` and `remove` of the map. */
  method UpdateMapNodes<K(!new, ==), V(!new, ==)>(h: K -> Hash, m: Map<K, V>, k: K, v: Option<V>) returns (r: Map<K, V>)
    requires ValidRoot(h, m.root)
    ensures r == UpdateMap(h, m, k, v)
  {
    if m.root.Absent? {
      if v.None? { return m; }
      return Map(1, ArrayMap([Entry(k, v.value)]));
    }
    var u;
    if m.root.ArrayMap? {
      var es := m.root.entries;
      var c := FindEntry(es, k);
      var found := c < |es|;
      if (found && v == Some(es[c].value)) || (!found && v.None?) {
        u := Same(m.root);
      } else if v.None? && |es| == 1 {
        u := Outcome(Absent, true, true);
      } else if !found && v.Some? && |es| >= MAX_ARRAY_MAP_SIZE {
        var trie := CreateNodes(h, es, k, v.value);
        u := Outcome(trie, true, true);
      } else {
        var es' := ChangeEntries(es, c, k, v);
        u := Outcome(ArrayMap(es'), true, v.None? || !found);
      }
    } else {
      u := UpdateNode(h, m.root, 0, 0, k, v);
    }
    if !u.altered { return m; }
    if u.node.Absent? { return EmptyMap(); }
    r := Map(m.size + if !u.resized then 0 else if v.None? then -1 else 1, u.node);
  }
}
