/** Setting and removing a key below the root: the result is well formed, answers for that key alone,
    and reports exactly the changes it made. */
module TrieLaws {
  import opened Bits
  import opened Options
  import opened TrieNodes
  import opened TrieShapes
  import opened TrieUpdate

  // ----- bitmaps with one bit more or less

  lemma {:induction false} RankOr(b: nat, slot: nat, n: nat)
    requires !Has(b, slot)
    ensures Rank(Or(b, Bit(slot)), n) == Rank(b, n) + if slot < n then 1 else 0
  {
    if n > 0 {
      RankOr(b, slot, n - 1);
      RankStep(b, n - 1);
      RankStep(Or(b, Bit(slot)), n - 1);
      HasOr(b, Bit(slot), n - 1);
      HasBit(slot, n - 1);
    }
  }

  lemma {:induction false} RankXor(b: nat, slot: nat, n: nat)
    requires Has(b, slot)
    ensures Rank(Xor(b, Bit(slot)), n) == Rank(b, n) - if slot < n then 1 else 0
  {
    if n > 0 {
      RankXor(b, slot, n - 1);
      RankStep(b, n - 1);
      RankStep(Xor(b, Bit(slot)), n - 1);
      HasXor(b, Bit(slot), n - 1);
      HasBit(slot, n - 1);
    }
  }

  lemma BitIn(slot: nat)
    requires slot < SIZE
    ensures Bit(slot) < WORD == Bit(SIZE)
  {
    WordIsBit();
    BitMonotone(slot, SIZE);
  }

  // ----- the children of a rebuilt node

  /** The part of a node below `level` that a hash with slot `i` reaches: a leaf stands for its own slot. */
  function Below<K, V>(n: Node<K, V>, level: nat, i: nat): Node<K, V>
    requires (IsInner(n) || IsLeaf(n)) && i < SIZE
  {
    if IsLeaf(n) then if Slot(n.keyHash, level) == i then n else Absent
    else Child(n, i)
  }

  /** `r` has the children of `n`, except that slot `slot` holds `d`. */
  ghost predicate ChildReplaced<K(!new), V(!new)>(n: Node<K, V>, level: nat, slot: nat, d: Node<K, V>, r: Node<K, V>) {
    && IsInner(n) && (IsInner(r) || IsLeaf(r))
    && forall i :: 0 <= i < SIZE ==> Below(r, level, i) == if i == slot then d else Child(n, i)
  }

  lemma SpliceInReplaces<K(!new), V(!new)>(b: nat, nodes: seq<Node<K, V>>, level: nat, slot: nat, d: Node<K, V>)
    requires b < WORD && |nodes| == Rank(b, SIZE) && slot < SIZE && !Has(b, slot)
    ensures Rank(b, slot) <= |nodes|
    ensures ChildReplaced(BitmapIndexed(b, nodes), level, slot, d,
                          BitmapIndexed(Or(b, Bit(slot)), SpliceIn(nodes, Rank(b, slot), d)))
  {
    RankMonotone(b, slot, SIZE);
    BitIn(slot);
    OrBound(b, Bit(slot), SIZE);
    RankOr(b, slot, SIZE);
    var n := BitmapIndexed(b, nodes);
    var r := BitmapIndexed(Or(b, Bit(slot)), SpliceIn(nodes, Rank(b, slot), d));
    forall i | 0 <= i < SIZE
      ensures Below(r, level, i) == if i == slot then d else Child(n, i)
    {
      SpliceInChild(b, nodes, slot, d, i);
    }
  }

  lemma SpliceInChild<K, V>(b: nat, nodes: seq<Node<K, V>>, slot: nat, d: Node<K, V>, i: nat)
    requires |nodes| == Rank(b, SIZE) && slot < SIZE && !Has(b, slot) && Rank(b, slot) <= |nodes|
    requires i < SIZE
    ensures var b' := Or(b, Bit(slot));
            && (Has(b', i) <==> Has(b, i) || i == slot)
            && (Has(b, i) ==> Rank(b, i) < |nodes|)
            && (Has(b', i) ==> Rank(b', i) < |nodes| + 1)
            && (Has(b', i) ==>
                  SpliceIn(nodes, Rank(b, slot), d)[Rank(b', i)] == if i == slot then d else nodes[Rank(b, i)])
  {
    HasOr(b, Bit(slot), i);
    HasBit(slot, i);
    RankOr(b, slot, i);
    if i != slot && Has(b, i) {
      RankStrict(b, i, SIZE);
      if i < slot { RankStrict(b, i, slot); } else { RankMonotone(b, slot, i); }
    }
  }

  lemma SpliceOutReplaces<K(!new), V(!new)>(b: nat, nodes: seq<Node<K, V>>, level: nat, slot: nat)
    requires b < WORD && |nodes| == Rank(b, SIZE) && slot < SIZE && Has(b, slot)
    ensures Rank(b, slot) < |nodes|
    ensures ChildReplaced(BitmapIndexed(b, nodes), level, slot, Absent,
                          BitmapIndexed(Xor(b, Bit(slot)), SpliceOut(nodes, Rank(b, slot))))
  {
    RankStrict(b, slot, SIZE);
    BitIn(slot);
    OrBound(b, Bit(slot), SIZE);
    RankXor(b, slot, SIZE);
    var n := BitmapIndexed(b, nodes);
    var r := BitmapIndexed(Xor(b, Bit(slot)), SpliceOut(nodes, Rank(b, slot)));
    forall i | 0 <= i < SIZE
      ensures Below(r, level, i) == if i == slot then Absent else Child(n, i)
    {
      SpliceOutChild(b, nodes, slot, i);
    }
  }

  lemma SpliceOutChild<K, V>(b: nat, nodes: seq<Node<K, V>>, slot: nat, i: nat)
    requires |nodes| == Rank(b, SIZE) && slot < SIZE && Has(b, slot) && Rank(b, slot) < |nodes|
    requires i < SIZE
    ensures var b' := Xor(b, Bit(slot));
            && (Has(b', i) <==> Has(b, i) && i != slot)
            && (Has(b, i) ==> Rank(b, i) < |nodes|)
            && (Has(b', i) ==> Rank(b', i) < |nodes| - 1)
            && (Has(b', i) ==> SpliceOut(nodes, Rank(b, slot))[Rank(b', i)] == nodes[Rank(b, i)])
  {
    HasXor(b, Bit(slot), i);
    HasBit(slot, i);
    RankXor(b, slot, i);
    if Has(b, i) {
      RankStrict(b, i, SIZE);
      if i < slot { RankStrict(b, i, slot); } else if slot < i { RankStrict(b, slot, i); }
    }
  }

  lemma ReplaceReplaces<K(!new), V(!new)>(b: nat, nodes: seq<Node<K, V>>, level: nat, slot: nat, d: Node<K, V>)
    requires b < WORD && |nodes| == Rank(b, SIZE) && slot < SIZE && Has(b, slot)
    ensures Rank(b, slot) < |nodes|
    ensures ChildReplaced(BitmapIndexed(b, nodes), level, slot, d, BitmapIndexed(b, nodes[Rank(b, slot) := d]))
  {
    RankStrict(b, slot, SIZE);
    var n := BitmapIndexed(b, nodes);
    var r := BitmapIndexed(b, nodes[Rank(b, slot) := d]);
    forall i | 0 <= i < SIZE
      ensures Below(r, level, i) == if i == slot then d else Child(n, i)
    {
      if i != slot && Has(b, i) {
        RankStrict(b, i, SIZE);
        if i < slot { RankStrict(b, i, slot); } else { RankStrict(b, slot, i); }
      }
    }
  }

  lemma ExpandReplaces<K(!new), V(!new)>(b: nat, nodes: seq<Node<K, V>>, level: nat, slot: nat, d: Node<K, V>, count: nat)
    requires b < WORD && |nodes| == Rank(b, SIZE) && slot < SIZE
    ensures ChildReplaced(BitmapIndexed(b, nodes), level, slot, d, HashArray(count, Expanded(nodes, b, slot, d)))
  {
  }

  lemma PackReplaces<K(!new), V(!new)>(count: nat, slots: seq<Node<K, V>>, level: nat, slot: nat)
    requires |slots| == SIZE && slot < SIZE
    ensures ChildReplaced(HashArray(count, slots), level, slot, Absent,
                          BitmapIndexed(PackedBits(slots, slot, SIZE), PackedNodes(slots, slot, SIZE)))
  {
    var b := PackedBits(slots, slot, SIZE);
    var r := BitmapIndexed(b, PackedNodes(slots, slot, SIZE));
    PackedBitsHas(slots, slot, SIZE, 0);
    WordIsBit();
    PackedNodesAt(slots, slot, SIZE, SIZE);
    forall i | 0 <= i < SIZE
      ensures Below(r, level, i) == if i == slot then Absent else slots[i]
    {
      PackedBitsHas(slots, slot, SIZE, i);
    }
  }

  // ----- counting occupied slots

  lemma {:induction false} OccupiedAfter<K, V>(slots: seq<Node<K, V>>, slot: nat, d: Node<K, V>, n: nat)
    requires slot < |slots| && n <= |slots|
    ensures Occupied(slots[slot := d], n) + (if slot < n && !slots[slot].Absent? then 1 else 0) ==
            Occupied(slots, n) + (if slot < n && !d.Absent? then 1 else 0)
  {
    if n > 0 { OccupiedAfter(slots, slot, d, n - 1); }
  }

  lemma {:induction false} OccupiedExpanded<K, V>(nodes: seq<Node<K, V>>, b: nat, slot: nat, d: Node<K, V>, n: nat)
    requires |nodes| == Rank(b, SIZE) && slot < SIZE && !Has(b, slot) && !d.Absent? && n <= SIZE
    requires forall i :: 0 <= i < |nodes| ==> !nodes[i].Absent?
    ensures Occupied(Expanded(nodes, b, slot, d), n) == Rank(b, n) + if slot < n then 1 else 0
  {
    if n > 0 {
      OccupiedExpanded(nodes, b, slot, d, n - 1);
      RankStep(b, n - 1);
      if Has(b, n - 1) { RankStrict(b, n - 1, SIZE); }
    }
  }

  lemma {:induction false} PackedLength<K, V>(slots: seq<Node<K, V>>, slot: nat, n: nat)
    requires slot < |slots| && n <= |slots| && !slots[slot].Absent?
    ensures |PackedNodes(slots, slot, n)| == Occupied(slots, n) - if slot < n then 1 else 0
  {
    if n > 0 { PackedLength(slots, slot, n - 1); }
  }

  // ----- well-formedness of a rebuilt node

  ghost predicate ChildrenValid<K, V>(h: K -> Hash, n: Node<K, V>, path: seq<nat>)
    requires IsInner(n)
  {
    forall i :: 0 <= i < SIZE ==> ValidChild(h, Child(n, i), path + [i])
  }

  lemma ReplacedChildrenValid<K(!new), V(!new)>(
    h: K -> Hash, n: Node<K, V>, path: seq<nat>, slot: nat, d: Node<K, V>, r: Node<K, V>)
    requires Valid(h, n, path) && (n.BitmapIndexed? || n.HashArray?)
    requires slot < SIZE && ValidChild(h, d, path + [slot])
    requires ChildReplaced(n, |path|, slot, d, r) && IsInner(r)
    ensures ChildrenValid(h, r, path)
  {
    forall i | 0 <= i < SIZE
      ensures ValidChild(h, Child(r, i), path + [i])
    {
      assert Below(r, |path|, i) == Child(r, i);
      ValidChildren(h, n, path, i);
    }
  }

  lemma ValidBitmap<K, V>(h: K -> Hash, r: Node<K, V>, path: seq<nat>)
    requires |path| < LEVELS && r.BitmapIndexed? && IsInner(r) && ChildrenValid(h, r, path)
    requires 1 <= |r.nodes| <= MAX_BITMAP_INDEXED_SIZE
    requires |r.nodes| == 1 ==> !IsLeaf(r.nodes[0])
    requires forall j :: 0 <= j < |r.nodes| ==> !r.nodes[j].Absent?
    ensures Valid(h, r, path)
  {
    forall i | 0 <= i < SIZE && Has(r.bitmap, i)
      ensures Rank(r.bitmap, i) < |r.nodes| && Valid(h, r.nodes[Rank(r.bitmap, i)], path + [i])
    {
      RankStrict(r.bitmap, i, SIZE);
      assert Child(r, i) == r.nodes[Rank(r.bitmap, i)];
      assert ValidChild(h, Child(r, i), path + [i]);
    }
  }

  lemma ValidHashArray<K, V>(h: K -> Hash, r: Node<K, V>, path: seq<nat>)
    requires |path| < LEVELS && r.HashArray? && IsInner(r) && ChildrenValid(h, r, path)
    requires r.count == Occupied(r.slots, SIZE) && r.count >= MIN_HASH_ARRAY_MAP_SIZE
    ensures Valid(h, r, path)
  {
    forall i | 0 <= i < SIZE
      ensures r.slots[i].Absent? || Valid(h, r.slots[i], path + [i])
    {
      assert ValidChild(h, Child(r, i), path + [i]);
    }
  }

  /** Every packed child of a well-formed node is the child of some slot. */
  lemma PackedChild<K, V>(h: K -> Hash, n: Node<K, V>, path: seq<nat>, j: nat) returns (i: nat)
    requires Valid(h, n, path) && n.BitmapIndexed? && j < |n.nodes|
    ensures i < SIZE && Has(n.bitmap, i) && Rank(n.bitmap, i) == j
    ensures Valid(h, n.nodes[j], path + [i]) && !n.nodes[j].Absent?
  {
    i := RankOnto(n.bitmap, SIZE, j);
  }

  lemma PackedChildrenPresent<K, V>(h: K -> Hash, n: Node<K, V>, path: seq<nat>)
    requires Valid(h, n, path) && n.BitmapIndexed?
    ensures forall j :: 0 <= j < |n.nodes| ==> !n.nodes[j].Absent?
  {
    forall j | 0 <= j < |n.nodes|
      ensures !n.nodes[j].Absent?
    {
      var i := PackedChild(h, n, path, j);
    }
  }

  /** The collapse of a packed node to the only leaf that remains. */
  lemma CollapseReplaces<K(!new), V(!new)>(
    h: K -> Hash, n: Node<K, V>, path: seq<nat>, slot: nat, d: Node<K, V>, r: Node<K, V>, o: nat)
    requires IsInner(n) && n.BitmapIndexed? && slot < SIZE && o < SIZE
    requires IsLeaf(r) && Valid(h, r, path + [o])
    requires forall i :: 0 <= i < SIZE && i != slot && i != o ==> !Has(n.bitmap, i)
    requires if o == slot then d == r else d.Absent? && Child(n, o) == r
    ensures Valid(h, r, path) && ChildReplaced(n, |path|, slot, d, r)
  {
    LeafLifts(h, r, path, o);
    forall i | 0 <= i < SIZE
      ensures Below(r, |path|, i) == if i == slot then d else Child(n, i)
    {
    }
  }

  /** What the rebuilding of a node may assume of the new child: only removing a leaf leaves a slot empty. */
  ghost predicate Replacement<K(!new), V(!new)>(h: K -> Hash, n: Node<K, V>, path: seq<nat>, slot: nat, d: Node<K, V>) {
    && Valid(h, n, path) && (n.BitmapIndexed? || n.HashArray?)
    && Rebuildable(n, slot)
    && ValidChild(h, d, path + [slot])
    && (d.Absent? ==> IsLeaf(Child(n, slot)))
  }

  ghost predicate Rebuilt<K(!new), V(!new)>(h: K -> Hash, n: Node<K, V>, path: seq<nat>, slot: nat, d: Node<K, V>, r: Node<K, V>) {
    Valid(h, r, path) && !r.ArrayMap? && ChildReplaced(n, |path|, slot, d, r)
  }

  lemma ExpandSpec<K(!new), V(!new)>(h: K -> Hash, n: Node<K, V>, path: seq<nat>, slot: nat, d: Node<K, V>)
    requires Replacement(h, n, path, slot, d) && n.BitmapIndexed?
    requires !Has(n.bitmap, slot) && !d.Absent? && |n.nodes| >= MAX_BITMAP_INDEXED_SIZE
    ensures Rebuilt(h, n, path, slot, d, HashArray(|n.nodes| + 1, Expanded(n.nodes, n.bitmap, slot, d)))
  {
    var r := HashArray(|n.nodes| + 1, Expanded(n.nodes, n.bitmap, slot, d));
    ExpandReplaces(n.bitmap, n.nodes, |path|, slot, d, |n.nodes| + 1);
    PackedChildrenPresent(h, n, path);
    OccupiedExpanded(n.nodes, n.bitmap, slot, d, SIZE);
    ReplacedChildrenValid(h, n, path, slot, d, r);
    ValidHashArray(h, r, path);
  }

  lemma SpliceInSpec<K(!new), V(!new)>(h: K -> Hash, n: Node<K, V>, path: seq<nat>, slot: nat, d: Node<K, V>)
    requires Replacement(h, n, path, slot, d) && n.BitmapIndexed?
    requires !Has(n.bitmap, slot) && !d.Absent? && |n.nodes| < MAX_BITMAP_INDEXED_SIZE
    ensures Rank(n.bitmap, slot) <= |n.nodes|
    ensures Rebuilt(h, n, path, slot, d,
                    BitmapIndexed(Or(n.bitmap, Bit(slot)), SpliceIn(n.nodes, Rank(n.bitmap, slot), d)))
  {
    SpliceInReplaces(n.bitmap, n.nodes, |path|, slot, d);
    var at := Rank(n.bitmap, slot);
    var r := BitmapIndexed(Or(n.bitmap, Bit(slot)), SpliceIn(n.nodes, at, d));
    PackedChildrenPresent(h, n, path);
    SpliceInPresent(n.nodes, at, d);
    hide SpliceIn, Or, Bit, Rank, Has;
    assert |r.nodes| == |n.nodes| + 1;
    ReplacedChildrenValid(h, n, path, slot, d, r);
    ValidBitmap(h, r, path);
  }

  lemma SpliceInPresent<K, V>(nodes: seq<Node<K, V>>, at: nat, d: Node<K, V>)
    requires at <= |nodes| && !d.Absent? && forall j :: 0 <= j < |nodes| ==> !nodes[j].Absent?
    ensures |SpliceIn(nodes, at, d)| == |nodes| + 1
    ensures forall j :: 0 <= j <= |nodes| ==> !SpliceIn(nodes, at, d)[j].Absent?
  {
  }

  lemma ReplaceSpec<K(!new), V(!new)>(h: K -> Hash, n: Node<K, V>, path: seq<nat>, slot: nat, d: Node<K, V>)
    requires Replacement(h, n, path, slot, d) && n.BitmapIndexed?
    requires Has(n.bitmap, slot) && !d.Absent? && (|n.nodes| == 1 ==> !IsLeaf(d))
    ensures Rank(n.bitmap, slot) < |n.nodes|
    ensures Rebuilt(h, n, path, slot, d, BitmapIndexed(n.bitmap, n.nodes[Rank(n.bitmap, slot) := d]))
  {
    ReplaceReplaces(n.bitmap, n.nodes, |path|, slot, d);
    var r := BitmapIndexed(n.bitmap, n.nodes[Rank(n.bitmap, slot) := d]);
    PackedChildrenPresent(h, n, path);
    ReplacedChildrenValid(h, n, path, slot, d, r);
    ValidBitmap(h, r, path);
  }

  lemma SpliceOutSpec<K(!new), V(!new)>(h: K -> Hash, n: Node<K, V>, path: seq<nat>, slot: nat)
    requires Replacement(h, n, path, slot, Absent) && n.BitmapIndexed? && Has(n.bitmap, slot)
    requires Rank(n.bitmap, slot) < |n.nodes|
    requires |n.nodes| >= 2 && (|n.nodes| == 2 ==> !IsLeaf(n.nodes[1 - Rank(n.bitmap, slot)]))
    ensures Rebuilt(h, n, path, slot, Absent,
                    BitmapIndexed(Xor(n.bitmap, Bit(slot)), SpliceOut(n.nodes, Rank(n.bitmap, slot))))
  {
    SpliceOutReplaces(n.bitmap, n.nodes, |path|, slot);
    var r := BitmapIndexed(Xor(n.bitmap, Bit(slot)), SpliceOut(n.nodes, Rank(n.bitmap, slot)));
    PackedChildrenPresent(h, n, path);
    ReplacedChildrenValid(h, n, path, slot, Absent, r);
    ValidBitmap(h, r, path);
  }

  /** With two children, removing one leaves the other. */
  lemma LastLeafSpec<K(!new), V(!new)>(h: K -> Hash, n: Node<K, V>, path: seq<nat>, slot: nat)
    requires Replacement(h, n, path, slot, Absent) && n.BitmapIndexed? && Has(n.bitmap, slot)
    requires |n.nodes| == 2 && Rank(n.bitmap, slot) < 2 && IsLeaf(n.nodes[1 - Rank(n.bitmap, slot)])
    ensures Rebuilt(h, n, path, slot, Absent, n.nodes[1 - Rank(n.bitmap, slot)])
  {
    var leaf := n.nodes[1 - Rank(n.bitmap, slot)];
    var o := PackedChild(h, n, path, 1 - Rank(n.bitmap, slot));
    assert Child(n, o) == leaf && IsInner(n) && slot < SIZE;
    assert Valid(h, leaf, path + [o]);
    hide Valid, ChildReplaced, Rank, Has, Bit, Child, IsInner, Replacement, Rebuildable, ValidChild;
    OnlyTwoBits(n.bitmap, slot, o);
    CollapseReplaces(h, n, path, slot, Absent, leaf, o);
  }

  lemma OnlyTwoBits(b: nat, slot: nat, o: nat)
    requires slot < SIZE && o < SIZE && slot != o && Has(b, slot) && Has(b, o) && Rank(b, SIZE) == 2
    ensures forall i :: 0 <= i < SIZE && i != slot && i != o ==> !Has(b, i)
  {
    forall i | 0 <= i < SIZE && i != slot && i != o
      ensures !Has(b, i)
    {
      if Has(b, i) {
        RankStrict(b, i, SIZE);
        RankStrict(b, slot, SIZE);
        RankStrict(b, o, SIZE);
        DistinctRanks(b, i, slot);
        DistinctRanks(b, i, o);
        DistinctRanks(b, slot, o);
      }
    }
  }

  lemma DistinctRanks(b: nat, i: nat, j: nat)
    requires i != j && Has(b, i) && Has(b, j)
    ensures Rank(b, i) != Rank(b, j)
  {
    if i < j { RankStrict(b, i, j); } else { RankStrict(b, j, i); }
  }

  /** A chain node whose only child becomes a leaf is replaced by that leaf. */
  lemma ChainLeafSpec<K(!new), V(!new)>(h: K -> Hash, n: Node<K, V>, path: seq<nat>, slot: nat, d: Node<K, V>)
    requires Replacement(h, n, path, slot, d) && n.BitmapIndexed? && Has(n.bitmap, slot)
    requires |n.nodes| == 1 && IsLeaf(d)
    ensures Rebuilt(h, n, path, slot, d, d)
  {
    forall i | 0 <= i < SIZE && i != slot
      ensures !Has(n.bitmap, i)
    {
      if Has(n.bitmap, i) {
        RankStrict(n.bitmap, i, SIZE);
        RankStrict(n.bitmap, slot, SIZE);
        DistinctRanks(n.bitmap, i, slot);
      }
    }
    CollapseReplaces(h, n, path, slot, d, d, slot);
  }

  /** A child that is a leaf is never the only one. */
  lemma LeafHasSibling<K(!new), V(!new)>(h: K -> Hash, n: Node<K, V>, path: seq<nat>, slot: nat)
    requires Replacement(h, n, path, slot, Absent) && n.BitmapIndexed?
    ensures Has(n.bitmap, slot) && |n.nodes| >= 2 && Rank(n.bitmap, slot) < |n.nodes|
  {
  }

  lemma BitmapRemoveSpec<K(!new), V(!new)>(h: K -> Hash, n: Node<K, V>, path: seq<nat>, slot: nat)
    requires Replacement(h, n, path, slot, Absent) && n.BitmapIndexed?
    requires Has(n.bitmap, slot)
    ensures Rebuilt(h, n, path, slot, Absent, BitmapAfter(n.bitmap, n.nodes, slot, Absent))
  {
    LeafHasSibling(h, n, path, slot);
    hide Valid, ChildReplaced, Has, Bit, Rank, Rebuilt, SpliceOut, Replacement;
    if |n.nodes| == 2 && IsLeaf(n.nodes[1 - Rank(n.bitmap, slot)]) {
      LastLeafSpec(h, n, path, slot);
    } else {
      SpliceOutSpec(h, n, path, slot);
    }
  }

  lemma BitmapAfterSpec<K(!new), V(!new)>(h: K -> Hash, n: Node<K, V>, path: seq<nat>, slot: nat, d: Node<K, V>)
    requires Replacement(h, n, path, slot, d) && n.BitmapIndexed?
    requires Has(n.bitmap, slot) || !d.Absent?
    ensures Rebuilt(h, n, path, slot, d, BitmapAfter(n.bitmap, n.nodes, slot, d))
  {
    hide Valid, ChildReplaced, Has, Bit, Rank, Rebuilt, SpliceIn, SpliceOut, Expanded;
    if d.Absent? {
      BitmapRemoveSpec(h, n, path, slot);
    } else if Has(n.bitmap, slot) {
      if |n.nodes| == 1 && IsLeaf(d) {
        ChainLeafSpec(h, n, path, slot, d);
      } else {
        ReplaceSpec(h, n, path, slot, d);
      }
    } else if |n.nodes| >= MAX_BITMAP_INDEXED_SIZE {
      ExpandSpec(h, n, path, slot, d);
    } else {
      SpliceInSpec(h, n, path, slot, d);
    }
  }

  lemma HashArrayAfterSpec<K(!new), V(!new)>(h: K -> Hash, n: Node<K, V>, path: seq<nat>, slot: nat, d: Node<K, V>)
    requires Replacement(h, n, path, slot, d) && n.HashArray?
    requires n.slots[slot].Absent? ==> !d.Absent?
    ensures Rebuilt(h, n, path, slot, d, HashArrayAfter(n.count, n.slots, slot, d))
  {
    var r := HashArrayAfter(n.count, n.slots, slot, d);
    OccupiedAfter(n.slots, slot, d, SIZE);
    if r.HashArray? {
      assert ChildReplaced(n, |path|, slot, d, r);
      ReplacedChildrenValid(h, n, path, slot, d, r);
      ValidHashArray(h, r, path);
    } else {
      PackReplaces(n.count, n.slots, |path|, slot);
      PackedLength(n.slots, slot, SIZE);
      PackedPresent(n.slots, slot, SIZE);
      ReplacedChildrenValid(h, n, path, slot, d, r);
      ValidBitmap(h, r, path);
    }
  }

  lemma {:induction false} PackedPresent<K, V>(slots: seq<Node<K, V>>, slot: nat, n: nat)
    requires n <= |slots|
    ensures forall j :: 0 <= j < |PackedNodes(slots, slot, n)| ==> !PackedNodes(slots, slot, n)[j].Absent?
  {
    if n > 0 { PackedPresent(slots, slot, n - 1); }
  }

  /** Rebuilding an inner node keeps it well formed and changes one child. */
  lemma NodeAfterSpec<K(!new), V(!new)>(h: K -> Hash, n: Node<K, V>, path: seq<nat>, slot: nat, u: Outcome<K, V>)
    requires Replacement(h, n, path, slot, u.node)
    ensures Rebuilt(h, n, path, slot, u.node, NodeAfter(n, slot, u).node)
    ensures NodeAfter(n, slot, u).node == n <==> u.node == Child(n, slot)
  {
    var d := u.node;
    var r := NodeAfter(n, slot, u).node;
    if d == Child(n, slot) {
      assert ChildReplaced(n, |path|, slot, d, n);
    } else if n.BitmapIndexed? {
      BitmapAfterSpec(h, n, path, slot, d);
    } else {
      HashArrayAfterSpec(h, n, path, slot, d);
    }
    assert Below(r, |path|, slot) == d;
  }

  // ----- branching a leaf

  lemma {:induction false} RankBit(a: nat, n: nat)
    ensures Rank(Bit(a), n) == if a < n then 1 else 0
  {
    if n > 0 {
      RankBit(a, n - 1);
      RankStep(Bit(a), n - 1);
      HasBit(a, n - 1);
    }
  }

  lemma {:induction false} OrSelf(x: nat)
    ensures Or(x, x) == x
  {
    if x > 0 { OrSelf(x / 2); }
  }

  lemma BranchBits(a: nat, b: nat, n: nat)
    requires a < SIZE && b < SIZE
    ensures var x := Or(Bit(a), Bit(b));
            && x < WORD
            && (Has(x, n) <==> n == a || n == b)
            && Rank(x, n) == (if a < n then 1 else 0) + (if b < n && b != a then 1 else 0)
  {
    BitIn(a);
    BitIn(b);
    OrBound(Bit(a), Bit(b), SIZE);
    HasOr(Bit(a), Bit(b), n);
    HasBit(a, n);
    HasBit(b, n);
    HasBit(a, b);
    RankBit(a, n);
    if a == b { OrSelf(Bit(a)); } else { RankOr(Bit(a), b, n); }
  }

  /** The children of a branch over one or two slots. */
  lemma BranchChildren<K, V>(a: nat, b: nat, nodes: seq<Node<K, V>>, i: nat)
    requires a < SIZE && b < SIZE && i < SIZE
    requires |nodes| == if a == b then 1 else 2
    ensures var n := BitmapIndexed(Or(Bit(a), Bit(b)), nodes);
            && IsInner(n)
            && Child(n, i) == if i == a then nodes[if a <= b then 0 else 1]
                              else if i == b then nodes[if a < b then 1 else 0] else Absent
  {
    BranchBits(a, b, i);
    BranchBits(a, b, SIZE);
  }

  lemma BranchValid<K, V>(h: K -> Hash, a: nat, b: nat, nodes: seq<Node<K, V>>, path: seq<nat>)
    requires |path| < LEVELS && a < SIZE && b < SIZE
    requires |nodes| == if a == b then 1 else 2
    requires ValidChild(h, nodes[if a <= b then 0 else 1], path + [a])
    requires ValidChild(h, nodes[if a < b then 1 else 0], path + [b])
    requires forall j :: 0 <= j < |nodes| ==> !nodes[j].Absent?
    requires |nodes| == 1 ==> !IsLeaf(nodes[0])
    ensures Valid(h, BitmapIndexed(Or(Bit(a), Bit(b)), nodes), path)
  {
    hide Or, Bit, Rank, Has, Child, Valid;
    var n := BitmapIndexed(Or(Bit(a), Bit(b)), nodes);
    BranchChildren(a, b, nodes, a);
    forall i | 0 <= i < SIZE
      ensures ValidChild(h, Child(n, i), path + [i])
    {
      BranchChildren(a, b, nodes, i);
    }
    ValidBitmap(h, n, path);
  }

  // ----- which kind of node comes out

  /** The sizes that well-formed nodes have. */
  lemma SizesOfNodes<K, V>(h: K -> Hash, n: Node<K, V>, path: seq<nat>)
    requires Valid(h, n, path)
    ensures n.ArrayMap? ==> 1 <= |n.entries| <= 8
    ensures n.BitmapIndexed? ==> 1 <= |n.nodes| <= 16 && n.bitmap < 0x1_0000_0000
    ensures n.HashArray? ==> |n.slots| == 32 && 8 <= n.count <= 32
    ensures n.Collision? ==> |n.entries| >= 2
  {
    if n.HashArray? { OccupiedAtMost(n.slots, SIZE); }
  }

  lemma {:induction false} OccupiedAtMost<K, V>(slots: seq<Node<K, V>>, n: nat)
    requires n <= |slots|
    ensures Occupied(slots, n) <= n
  {
    if n > 0 { OccupiedAtMost(slots, n - 1); }
  }

  /** A packed node is spread out exactly when it has sixteen children and gets one more. It gives way to a leaf exactly
      when one of two children goes and the other is a leaf, or when its only child becomes one. */
  lemma KindOfPacked<K, V>(b: nat, nodes: seq<Node<K, V>>, slot: nat, d: Node<K, V>)
    requires b < WORD && slot < SIZE && 1 <= |nodes| <= 16 && |nodes| == Rank(b, SIZE)
    requires Has(b, slot) || !d.Absent?
    ensures var r := BitmapAfter(b, nodes, slot, d);
            if !Has(b, slot) then if |nodes| == 16 then r.HashArray? else r.BitmapIndexed?
            else
              (RanksInRange(b);
              if d.Absent? && |nodes| == 2 && IsLeaf(nodes[1 - Rank(b, slot)]) then r == nodes[1 - Rank(b, slot)]
              else if !d.Absent? && |nodes| == 1 && IsLeaf(d) then r == d
              else r.BitmapIndexed?)
  {
    hide Expanded, SpliceIn, SpliceOut, Rank, Has, Xor, Or, Bit;
    RanksInRange(b);
    RankMonotone(b, slot, SIZE);
  }

  /** A slot array is packed exactly when it has eight children and loses one. */
  lemma KindOfSlots<K, V>(count: nat, slots: seq<Node<K, V>>, slot: nat, d: Node<K, V>)
    requires |slots| == SIZE && slot < SIZE && count == Occupied(slots, SIZE) && count >= 8
    requires slots[slot].Absent? ==> !d.Absent?
    ensures var r := HashArrayAfter(count, slots, slot, d);
            if !slots[slot].Absent? && d.Absent? && count == 8 then r.BitmapIndexed?
            else r.HashArray? && r.count == count - (if slots[slot].Absent? then 0 else 1) + if d.Absent? then 0 else 1
  {
    hide PackedBits, PackedNodes, Occupied;
  }

  /** Merging a leaf with an entry of another key yields a well-formed node. */
  lemma {:induction false} MergeValid<K, V>(h: K -> Hash, leaf: Node<K, V>, level: nat, hash: Hash, e: Entry<K, V>)
    requires level <= LEVELS && IsLeaf(leaf) && Valid(h, leaf, Path(hash, level)) && hash == h(e.key)
    requires (leaf.Value? && leaf.entry.key != e.key) || (leaf.Collision? && leaf.keyHash != hash)
    ensures Valid(h, MergeIntoNode(leaf, level, hash, e), Path(hash, level))
    decreases LEVELS - level
  {
    hide Or, Bit, Rank, Has, Child, IsInner, Slot;
    if leaf.keyHash != hash {
      var a := Slot(leaf.keyHash, level);
      var b := Slot(hash, level);
      PathStep(leaf.keyHash, hash, level);
      if level == LEVELS {
        DifferentHashesPart(leaf.keyHash, hash);
      } else {
        var path := Path(hash, level);
        assert Path(leaf.keyHash, level + 1) == path + [a] && Path(hash, level + 1) == path + [b];
        if a == b {
          MergeValid(h, leaf, level + 1, hash, e);
          BranchValid(h, a, b, [MergeIntoNode(leaf, level + 1, hash, e)], path);
        } else {
          assert Valid(h, leaf, path + [a]) && Valid(h, Value(hash, e), path + [b]);
          BranchValid(h, a, b, if a < b then [leaf, Value(hash, e)] else [Value(hash, e), leaf], path);
        }
      }
    }
  }

  /** One level of branching asks the child in the key's slot. */
  lemma BranchGet<K, V>(h: K -> Hash, leaf: Node<K, V>, level: nat, hash: Hash, e: Entry<K, V>, k': K, c: Node<K, V>)
    requires level < LEVELS && IsLeaf(leaf) && Path(leaf.keyHash, level) == Path(hash, level)
    requires leaf.keyHash != hash && Path(h(k'), level) == Path(hash, level)
    requires Valid(h, MergeIntoNode(leaf, level, hash, e), Path(hash, level))
    requires var a, b, i := Slot(leaf.keyHash, level), Slot(hash, level), Slot(h(k'), level);
             c == if i == a && a == b then PathStep(leaf.keyHash, hash, level); MergeIntoNode(leaf, level + 1, hash, e)
                  else if i == a then leaf else if i == b then Value(hash, e) else Absent
    ensures ValidChild(h, c, Path(h(k'), level + 1))
    ensures Get(h, MergeIntoNode(leaf, level, hash, e), level, k') == Find(h, c, level + 1, k')
  {
    hide Or, Bit, Rank, Has, Child, IsInner, Valid, Get, Find, ValidChild;
    var a, b, i := Slot(leaf.keyHash, level), Slot(hash, level), Slot(h(k'), level);
    var r := MergeIntoNode(leaf, level, hash, e);
    BranchChildren(a, b, r.nodes, i);
    GetInner(h, r, level, k');
  }

  lemma PairLookup<K, V>(a: Entry<K, V>, b: Entry<K, V>, k: K)
    requires a.key != b.key
    ensures Lookup([a, b], k) == if k == b.key then Some(b.value) else if k == a.key then Some(a.value) else None
  {
    assert [a, b] == [a] + [b];
    AppendLookup([a], b, k);
  }

  /** Merging a leaf with a new entry answers for the new key and for the leaf's keys. */
  lemma {:induction false} MergeGet<K, V>(h: K -> Hash, leaf: Node<K, V>, level: nat, hash: Hash, e: Entry<K, V>, k': K)
    requires level <= LEVELS && IsLeaf(leaf) && Valid(h, leaf, Path(hash, level)) && hash == h(e.key)
    requires (leaf.Value? && leaf.entry.key != e.key) || (leaf.Collision? && leaf.keyHash != hash)
    requires Path(h(k'), level) == Path(hash, level)
    ensures Valid(h, MergeIntoNode(leaf, level, hash, e), Path(hash, level))
    ensures Get(h, MergeIntoNode(leaf, level, hash, e), level, k') ==
            if k' == e.key then Some(e.value) else Get(h, leaf, level, k')
    decreases LEVELS - level
  {
    hide Or, Bit, Rank, Has, Child, IsInner, Slot, Lookup, IndexOf, Distinct;
    MergeValid(h, leaf, level, hash, e);
    if leaf.keyHash == hash {
      PairLookup(leaf.entry, e, k');
    } else {
      var a, b, i := Slot(leaf.keyHash, level), Slot(hash, level), Slot(h(k'), level);
      PathStep(leaf.keyHash, hash, level);
      PathStep(leaf.keyHash, h(k'), level);
      PathStep(h(k'), hash, level);
      LeafGet(h, leaf, level, level + 1, k');
      if level == LEVELS {
        assert false;
      } else if i == a && a == b {
        BranchGet(h, leaf, level, hash, e, k', MergeIntoNode(leaf, level + 1, hash, e));
        MergeGet(h, leaf, level + 1, hash, e, k');
      } else {
        BranchGet(h, leaf, level, hash, e, k', if i == a then leaf else if i == b then Value(hash, e) else Absent);
      }
    }
  }

  // ----- the laws of update

  /** A leaf stays well formed, or goes away exactly when its only key is removed. */
  lemma LeafUpdateValid<K, V>(h: K -> Hash, n: Node<K, V>, level: nat, k: K, v: Option<V>)
    requires level <= LEVELS && Valid(h, n, Path(h(k), level)) && IsLeaf(n)
    ensures var r := UpdateLeaf(h, n, level, k, v).node;
            && (r.Absent? <==> n.Value? && n.entry.key == k && v.None?)
            && ValidChild(h, r, Path(h(k), level))
  {
    var r := UpdateLeaf(h, n, level, k, v).node;
    if r.BitmapIndexed? || (n.Value? && r.Collision?) {
      MergeValid(h, n, level, h(k), Entry(k, v.value));
    } else if n.Collision? && r != n {
      var c := IndexOf(n.entries, k);
      if r.Collision? { EntriesAfterKeys(h, n.entries, k, v, n.keyHash); }
    }
  }

  lemma EntriesAfterKeys<K, V>(h: K -> Hash, es: seq<Entry<K, V>>, k: K, v: Option<V>, kh: Hash)
    requires Distinct(es) && h(k) == kh && (forall i :: 0 <= i < |es| ==> h(es[i].key) == kh)
    requires v.None? ==> IndexOf(es, k) < |es|
    ensures var r := EntriesAfter(es, k, v);
            && Distinct(r)
            && |r| == |es| + (if v.None? then -1 else if IndexOf(es, k) < |es| then 0 else 1)
            && forall i :: 0 <= i < |r| ==> h(r[i].key) == kh
  {
    EntriesAfterLookup(es, k, v, k);
  }

  /** A leaf answers for the updated key alone. */
  lemma LeafUpdateGet<K, V>(h: K -> Hash, n: Node<K, V>, level: nat, k: K, v: Option<V>, k': K)
    requires level <= LEVELS && Valid(h, n, Path(h(k), level)) && IsLeaf(n)
    requires Path(h(k'), level) == Path(h(k), level)
    ensures ValidChild(h, UpdateLeaf(h, n, level, k, v).node, Path(h(k), level))
    ensures Find(h, UpdateLeaf(h, n, level, k, v).node, level, k') == if k' == k then v else Get(h, n, level, k')
  {
    LeafUpdateValid(h, n, level, k, v);
    var r := UpdateLeaf(h, n, level, k, v).node;
    if r != n && !r.Absent? {
      if r.BitmapIndexed? || (n.Value? && r.Collision?) {
        MergeGet(h, n, level, h(k), Entry(k, v.value), k');
      } else if n.Collision? {
        EntriesAfterLookup(n.entries, k, v, k');
      }
    }
  }

  /** The flags of a leaf update: `altered` iff the lookup of the key changes, `resized` iff its presence does. */
  lemma LeafUpdateFlags<K, V>(h: K -> Hash, n: Node<K, V>, level: nat, k: K, v: Option<V>)
    requires level <= LEVELS && Valid(h, n, Path(h(k), level)) && IsLeaf(n)
    ensures var r := UpdateLeaf(h, n, level, k, v);
            && (r.altered <==> Get(h, n, level, k) != v)
            && (r.resized <==> Get(h, n, level, k).Some? != v.Some?)
            && (r.altered <==> r.node != n)
  {
    LeafUpdateGet(h, n, level, k, v, k);
    LeafGet(h, n, level, level, k);
  }

  /** The update of a child, or of an empty slot: the source's `updateNode`. */
  function ChildUpdate<K(==), V(==)>(h: K -> Hash, c: Node<K, V>, level: nat, k: K, v: Option<V>): Outcome<K, V>
    requires level <= LEVELS && ValidChild(h, c, Path(h(k), level))
  {
    if c.Absent? then Created(h, k, v) else Update(h, c, level, k, v)
  }

  /** Nothing happens below this node: the key to remove is not there. */
  predicate NothingToRemove<K, V>(h: K -> Hash, n: Node<K, V>, level: nat, k: K, v: Option<V>)
    requires IsInner(n)
  {
    Child(n, Slot(h(k), level)).Absent? && v.None?
  }

  lemma UpdateOfLeaf<K, V>(h: K -> Hash, n: Node<K, V>, level: nat, k: K, v: Option<V>)
    requires level <= LEVELS && Valid(h, n, Path(h(k), level)) && IsLeaf(n)
    ensures Update(h, n, level, k, v) == UpdateLeaf(h, n, level, k, v)
  {
  }

  lemma PresentIfValid<K, V>(h: K -> Hash, n: Node<K, V>, path: seq<nat>)
    requires Valid(h, n, path)
    ensures !n.Absent?
  {
  }

  /** One level of the recursion. */
  lemma InnerUpdate<K, V>(h: K -> Hash, n: Node<K, V>, level: nat, k: K, v: Option<V>)
    returns (slot: nat, child: Node<K, V>)
    requires level <= LEVELS && Valid(h, n, Path(h(k), level)) && (n.BitmapIndexed? || n.HashArray?)
    ensures level < LEVELS && IsInner(n) && slot == Slot(h(k), level) && child == Child(n, slot)
    ensures Path(h(k), level + 1) == Path(h(k), level) + [slot]
    ensures Rebuildable(n, slot)
    ensures ValidChild(h, child, Path(h(k), level + 1)) && (child.Absent? || child < n)
    ensures Update(h, n, level, k, v) ==
            if NothingToRemove(h, n, level, k, v) then Same(n)
            else NodeAfter(n, slot, ChildUpdate(h, child, level + 1, k, v))
  {
    SlotChild(h, n, level, k);
    slot := Slot(h(k), level);
    child := Child(n, slot);
  }

  lemma InnerUpdateRebuilds<K(!new), V(!new)>(
    h: K -> Hash, n: Node<K, V>, level: nat, slot: nat, child: Node<K, V>, u: Outcome<K, V>, path: seq<nat>)
    requires Valid(h, n, path) && (n.BitmapIndexed? || n.HashArray?)
    requires Rebuildable(n, slot) && child == Child(n, slot)
    requires ValidChild(h, u.node, path + [slot]) && (u.node.Absent? ==> IsLeaf(child))
    ensures var r := NodeAfter(n, slot, u);
            && Rebuilt(h, n, path, slot, u.node, r.node)
            && (r.node == n <==> u.node == child)
            && r.altered == u.altered && r.resized == u.resized
  {
    hide Valid, Child, IsInner, Rebuildable, Rebuilt, ValidChild;
    NodeAfterSpec(h, n, path, slot, u);
  }

  /** The laws of update where there is no node yet. */
  lemma CreatedLaws<K, V>(h: K -> Hash, level: nat, k: K, v: Option<V>, k': K)
    requires level <= LEVELS && Path(h(k'), level) == Path(h(k), level)
    ensures var u := Created(h, k, v);
            && ValidChild(h, u.node, Path(h(k), level))
            && Find(h, u.node, level, k') == (if k' == k then v else None)
            && (u.altered <==> v.Some?) && (u.resized <==> v.Some?)
            && (u.node.Absent? <==> v.None?)
  {
  }

  /** A node below the root stays well formed, or goes away exactly when it was the removed key's value node. */
  lemma {:induction false} UpdateValid<K(!new), V(!new)>(h: K -> Hash, n: Node<K, V>, level: nat, k: K, v: Option<V>)
    requires level <= LEVELS && Valid(h, n, Path(h(k), level)) && !n.ArrayMap?
    ensures var r := Update(h, n, level, k, v).node;
            && (r.Absent? <==> n.Value? && n.entry.key == k && v.None?)
            && ValidChild(h, r, Path(h(k), level))
    decreases n
  {
    hide Update, UpdateLeaf, Path, Slot, Rebuildable, Valid, Created, NodeAfter, Get, Child, IsInner;
    PresentIfValid(h, n, Path(h(k), level));
    if IsLeaf(n) {
      UpdateOfLeaf(h, n, level, k, v);
      LeafUpdateValid(h, n, level, k, v);
    } else {
      var slot, child := InnerUpdate(h, n, level, k, v);
      if child.Absent? { CreatedLaws(h, level + 1, k, v, k); } else { UpdateValid(h, child, level + 1, k, v); }
      if !NothingToRemove(h, n, level, k, v) {
        InnerUpdateRebuilds(h, n, level, slot, child, ChildUpdate(h, child, level + 1, k, v), Path(h(k), level));
      }
    }
  }

  /** Asking a node below the root is asking what it holds below its level for the key's slot. */
  lemma GetBelow<K, V>(h: K -> Hash, r: Node<K, V>, level: nat, k: K)
    requires level < LEVELS && Valid(h, r, Path(h(k), level)) && !r.ArrayMap?
    ensures IsInner(r) || IsLeaf(r)
    ensures ValidChild(h, Below(r, level, Slot(h(k), level)), Path(h(k), level + 1))
    ensures Get(h, r, level, k) == Find(h, Below(r, level, Slot(h(k), level)), level + 1, k)
  {
    if IsLeaf(r) {
      PathStep(r.keyHash, h(k), level);
      LeafGet(h, r, level, level + 1, k);
    } else {
      GetInner(h, r, level, k);
    }
  }

  /** A rebuilt node asks the new child in the replaced slot and the old children elsewhere. */
  lemma RebuiltGet<K(!new), V(!new)>(h: K -> Hash, n: Node<K, V>, level: nat, slot: nat, d: Node<K, V>, r: Node<K, V>, k: K)
    requires level < LEVELS && IsInner(n) && Rebuilt(h, n, Path(h(k), level), slot, d, r)
    ensures var c := if Slot(h(k), level) == slot then d else Child(n, Slot(h(k), level));
            ValidChild(h, c, Path(h(k), level + 1)) && Get(h, r, level, k) == Find(h, c, level + 1, k)
  {
    hide Valid, Slot, Path, Child, IsInner, Below;
    GetBelow(h, r, level, k);
  }

  /** The laws of an update, for the key `k'` that shares the path so far. */
  ghost predicate Answers<K, V>(h: K -> Hash, u: Outcome<K, V>, before: Option<V>, level: nat, k: K, v: Option<V>, k': K) {
    && ValidChild(h, u.node, Path(h(k'), level))
    && Find(h, u.node, level, k') == if k' == k then v else before
  }

  ghost predicate Flags<K, V(!new)>(u: Outcome<K, V>, node: Node<K, V>, before: Option<V>, v: Option<V>) {
    && (u.altered <==> before != v)
    && (u.resized <==> before.Some? != v.Some?)
    && (u.altered <==> u.node != node)
  }

  /** What an inner node answers follows from what its child answers. */
  lemma InnerAnswers<K(!new), V(!new)>(
    h: K -> Hash, n: Node<K, V>, level: nat, slot: nat, child: Node<K, V>, u: Outcome<K, V>, k: K, v: Option<V>, k': K)
    requires level < LEVELS && Valid(h, n, Path(h(k'), level)) && (n.BitmapIndexed? || n.HashArray?)
    requires Rebuildable(n, slot) && child == Child(n, slot) && slot == Slot(h(k), level)
    requires ValidChild(h, child, Path(h(k'), level) + [slot])
    requires ValidChild(h, u.node, Path(h(k'), level) + [slot]) && (u.node.Absent? ==> IsLeaf(child))
    requires Slot(h(k'), level) == slot ==>
               Path(h(k'), level + 1) == Path(h(k'), level) + [slot] &&
               Answers(h, u, Find(h, child, level + 1, k'), level + 1, k, v, k')
    ensures Answers(h, NodeAfter(n, slot, u), Get(h, n, level, k'), level, k, v, k')
  {
    hide Valid, Path, Slot, Child, IsInner, Rebuildable, Get, NodeAfter, Rebuilt, ChildReplaced;
    InnerUpdateRebuilds(h, n, level, slot, child, u, Path(h(k'), level));
    GetInner(h, n, level, k');
    RebuiltValid(h, n, Path(h(k'), level), slot, u.node, NodeAfter(n, slot, u).node);
    RebuiltGet(h, n, level, slot, u.node, NodeAfter(n, slot, u).node, k');
  }

  lemma RebuiltValid<K(!new), V(!new)>(h: K -> Hash, n: Node<K, V>, path: seq<nat>, slot: nat, d: Node<K, V>, r: Node<K, V>)
    requires Rebuilt(h, n, path, slot, d, r)
    ensures ValidChild(h, r, path) && !r.Absent?
  {
  }

  /** An update answers for the updated key alone. */
  lemma {:induction false} UpdateGet<K(!new), V(!new)>(
    h: K -> Hash, n: Node<K, V>, level: nat, k: K, v: Option<V>, k': K)
    requires level <= LEVELS && Valid(h, n, Path(h(k), level)) && !n.ArrayMap?
    requires Path(h(k'), level) == Path(h(k), level)
    ensures Answers(h, Update(h, n, level, k, v), Get(h, n, level, k'), level, k, v, k')
    decreases n
  {
    hide Update, UpdateLeaf, Path, Slot, Rebuildable, Valid, Created, NodeAfter, Get, Child, IsInner;
    PresentIfValid(h, n, Path(h(k), level));
    if IsLeaf(n) {
      UpdateOfLeaf(h, n, level, k, v);
      LeafUpdateGet(h, n, level, k, v, k');
    } else {
      var slot, child := InnerUpdate(h, n, level, k, v);
      PathStep(h(k'), h(k), level);
      if child.Absent? { CreatedLaws(h, level + 1, k, v, k); } else { UpdateValid(h, child, level + 1, k, v); }
      if Slot(h(k'), level) == slot {
        if child.Absent? { CreatedLaws(h, level + 1, k, v, k'); } else { UpdateGet(h, child, level + 1, k, v, k'); }
      }
      if NothingToRemove(h, n, level, k, v) {
        GetInner(h, n, level, k');
      } else {
        InnerAnswers(h, n, level, slot, child, ChildUpdate(h, child, level + 1, k, v), k, v, k');
      }
    }
  }

  /** What an inner node reports follows from what its child reports. */
  lemma InnerFlags<K(!new), V(!new)>(
    h: K -> Hash, n: Node<K, V>, level: nat, slot: nat, child: Node<K, V>, u: Outcome<K, V>, k: K, v: Option<V>)
    requires level < LEVELS && Valid(h, n, Path(h(k), level)) && (n.BitmapIndexed? || n.HashArray?)
    requires Rebuildable(n, slot) && child == Child(n, slot) && slot == Slot(h(k), level)
    requires Path(h(k), level + 1) == Path(h(k), level) + [slot]
    requires ValidChild(h, child, Path(h(k), level + 1))
    requires ValidChild(h, u.node, Path(h(k), level) + [slot]) && (u.node.Absent? ==> IsLeaf(child))
    requires Flags(u, child, Find(h, child, level + 1, k), v)
    ensures Flags(NodeAfter(n, slot, u), n, Get(h, n, level, k), v)
  {
    hide Valid, Path, Slot, Child, IsInner, Rebuildable, Get, NodeAfter, Rebuilt, ChildReplaced;
    InnerUpdateRebuilds(h, n, level, slot, child, u, Path(h(k), level));
    GetInner(h, n, level, k);
  }

  /** The flags tell exactly what changed. */
  lemma {:induction false} UpdateFlags<K(!new), V(!new)>(h: K -> Hash, n: Node<K, V>, level: nat, k: K, v: Option<V>)
    requires level <= LEVELS && Valid(h, n, Path(h(k), level)) && !n.ArrayMap?
    ensures Flags(Update(h, n, level, k, v), n, Get(h, n, level, k), v)
    decreases n
  {
    hide Update, UpdateLeaf, Path, Slot, Rebuildable, Valid, Created, NodeAfter, Get, Child, IsInner;
    PresentIfValid(h, n, Path(h(k), level));
    if IsLeaf(n) {
      UpdateOfLeaf(h, n, level, k, v);
      LeafUpdateFlags(h, n, level, k, v);
    } else {
      var slot, child := InnerUpdate(h, n, level, k, v);
      if child.Absent? {
        CreatedLaws(h, level + 1, k, v, k);
      } else {
        UpdateValid(h, child, level + 1, k, v);
        UpdateFlags(h, child, level + 1, k, v);
      }
      if NothingToRemove(h, n, level, k, v) {
        GetInner(h, n, level, k);
      } else {
        InnerFlags(h, n, level, slot, child, ChildUpdate(h, child, level + 1, k, v), k, v);
      }
    }
  }
}
