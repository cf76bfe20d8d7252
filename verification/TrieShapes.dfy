/** The steps that rebuild one inner node: splicing a packed child list, expanding a packed node
    into a slot array, packing a slot array back, and branching a leaf. Each loop of the source is a
    method proved against the function that says what it builds. */
module TrieShapes {
  import opened Bits
  import opened TrieNodes

  function SpliceIn<T>(nodes: seq<T>, at: nat, d: T): seq<T>
    requires at <= |nodes|
  {
    nodes[..at] + [d] + nodes[at..]
  }

  function SpliceOut<T>(nodes: seq<T>, at: nat): seq<T>
    requires at < |nodes|
  {
    nodes[..at] + nodes[at + 1..]
  }

  lemma RanksInRange(b: nat)
    ensures forall i: nat :: i < SIZE && Has(b, i) ==> Rank(b, i) < Rank(b, SIZE)
  {
    forall i: nat | i < SIZE && Has(b, i)
      ensures Rank(b, i) < Rank(b, SIZE)
    {
      RankStrict(b, i, SIZE);
    }
  }

  /** The child a packed node holds for slot `i`. */
  function Unpacked<K, V>(nodes: seq<Node<K, V>>, b: nat, i: nat): Node<K, V>
    requires |nodes| == Rank(b, SIZE) && i < SIZE
  {
    if Has(b, i) then RankStrict(b, i, SIZE); nodes[Rank(b, i)] else Absent
  }

  /** The slot array of a packed node, with `d` put into `slot`. */
  function Expanded<K, V>(nodes: seq<Node<K, V>>, b: nat, slot: nat, d: Node<K, V>): (r: seq<Node<K, V>>)
    requires |nodes| == Rank(b, SIZE)
    ensures |r| == SIZE
    ensures forall i :: 0 <= i < SIZE ==> r[i] == if i == slot then d else Unpacked(nodes, b, i)
  {
    seq(SIZE, i requires 0 <= i < SIZE => if i == slot then d else Unpacked(nodes, b, i))
  }

  /** Whether packing keeps slot `i`, leaving out the slot being removed. */
  predicate Kept<K, V>(slots: seq<Node<K, V>>, skip: nat, i: nat)
    requires i < |slots|
  {
    !slots[i].Absent? && i != skip
  }

  function PackedBits<K, V>(slots: seq<Node<K, V>>, skip: nat, n: nat): nat
    requires n <= |slots|
  {
    if n == 0 then 0
    else if Kept(slots, skip, n - 1) then Or(PackedBits(slots, skip, n - 1), Bit(n - 1))
    else PackedBits(slots, skip, n - 1)
  }

  function PackedNodes<K, V>(slots: seq<Node<K, V>>, skip: nat, n: nat): seq<Node<K, V>>
    requires n <= |slots|
  {
    if n == 0 then []
    else PackedNodes(slots, skip, n - 1) + if Kept(slots, skip, n - 1) then [slots[n - 1]] else []
  }

  /** The packed bitmap has exactly the bits of the kept slots. */
  lemma {:induction false} PackedBitsHas<K, V>(slots: seq<Node<K, V>>, skip: nat, n: nat, i: nat)
    requires n <= |slots|
    ensures Has(PackedBits(slots, skip, n), i) <==> i < n && Kept(slots, skip, i)
    ensures PackedBits(slots, skip, n) < Bit(n)
  {
    if n == 0 {
      HasZero(i);
    } else {
      PackedBitsHas(slots, skip, n - 1, i);
      if Kept(slots, skip, n - 1) {
        HasOr(PackedBits(slots, skip, n - 1), Bit(n - 1), i);
        HasBit(n - 1, i);
        OrBound(PackedBits(slots, skip, n - 1), Bit(n - 1), n);
      }
    }
  }

  /** The child of slot `i` is found in the packed list at the rank of its bit. */
  lemma {:induction false} PackedNodesAt<K, V>(slots: seq<Node<K, V>>, skip: nat, n: nat, m: nat)
    requires m <= n <= |slots|
    ensures |PackedNodes(slots, skip, m)| == Rank(PackedBits(slots, skip, n), m)
    ensures forall i :: 0 <= i < m && Kept(slots, skip, i) ==>
              Rank(PackedBits(slots, skip, n), i) < |PackedNodes(slots, skip, m)| &&
              PackedNodes(slots, skip, m)[Rank(PackedBits(slots, skip, n), i)] == slots[i]
    decreases m
  {
    if m > 0 {
      PackedNodesAt(slots, skip, n, m - 1);
      PackedBitsHas(slots, skip, n, m - 1);
      RankStep(PackedBits(slots, skip, n), m - 1);
    }
  }

  // ----- the source's loops

  /** Linear search for a key. */
  method FindEntry<K(==), V>(es: seq<Entry<K, V>>, k: K) returns (c: nat)
    ensures c == IndexOf(es, k)
  {
    c := 0;
    while c < |es| && es[c].key != k
      invariant c <= |es|
      invariant forall j :: 0 <= j < c ==> es[j].key != k
    {
      c := c + 1;
    }
    var d := IndexOf(es, k);
    assert !(c < d) && !(d < c);
  }

  method SpliceInLoop<T>(nodes: seq<T>, at: nat, d: T) returns (r: seq<T>)
    requires at <= |nodes|
    ensures r == SpliceIn(nodes, at, d)
  {
    var out := new T[|nodes| + 1](_ => d);
    var after := 0;
    for i := 0 to |nodes| + 1
      invariant after == if i > at then -1 else 0
      invariant forall j :: 0 <= j < i ==> out[j] == SpliceIn(nodes, at, d)[j]
    {
      if i == at {
        out[i] := d;
        after := -1;
      } else {
        out[i] := nodes[i + after];
      }
    }
    r := out[..];
  }

  method SpliceOutLoop<T>(nodes: seq<T>, at: nat, hole: T) returns (r: seq<T>)
    requires at < |nodes|
    ensures r == SpliceOut(nodes, at)
  {
    var out := new T[|nodes| - 1](_ => hole);
    var after := 0;
    for i := 0 to |nodes| - 1
      invariant after == if i > at then 1 else 0
      invariant forall j :: 0 <= j < i ==> out[j] == SpliceOut(nodes, at)[j]
    {
      if i == at {
        after := 1;
      }
      out[i] := nodes[i + after];
    }
    r := out[..];
  }

  /** Bit `a` of `b` is the lowest bit of `b >>> a`. */
  function ShiftRight(b: nat, a: nat): nat {
    if a == 0 then b else ShiftRight(b, a - 1) / 2
  }

  lemma {:induction false} ShiftRightHas(b: nat, a: nat, i: nat)
    ensures Has(ShiftRight(b, a), i) == Has(b, a + i)
  {
    if a > 0 { ShiftRightHas(b, a - 1, i + 1); }
  }

  lemma {:induction false} ZeroShiftHasNoBits(b: nat, a: nat, i: nat)
    requires ShiftRight(b, a) == 0 && a <= i
    ensures !Has(b, i)
  {
    ShiftRightHas(b, a, i - a);
    HasZero(i - a);
  }

  lemma {:induction false} ShiftRightBound(b: nat, a: nat, n: nat)
    requires b < Bit(n) && a <= n
    ensures ShiftRight(b, a) < Bit(n - a)
  {
    if a > 0 { ShiftRightBound(b, a - 1, n); }
  }

  /** The expansion of a full packed node: the loop stops as soon as no bit is left. */
  method ExpandNodes<K, V>(nodes: seq<Node<K, V>>, bitmap: nat, slot: nat, d: Node<K, V>) returns (r: Node<K, V>)
    requires bitmap < WORD && |nodes| == Rank(bitmap, SIZE) && slot < SIZE && !Has(bitmap, slot)
    ensures r == HashArray(|nodes| + 1, Expanded(nodes, bitmap, slot, d))
  {
    var slots := new Node<K, V>[SIZE](_ => Absent);
    var n, a, count := bitmap, 0, 0;
    assert Rank(bitmap, 0) == 0 && ShiftRight(bitmap, 0) == bitmap;
    hide Rank, ShiftRight, Bit, Unpacked, Has;
    while n != 0
      invariant a <= SIZE && n == ShiftRight(bitmap, a) && count == Rank(bitmap, a)
      invariant forall i :: 0 <= i < SIZE ==> slots[i] == if i < a then Unpacked(nodes, bitmap, i) else Absent
      decreases SIZE - a
    {
      NextBit(nodes, bitmap, a);
      if n % 2 == 1 {
        slots[a] := nodes[count];
        count := count + 1;
      }
      a, n := a + 1, n / 2;
    }
    NoBitsLeft(nodes, bitmap, a);
    slots[slot] := d;
    r := HashArray(count + 1, slots[..]);
    assert slots[..] == Expanded(nodes, bitmap, slot, d);
  }

  lemma NextBit<K, V>(nodes: seq<Node<K, V>>, b: nat, a: nat)
    requires |nodes| == Rank(b, SIZE) && b < WORD && a <= SIZE && ShiftRight(b, a) != 0
    ensures a < SIZE && ShiftRight(b, a + 1) == ShiftRight(b, a) / 2
    ensures if ShiftRight(b, a) % 2 == 1
            then Rank(b, a) < |nodes| && Rank(b, a + 1) == Rank(b, a) + 1 && Unpacked(nodes, b, a) == nodes[Rank(b, a)]
            else Rank(b, a + 1) == Rank(b, a) && Unpacked(nodes, b, a) == Absent
  {
    WordIsBit();
    ShiftRightBound(b, a, SIZE);
    ShiftRightHas(b, a, 0);
    RankStep(b, a);
    if Has(b, a) { RankStrict(b, a, SIZE); }
  }

  lemma NoBitsLeft<K, V>(nodes: seq<Node<K, V>>, b: nat, a: nat)
    requires |nodes| == Rank(b, SIZE) && a <= SIZE && ShiftRight(b, a) == 0
    ensures |nodes| == Rank(b, a)
    ensures forall i :: a <= i < SIZE ==> Unpacked(nodes, b, i).Absent?
  {
    forall i | a <= i < SIZE
      ensures !Has(b, i)
    {
      ZeroShiftHasNoBits(b, a, i);
    }
    RankAfterLastBit(b, a, SIZE);
  }

  lemma {:induction false} RankAfterLastBit(b: nat, a: nat, n: nat)
    requires a <= n && forall i :: a <= i < n ==> !Has(b, i)
    ensures Rank(b, n) == Rank(b, a)
  {
    if a < n {
      RankStep(b, n - 1);
      RankAfterLastBit(b, a, n - 1);
    }
  }

  /** Packing the `count` children left in a slot array. */
  method PackNodes<K, V>(slots: seq<Node<K, V>>, count: nat, skip: nat) returns (r: Node<K, V>)
    requires |slots| == SIZE && count == |PackedNodes(slots, skip, SIZE)|
    ensures r == BitmapIndexed(PackedBits(slots, skip, SIZE), PackedNodes(slots, skip, SIZE))
  {
    var packed := new Node<K, V>[count](_ => Absent);
    var bitmap, o, a, bit := 0, 0, 0, 1;
    while a < |slots|
      invariant a <= SIZE && bit == Bit(a)
      invariant bitmap == PackedBits(slots, skip, a)
      invariant o == |PackedNodes(slots, skip, a)| <= count
      invariant packed[..o] == PackedNodes(slots, skip, a)
    {
      PackedNodesGrow(slots, skip, a + 1, SIZE);
      if slots[a] != Absent && a != skip {
        bitmap := Or(bitmap, bit);
        packed[o] := slots[a];
        o := o + 1;
      }
      a, bit := a + 1, bit * 2;
    }
    r := BitmapIndexed(bitmap, packed[..]);
  }

  lemma {:induction false} PackedNodesGrow<K, V>(slots: seq<Node<K, V>>, skip: nat, m: nat, n: nat)
    requires m <= n <= |slots|
    ensures |PackedNodes(slots, skip, m)| <= |PackedNodes(slots, skip, n)|
  {
    if m < n { PackedNodesGrow(slots, skip, m, n - 1); }
  }
}
