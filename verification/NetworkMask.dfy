/** The network part of an interface address. */
module NetworkMask {
  import opened Bits
  import opened ByteBits
  import opened Bytes

  /** Bit `m` of an address, counted from its first. */
  predicate BitOf(addr: seq<Byte>, m: nat)
    requires m < 8 * |addr|
  {
    Has(addr[m / 8], 7 - m % 8)
  }

  /** `(byte) (0xFF00 >> j)` */
  function Mask(j: nat): (b: Byte) { 65280 / Bit(j) % 256 }

  // ----- bits of the mask

  lemma {:induction false} HasShl(x: nat, w: nat, i: nat)
    ensures Has(Shl(x, w), i) <==> i >= w && Has(x, i - w)
  {
    if w > 0 && i > 0 { HasShl(x, w - 1, i - 1); }
  }

  lemma MaskIsShl(j: nat)
    requires j < 8
    ensures Mask(j) == Shl(Bit(j) - 1, 8 - j)
  {
    hide Bit, Shl;
    SmallBits();
    LargeBits();
    FirstBits();
    ShlIsMul(Bit(j) - 1, 8 - j);
  }

  lemma FirstBits()
    ensures Bit(0) == 1 && Bit(1) == 2 && Bit(7) == 128
  {
    SmallBits();
    assert Bit(7) == 2 * Bit(6);
  }

  /** The mask keeps the first `j` bits of a byte. */
  lemma HasMask(j: nat, i: nat)
    requires j < 8 && i < 8
    ensures Has(Mask(j), 7 - i) <==> i < j
  {
    hide Has, Mask, Bit, Shl;
    MaskIsShl(j);
    HasShl(Bit(j) - 1, 8 - j, 7 - i);
    if 7 - i >= 8 - j { HasBelow(j, 7 - i - (8 - j)); }
  }

  // ----- the address

  /** Keeps the prefix and clears the rest, in place. */
  method CalculateNetworkAddress(addr: array<Byte>, n: nat)
    modifies addr
    ensures addr[..] == Network(old(addr[..]), n)
  {
    hide And, Mask;
    var i, j := n / 8, n % 8;
    if i < addr.Length {
      var mask := Mask(j);
      AndBound(addr[i], mask);
      addr[i] := And(addr[i], mask);
      for k := i + 1 to addr.Length
        invariant forall m :: 0 <= m < i ==> addr[m] == old(addr[m])
        invariant addr[i] == And(old(addr[i]), mask)
        invariant forall m :: i < m < k ==> addr[m] == 0
      {
        addr[k] := 0;
      }
    }
  }

  function Network(addr: seq<Byte>, n: nat): (r: seq<Byte>)
    ensures |r| == |addr|
  {
    if n / 8 >= |addr| then addr
    else seq(|addr|, k requires 0 <= k < |addr| => MaskByte(addr[k], k, n))
  }

  function MaskByte(b: Byte, k: nat, n: nat): Byte {
    if k < n / 8 then b else if k > n / 8 then 0 else (AndBound(b, Mask(n % 8)); And(b, Mask(n % 8)))
  }

  /** Exactly the bits of the prefix are kept. */
  lemma NetworkBits(addr: seq<Byte>, n: nat, m: nat)
    requires m < 8 * |addr|
    ensures BitOf(Network(addr, n), m) <==> m < n && BitOf(addr, m)
  {
    hide Has, And, Mask;
    var k := m / 8;
    if n / 8 < |addr| {
      if k > n / 8 {
        HasZero(7 - m % 8);
      } else if k == n / 8 {
        HasAnd(addr[k], Mask(n % 8), 7 - m % 8);
        HasMask(n % 8, m % 8);
      }
    }
  }

  lemma {:induction false} SameBits(x: nat, y: nat, w: nat)
    requires x < Bit(w) && y < Bit(w) && forall i :: 0 <= i < w ==> (Has(x, i) <==> Has(y, i))
    ensures x == y
  {
    if w > 0 {
      assert Has(x, 0) <==> Has(y, 0);
      forall i | 0 <= i < w - 1
        ensures Has(x / 2, i) <==> Has(y / 2, i)
      {
        assert Has(x, i + 1) <==> Has(y, i + 1);
      }
      SameBits(x / 2, y / 2, w - 1);
    }
  }

  lemma AddressByBits(a: seq<Byte>, b: seq<Byte>)
    requires |a| == |b| && forall m :: 0 <= m < 8 * |a| ==> (BitOf(a, m) <==> BitOf(b, m))
    ensures a == b
  {
    hide Has;
    LargeBits();
    forall k | 0 <= k < |a|
      ensures a[k] == b[k]
    {
      forall i | 0 <= i < 8
        ensures Has(a[k], i) <==> Has(b[k], i)
      {
        var m := 8 * k + (7 - i);
        assert m / 8 == k && 7 - m % 8 == i;
        assert BitOf(a, m) <==> BitOf(b, m);
      }
      SameBits(a[k], b[k], 8);
    }
  }

  /** Of two prefixes, the shorter one counts; in particular taking the network twice changes nothing more. */
  lemma NetworkOfNetwork(addr: seq<Byte>, n: nat, k: nat)
    ensures Network(Network(addr, n), k) == Network(addr, if n < k then n else k)
  {
    hide BitOf, Network;
    var a, b := Network(Network(addr, n), k), Network(addr, if n < k then n else k);
    forall m | 0 <= m < 8 * |addr|
      ensures BitOf(a, m) <==> BitOf(b, m)
    {
      NetworkBits(addr, n, m);
      NetworkBits(Network(addr, n), k, m);
      NetworkBits(addr, if n < k then n else k, m);
    }
    AddressByBits(a, b);
  }
}
