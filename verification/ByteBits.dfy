/** The bit expressions of the UTF-8 and base64 code, and the arithmetic each of them stands for. */
module ByteBits {
  import opened Bits

  /** `m << w`. */
  function Shl(m: nat, w: nat): nat { if w == 0 then m else 2 * Shl(m, w - 1) }

  lemma OrEven(x: nat, y: nat)
    ensures Or(x, 2 * y) == 2 * Or(x / 2, y) + x % 2
  {
  }

  /** Or-ing in bits above the highest one adds them. */
  lemma {:induction false} OrAbove(x: nat, m: nat, w: nat)
    requires x < Bit(w)
    ensures Or(x, Shl(m, w)) == x + Shl(m, w)
  {
    if w == 0 {
      assert x == 0;
    } else {
      OrAbove(x / 2, m, w - 1);
      OrEven(x, Shl(m, w - 1));
    }
  }

  lemma {:induction false} OrCommutes(x: nat, y: nat)
    ensures Or(x, y) == Or(y, x)
  {
    if x != 0 && y != 0 { OrCommutes(x / 2, y / 2); }
  }

  lemma SmallBits()
    ensures Shl(2, 6) == 128 && Shl(6, 5) == 192 && Shl(14, 4) == 224 && Shl(30, 3) == 240
    ensures Shl(54, 10) == 55296 && Shl(55, 10) == 56320
    ensures Bit(3) == 8 && Bit(4) == 16 && Bit(5) == 32 && Bit(6) == 64 && Bit(10) == 1024
  {
    assert Bit(5) == 32;
    assert Shl(2, 3) == 16 && Shl(6, 3) == 48;
    assert Shl(54, 5) == 1728 && Shl(55, 5) == 1760;
  }

  /** `63 & x`, and likewise for the other widths. */
  function Low(x: nat, w: nat): (r: nat)
    ensures r == x % Bit(w) < Bit(w)
  {
    AndLow(x, w);
    AndCommutes(x, Bit(w) - 1);
    And(Bit(w) - 1, x)
  }

  /** `63 & x | 128`: a continuation byte. */
  function Tail(x: nat): (b: nat)
    ensures b == 128 + x % 64
  {
    SmallBits();
    OrAbove(Low(x, 6), 2, 6);
    Or(Low(x, 6), 128)
  }

  /** `x | mark` for a first byte, where the mark starts at bit `w`. */
  function First(x: nat, m: nat, w: nat): (r: nat)
    requires x < Bit(w)
    ensures r == x + Shl(m, w)
  {
    OrAbove(x, m, w);
    Or(x, Shl(m, w))
  }

  lemma TailMark(b: nat)
    requires b < 256
    ensures And(192, b) == b / 64 * 64
  {
    hide And;
    var q, r := b / 16, b % 16;
    var p, s := q / 4, q % 4;
    AndNibble(q, r, 12, 0);
    AndQuarter(p, s, 3, 0);
    AndThree(0, p);
    AndOne(r);
    AndOne(s);
    AndCommutes(b, 192);
    assert p == b / 64;
  }

  /** `128 == (192 & b)`. */
  predicate HasTailMark(b: nat) { And(192, b) == 128 }

  lemma TailMarkIsTail(b: nat)
    requires b < 256
    ensures HasTailMark(b) <==> 128 <= b < 192
  {
    hide And;
    TailMark(b);
  }

  lemma Shl6(m: nat)
    ensures Shl(m, 6) == 64 * m
  {
    assert Shl(m, 1) == 2 * m;
    assert Shl(m, 2) == 4 * m;
    assert Shl(m, 4) == 2 * Shl(m, 3) == 4 * Shl(m, 2);
    assert Shl(m, 6) == 2 * Shl(m, 5) == 4 * Shl(m, 4);
  }

  /** `high << 6 | 63 & low`. */
  function Join(high: nat, low: nat): (r: nat)
    ensures r == high * 64 + low % 64
  {
    SmallBits();
    OrAbove(Low(low, 6), high, 6);
    OrCommutes(high * 64, Low(low, 6));
    Shl6(high);
    Or(high * 64, Low(low, 6))
  }

  // ----- shifts and masks of base64

  lemma {:induction false} ShlIsMul(m: nat, w: nat)
    ensures Shl(m, w) == m * Bit(w)
  {
    if w > 0 { ShlIsMul(m, w - 1); }
  }

  lemma {:induction false} AndShl(x: nat, m: nat, w: nat)
    ensures And(Shl(x, w), Shl(m, w)) == Shl(And(x, m), w)
  {
    if w > 0 {
      AndShl(x, m, w - 1);
      AndTwice(Shl(x, w - 1), Shl(m, w - 1));
    }
  }

  lemma AndTwice(x: nat, y: nat)
    ensures And(2 * x, 2 * y) == 2 * And(x, y)
  {
  }

  lemma LargeBits()
    ensures Bit(2) == 4 && Bit(8) == 256 && Bit(12) == 4096 && Bit(16) == 65536 && Bit(18) == 262144
  {
    SmallBits();
    assert Bit(8) == 4 * Bit(6);
    assert Bit(12) == 4 * Bit(10);
    assert Bit(14) == 4 * Bit(12);
    assert Bit(16) == 4 * Bit(14);
    assert Bit(18) == 4 * Bit(16);
  }

  /** `x << w & 255 << w`. */
  lemma ByteField(x: nat, w: nat)
    ensures And(Shl(x, w), Shl(255, w)) == x % 256 * Bit(w)
  {
    LargeBits();
    AndShl(x, 255, w);
    AndLow(x, 8);
    ShlIsMul(x % 256, w);
  }

  lemma ByteMasks()
    ensures Shl(255, 16) == 16711680 && Shl(255, 8) == 65280
  {
    LargeBits();
    ShlIsMul(255, 16);
    ShlIsMul(255, 8);
  }

  /** `high << w | low`. */
  function Above(high: nat, low: nat, w: nat): (r: nat)
    requires low < Bit(w)
    ensures r == high * Bit(w) + low
  {
    OrAbove(low, high, w);
    OrCommutes(Shl(high, w), low);
    ShlIsMul(high, w);
    Or(Shl(high, w), low)
  }
}
