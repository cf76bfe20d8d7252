/** Bitwise operators on non-negative integers, as the unsigned reading of 32-bit words.
    `x >> k` is written `x / 2^k` and `x << k` is written `x * 2^k` throughout. */
module Bits {

  function And(x: nat, y: nat): nat {
    if x == 0 || y == 0 then 0
    else (if x % 2 == 1 && y % 2 == 1 then 1 else 0) + 2 * And(x / 2, y / 2)
  }

  function Or(x: nat, y: nat): nat {
    if x == 0 then y else if y == 0 then x
    else (if x % 2 == 1 || y % 2 == 1 then 1 else 0) + 2 * Or(x / 2, y / 2)
  }

  function Xor(x: nat, y: nat): nat {
    if x == 0 then y else if y == 0 then x
    else (if x % 2 == y % 2 then 0 else 1) + 2 * Xor(x / 2, y / 2)
  }

  /** The word with only bit `i` set: `1 << i`. */
  function Bit(i: nat): (b: nat)
    ensures b > 0
  {
    if i == 0 then 1 else 2 * Bit(i - 1)
  }

  /** Whether bit `i` of `x` is set. */
  predicate Has(x: nat, i: nat) {
    if i == 0 then x % 2 == 1 else Has(x / 2, i - 1)
  }

  /** The number of bits set in `x`. */
  function Count(x: nat): nat {
    if x == 0 then 0 else x % 2 + Count(x / 2)
  }

  /** The number of bits of `x` set strictly below position `n`. */
  function Rank(x: nat, n: nat): (r: nat)
    ensures r <= n
  {
    if n == 0 then 0 else x % 2 + Rank(x / 2, n - 1)
  }

  // ----- bit by bit meaning of the operators

  lemma {:induction false} HasZero(i: nat)
    ensures !Has(0, i)
  {
    if i > 0 { HasZero(i - 1); }
  }

  lemma {:induction false} HasAnd(x: nat, y: nat, i: nat)
    ensures Has(And(x, y), i) <==> Has(x, i) && Has(y, i)
  {
    if x == 0 || y == 0 {
      HasZero(i);
    } else if i > 0 {
      HasAnd(x / 2, y / 2, i - 1);
    }
  }

  lemma {:induction false} HasOr(x: nat, y: nat, i: nat)
    ensures Has(Or(x, y), i) <==> Has(x, i) || Has(y, i)
  {
    if x == 0 || y == 0 {
      HasZero(i);
    } else if i > 0 {
      HasOr(x / 2, y / 2, i - 1);
    }
  }

  lemma {:induction false} HasXor(x: nat, y: nat, i: nat)
    ensures Has(Xor(x, y), i) <==> Has(x, i) != Has(y, i)
  {
    if x == 0 || y == 0 {
      HasZero(i);
    } else if i > 0 {
      HasXor(x / 2, y / 2, i - 1);
    }
  }

  lemma {:induction false} HasBit(i: nat, j: nat)
    ensures Has(Bit(i), j) <==> i == j
  {
    if i == 0 {
      if j > 0 { HasZero(j - 1); }
    } else if j > 0 {
      HasBit(i - 1, j - 1);
    }
  }

  lemma {:induction false} HasBelow(i: nat, j: nat)
    ensures Has(Bit(i) - 1, j) <==> j < i
  {
    if i == 0 {
      HasZero(j);
    } else if j > 0 {
      assert (Bit(i) - 1) / 2 == Bit(i - 1) - 1;
      HasBelow(i - 1, j - 1);
    }
  }

  lemma {:induction false} AndBit(x: nat, i: nat)
    ensures And(x, Bit(i)) != 0 <==> Has(x, i)
  {
    if x == 0 {
      HasZero(i);
    } else if i > 0 {
      AndBit(x / 2, i - 1);
    }
  }

  lemma {:induction false} AndBound(x: nat, y: nat)
    ensures And(x, y) <= x && And(x, y) <= y
  {
    if x != 0 && y != 0 { AndBound(x / 2, y / 2); }
  }

  lemma {:induction false} OrBound(x: nat, y: nat, w: nat)
    requires x < Bit(w) && y < Bit(w)
    ensures Or(x, y) < Bit(w) && Xor(x, y) < Bit(w)
  {
    if x != 0 && y != 0 { OrBound(x / 2, y / 2, w - 1); }
  }

  lemma {:induction false} BitMonotone(i: nat, j: nat)
    requires i < j
    ensures Bit(i) < Bit(j)
  {
    if i < j - 1 { BitMonotone(i, j - 1); }
  }

  // ----- ranks

  lemma {:induction false} CountIsRank(x: nat, n: nat)
    requires x < Bit(n)
    ensures Count(x) == Rank(x, n)
  {
    if n > 0 {
      CountIsRank(x / 2, n - 1);
      if x == 0 { RankZero(n - 1); }
    }
  }

  lemma {:induction false} RankZero(n: nat)
    ensures Rank(0, n) == 0
  {
    if n > 0 { RankZero(n - 1); }
  }

  lemma {:induction false} RankStep(x: nat, n: nat)
    ensures Rank(x, n + 1) == Rank(x, n) + if Has(x, n) then 1 else 0
  {
    if n > 0 { RankStep(x / 2, n - 1); }
  }

  lemma {:induction false} RankMonotone(x: nat, m: nat, n: nat)
    requires m <= n
    ensures Rank(x, m) <= Rank(x, n)
  {
    if m < n {
      RankMonotone(x, m, n - 1);
      RankStep(x, n - 1);
    }
  }

  /** Ranks at two set bits differ, so rank is an injective index of the set bits. */
  lemma RankStrict(x: nat, m: nat, n: nat)
    requires m < n && Has(x, m)
    ensures Rank(x, m) < Rank(x, n)
  {
    RankStep(x, m);
    RankMonotone(x, m + 1, n);
  }

  /** Every position below the count is the rank of some set bit. */
  lemma {:induction false} RankOnto(x: nat, n: nat, r: nat) returns (i: nat)
    requires r < Rank(x, n)
    ensures i < n && Has(x, i) && Rank(x, i) == r
  {
    RankStep(x, n - 1);
    if r < Rank(x, n - 1) {
      i := RankOnto(x, n - 1, r);
    } else {
      i := n - 1;
    }
  }

  /** Words that agree below `n` have the same rank there. */
  lemma {:induction false} RankAgree(x: nat, y: nat, n: nat)
    requires forall i :: 0 <= i < n ==> Has(x, i) == Has(y, i)
    ensures Rank(x, n) == Rank(y, n)
  {
    if n > 0 {
      RankStep(x, n - 1);
      RankStep(y, n - 1);
      RankAgree(x, y, n - 1);
    }
  }

  /** Counting the bits kept by the mask `bit - 1` gives the rank of that bit. */
  lemma CountMasked(x: nat, i: nat, n: nat)
    requires i <= n && x < Bit(n)
    ensures Count(And(x, Bit(i) - 1)) == Rank(x, i)
  {
    var y := And(x, Bit(i) - 1);
    AndBound(x, Bit(i) - 1);
    CountIsRank(y, i);
    forall j: nat | j < i
      ensures Has(x, j) == Has(y, j)
    {
      HasAnd(x, Bit(i) - 1, j);
      HasBelow(i, j);
    }
    RankAgree(x, y, i);
  }

  // ----- masks, a few bits at a time

  lemma AndHalf(x: nat, b: nat, m: nat, c: nat)
    requires b < 2 && c < 2
    ensures And(2 * x + b, 2 * m + c) == 2 * And(x, m) + And(b, c)
  {
  }

  lemma AndQuarter(x: nat, b: nat, m: nat, c: nat)
    requires b < 4 && c < 4
    ensures And(4 * x + b, 4 * m + c) == 4 * And(x, m) + And(b, c)
  {
    hide And;
    var b1, b0, c1, c0 := b / 2, b % 2, c / 2, c % 2;
    AndHalf(2 * x + b1, b0, 2 * m + c1, c0);
    AndHalf(x, b1, m, c1);
    AndHalf(b1, b0, c1, c0);
    assert 2 * (2 * x + b1) + b0 == 4 * x + b && 2 * (2 * m + c1) + c0 == 4 * m + c;
  }

  lemma AndNibble(x: nat, b: nat, m: nat, c: nat)
    requires b < 16 && c < 16
    ensures And(16 * x + b, 16 * m + c) == 16 * And(x, m) + And(b, c)
  {
    hide And;
    var b1, b0, c1, c0 := b / 4, b % 4, c / 4, c % 4;
    AndQuarter(4 * x + b1, b0, 4 * m + c1, c0);
    AndQuarter(x, b1, m, c1);
    AndQuarter(b1, b0, c1, c0);
    assert 4 * (4 * x + b1) + b0 == 16 * x + b && 4 * (4 * m + c1) + c0 == 16 * m + c;
  }

  /** Masking with `2^w - 1` keeps the remainder. */
  lemma {:induction false} AndLow(x: nat, w: nat)
    ensures And(x, Bit(w) - 1) == x % Bit(w)
  {
    if w > 0 {
      AndHalf(x / 2, x % 2, Bit(w - 1) - 1, 1);
      AndLow(x / 2, w - 1);
      HalfRemainder(x, Bit(w - 1));
    }
  }

  lemma HalfRemainder(x: nat, m: nat)
    requires m > 0
    ensures x % (2 * m) == 2 * (x / 2 % m) + x % 2
  {
    var q := x / 2 / m;
    assert x / 2 == q * m + x / 2 % m;
    assert x == q * (2 * m) + (2 * (x / 2 % m) + x % 2);
    RemainderUnique(x, 2 * m, q, 2 * (x / 2 % m) + x % 2);
  }

  lemma RemainderUnique(x: int, m: int, q: int, r: int)
    requires 0 <= r < m && x == q * m + r
    ensures x % m == r && x / m == q
  {
    var d := x / m - q;
    assert d * m == r - x % m;
    assert d >= 1 ==> d * m >= m;
    assert d <= -1 ==> d * m <= -m;
  }

  lemma {:induction false} AndCommutes(x: nat, y: nat)
    ensures And(x, y) == And(y, x)
  {
    if x != 0 && y != 0 { AndCommutes(x / 2, y / 2); }
  }

  // ----- the branch-free bit count

  /** The source's bit count of a 32-bit word: fields of two, four and eight bits are summed in place. */
  function PopCount(x: nat): nat {
    var pairs := Pairs(x, 0x5555_5555);
    var nibbles := Nibbles(pairs, 0x3333_3333);
    var bytes := And(nibbles + nibbles / 16, 0x0f0f_0f0f);
    var folded := bytes + bytes / 256;
    And(127, folded + folded / 65536)
  }

  function Pairs(x: nat, mask: nat): nat {
    AndBound(x / 2, mask);
    x - And(x / 2, mask)
  }

  function Nibbles(x: nat, mask: nat): nat {
    And(mask, x) + And(x / 4, mask)
  }

  /** `k` nibbles, each equal to `c`. */
  function Repeat(c: nat, k: nat): nat {
    if k == 0 then 0 else 16 * Repeat(c, k - 1) + c
  }

  /** The word whose nibbles are the bit counts of the nibbles of `x`. */
  function NibbleCounts(x: nat, k: nat): nat {
    if k == 0 then 0 else 16 * NibbleCounts(x / 16, k - 1) + Count(x % 16)
  }

  lemma AndOne(x: nat)
    ensures And(x, 1) == x % 2 && And(x, 0) == 0
  {
  }

  lemma AndFive(b0: nat, b1: nat, b2: nat, b3: nat)
    requires b0 < 2 && b1 < 2 && b2 < 2 && b3 < 2
    ensures And(8 * b3 + 4 * b2 + 2 * b1 + b0, 5) == 4 * b2 + b0
  {
    hide And;
    AndHalf(4 * b3 + 2 * b2 + b1, b0, 2, 1);
    AndHalf(2 * b3 + b2, b1, 1, 0);
    AndOne(2 * b3 + b2);
    AndOne(b0);
    AndOne(b1);
  }

  lemma AndThree(g: nat, e: nat)
    requires e < 4
    ensures And(4 * g + e, 3) == e
  {
    BitValues();
    hide And, Bit;
    AndLow(4 * g + e, 2);
  }

  lemma CountHalf(x: nat, b: nat)
    requires b < 2
    ensures Count(2 * x + b) == Count(x) + b
  {
  }

  lemma CountNibble(q: nat, b0: nat, b1: nat, b2: nat, b3: nat)
    requires b0 < 2 && b1 < 2 && b2 < 2 && b3 < 2
    ensures Count(16 * q + 8 * b3 + 4 * b2 + 2 * b1 + b0) == Count(q) + b3 + b2 + b1 + b0
  {
    hide Count;
    CountHalf(q, b3);
    CountHalf(2 * q + b3, b2);
    CountHalf(4 * q + 2 * b3 + b2, b1);
    CountHalf(8 * q + 4 * b3 + 2 * b2 + b1, b0);
    assert 2 * (8 * q + 4 * b3 + 2 * b2 + b1) + b0 == 16 * q + 8 * b3 + 4 * b2 + 2 * b1 + b0;
    assert 2 * (4 * q + 2 * b3 + b2) + b1 == 8 * q + 4 * b3 + 2 * b2 + b1;
    assert 2 * (2 * q + b3) + b2 == 4 * q + 2 * b3 + b2;
  }

  lemma NibbleBits(x: nat) returns (q: nat, b0: nat, b1: nat, b2: nat, b3: nat)
    ensures b0 < 2 && b1 < 2 && b2 < 2 && b3 < 2
    ensures x == 16 * q + 8 * b3 + 4 * b2 + 2 * b1 + b0
    ensures q == x / 16 && x % 16 == 8 * b3 + 4 * b2 + 2 * b1 + b0
  {
    var h1 := x / 2;
    var h2 := h1 / 2;
    var h3 := h2 / 2;
    b0, b1, b2, b3, q := x % 2, h1 % 2, h2 % 2, h3 % 2, h3 / 2;
  }

  lemma PairsStep(x: nat, q: nat, b0: nat, b1: nat, b2: nat, b3: nat, m5: nat)
    requires b0 < 2 && b1 < 2 && b2 < 2 && b3 < 2
    requires x == 16 * q + 8 * b3 + 4 * b2 + 2 * b1 + b0
    ensures Pairs(x, 16 * m5 + 5) == 16 * Pairs(q, m5) + 4 * (b3 + b2) + (b1 + b0)
  {
    hide And;
    var h := q / 2;
    var g := q % 2;
    var r := 8 * g + 4 * b3 + 2 * b2 + b1;
    assert x / 2 == 16 * h + r;
    AndNibble(h, r, m5, 5);
    AndFive(b1, b2, b3, g);
    AndBound(h, m5);
  }

  /** One nibble of the first two stages: the nibble's own bit count, and no carry into the next one. */
  lemma StagesStep(x: nat, m5: nat, m3: nat)
    ensures Nibbles(Pairs(x, 16 * m5 + 5), 16 * m3 + 3) == 16 * Nibbles(Pairs(x / 16, m5), m3) + Count(x % 16)
  {
    hide And, Count, Nibbles, Pairs;
    NoCounts();
    var q, b0, b1, b2, b3 := NibbleBits(x);
    CountNibble(0, b0, b1, b2, b3);
    PairsStep(x, q, b0, b1, b2, b3, m5);
    NibblesStep(Pairs(x, 16 * m5 + 5), Pairs(q, m5), b3 + b2, b1 + b0, m3);
  }

  lemma NibblesStep(p: nat, q: nat, d: nat, e: nat, m3: nat)
    requires p == 16 * q + 4 * d + e && d <= 2 && e <= 2
    ensures Nibbles(p, 16 * m3 + 3) == 16 * Nibbles(q, m3) + d + e
  {
    hide And;
    AndCommutes(16 * m3 + 3, p);
    AndCommutes(m3, q);
    AndNibble(q, 4 * d + e, m3, 3);
    AndThree(d, e);
    var h, g := q / 4, q % 4;
    assert p / 4 == 16 * h + (4 * g + d);
    AndNibble(h, 4 * g + d, m3, 3);
    AndThree(g, d);
  }

  lemma {:induction false} StagesAreNibbleCounts(x: nat, k: nat)
    requires x < Bit(4 * k)
    ensures Nibbles(Pairs(x, Repeat(5, k)), Repeat(3, k)) == NibbleCounts(x, k)
  {
    if k > 0 {
      assert Bit(4 * k) == 2 * Bit(4 * k - 1) == 4 * Bit(4 * k - 2);
      assert Bit(4 * k - 2) == 2 * Bit(4 * k - 3) == 4 * Bit(4 * (k - 1));
      StagesAreNibbleCounts(x / 16, k - 1);
      StagesStep(x, Repeat(5, k - 1), Repeat(3, k - 1));
    }
  }

  /** The third stage adds neighbouring nibbles, each at most four, into bytes. */
  lemma BytesOfNibbles(s: nat, c0: nat, c1: nat, c2: nat, c3: nat, c4: nat, c5: nat, c6: nat, c7: nat)
    requires c0 <= 4 && c1 <= 4 && c2 <= 4 && c3 <= 4 && c4 <= 4 && c5 <= 4 && c6 <= 4 && c7 <= 4
    requires s == c0 + 0x10 * c1 + 0x100 * c2 + 0x1000 * c3 + 0x1_0000 * c4 + 0x10_0000 * c5 +
                  0x100_0000 * c6 + 0x1000_0000 * c7
    ensures And(s + s / 16, 0x0f0f_0f0f) ==
            (c0 + c1) + 0x100 * (c2 + c3) + 0x1_0000 * (c4 + c5) + 0x100_0000 * (c6 + c7)
  {
    hide And;
    assert s / 16 == c1 + 0x10 * c2 + 0x100 * c3 + 0x1000 * c4 + 0x1_0000 * c5 + 0x10_0000 * c6 + 0x100_0000 * c7;
    var t3 := (c6 + c7) + 0x10 * c7;
    var t2 := (c4 + c5) + 0x10 * (c5 + c6) + 0x100 * t3;
    var t1 := (c2 + c3) + 0x10 * (c3 + c4) + 0x100 * t2;
    ByteMask(s + s / 16, c0 + c1, c1 + c2, 0x0f0f0f, t1);
    ByteMask(t1, c2 + c3, c3 + c4, 0x0f0f, t2);
    ByteMask(t2, c4 + c5, c5 + c6, 0x0f, t3);
    ByteMask(t3, c6 + c7, c7, 0, 0);
    AndOne(0);
  }

  /** The last stage adds the four bytes, each at most eight, into the lowest one. */
  lemma FoldBytes(b: nat, b0: nat, b1: nat, b2: nat, b3: nat)
    requires b0 <= 8 && b1 <= 8 && b2 <= 8 && b3 <= 8
    requires b == b0 + 0x100 * b1 + 0x1_0000 * b2 + 0x100_0000 * b3
    ensures var folded := b + b / 256;
            And(127, folded + folded / 65536) == b0 + b1 + b2 + b3
  {
    hide *;
    var c1, c2 := b1 + b2, b2 + b3;
    var folded := b + b / 256;
    FoldedBytes(b, b0, b1, b2, b3);
    LowSevenBits(folded + folded / 65536, b0 + b1 + c2, 2 * (c1 + b3) + 512 * c2 + 131072 * b3);
  }

  lemma FoldedBytes(b: nat, b0: nat, b1: nat, b2: nat, b3: nat)
    requires b0 <= 8 && b1 <= 8 && b2 <= 8 && b3 <= 8
    requires b == b0 + 0x100 * b1 + 0x1_0000 * b2 + 0x100_0000 * b3
    ensures var folded := b + b / 256;
            folded == (b0 + b1) + 0x100 * (b1 + b2) + 0x1_0000 * (b2 + b3) + 0x100_0000 * b3 &&
            folded / 65536 == (b2 + b3) + 0x100 * b3
  {
    assert b / 256 == b1 + 0x100 * b2 + 0x1_0000 * b3;
  }

  lemma LowSevenBits(f: nat, low: nat, rest: nat)
    requires f == low + 128 * rest && low < 128
    ensures And(127, f) == low
  {
    BitValues();
    hide And, Bit;
    AndLow(f, 7);
    AndCommutes(127, f);
  }

  lemma ByteMask(t: nat, lo: nat, hi: nat, m: nat, rest: nat)
    requires lo < 16 && hi < 16 && t == lo + 16 * hi + 256 * rest
    ensures And(t, 256 * m + 15) == 256 * And(rest, m) + lo && t / 256 == rest
  {
    hide And;
    BitValues();
    hide Bit;
    AndNibble(16 * rest + hi, lo, 16 * m, 15);
    AndNibble(rest, hi, m, 0);
    AndOne(hi);
    AndLow(lo, 4);
  }

  lemma BitValues()
    ensures Bit(2) == 4 && Bit(4) == 0x10 && Bit(7) == 0x80 && Bit(32) == 0x1_0000_0000
  {
    assert Bit(7) == 0x80;
    assert Bit(14) == 0x80 * Bit(7);
    assert Bit(21) == 0x80 * Bit(14);
    assert Bit(28) == 0x80 * Bit(21);
    assert Bit(32) == 0x10 * Bit(28);
  }

  lemma NibbleCountsStep(x: nat, k: nat)
    requires k > 0
    ensures NibbleCounts(x, k) == 16 * NibbleCounts(x / 16, k - 1) + Count(x % 16)
    ensures Count(x % 16) <= 4 && Count(x) == Count(x / 16) + Count(x % 16)
  {
    hide Count;
    NoCounts();
    var q, b0, b1, b2, b3 := NibbleBits(x);
    CountNibble(q, b0, b1, b2, b3);
    CountNibble(0, b0, b1, b2, b3);
  }

  lemma FourNibbles(x: nat, k: nat) returns (y: nat, c0: nat, c1: nat, c2: nat, c3: nat)
    requires k >= 4
    ensures c0 <= 4 && c1 <= 4 && c2 <= 4 && c3 <= 4
    ensures y == x / 0x1_0000
    ensures NibbleCounts(x, k) ==
            c0 + 0x10 * c1 + 0x100 * c2 + 0x1000 * c3 + 0x1_0000 * NibbleCounts(y, k - 4)
    ensures Count(x) == c0 + c1 + c2 + c3 + Count(y)
  {
    hide Count, NibbleCounts;
    var x1 := x / 16;
    var x2 := x1 / 16;
    var x3 := x2 / 16;
    y := x3 / 16;
    c0, c1, c2, c3 := Count(x % 16), Count(x1 % 16), Count(x2 % 16), Count(x3 % 16);
    NibbleCountsStep(x, k);
    NibbleCountsStep(x1, k - 1);
    NibbleCountsStep(x2, k - 2);
    NibbleCountsStep(x3, k - 3);
  }

  lemma NibblesOfWord(x: nat)
    requires x < 0x1_0000_0000
    ensures Nibbles(Pairs(x, 0x5555_5555), 0x3333_3333) == NibbleCounts(x, 8)
  {
    assert Repeat(5, 8) == 0x5555_5555 && Repeat(3, 8) == 0x3333_3333;
    BitValues();
    hide *;
    StagesAreNibbleCounts(x, 8);
  }

  lemma EightNibbles(x: nat)
    returns (c0: nat, c1: nat, c2: nat, c3: nat, c4: nat, c5: nat, c6: nat, c7: nat)
    requires x < 0x1_0000_0000
    ensures c0 <= 4 && c1 <= 4 && c2 <= 4 && c3 <= 4 && c4 <= 4 && c5 <= 4 && c6 <= 4 && c7 <= 4
    ensures NibbleCounts(x, 8) == c0 + 0x10 * c1 + 0x100 * c2 + 0x1000 * c3 + 0x1_0000 * c4 + 0x10_0000 * c5 +
                                  0x100_0000 * c6 + 0x1000_0000 * c7
    ensures Count(x) == c0 + c1 + c2 + c3 + c4 + c5 + c6 + c7
  {
    hide Count, NibbleCounts;
    var y, z;
    y, c0, c1, c2, c3 := FourNibbles(x, 8);
    z, c4, c5, c6, c7 := FourNibbles(y, 4);
    NoCounts();
    RemainderUnique(y, 0x1_0000, 0, y);
  }

  /** The branch-free count of a 32-bit word is the number of its set bits. */
  lemma PopCountCorrect(x: nat)
    requires x < 0x1_0000_0000
    ensures PopCount(x) == Count(x)
  {
    hide And, Count, NibbleCounts, Pairs, Nibbles;
    NibblesOfWord(x);
    var c0, c1, c2, c3, c4, c5, c6, c7 := EightNibbles(x);
    var s := NibbleCounts(x, 8);
    BytesOfNibbles(s, c0, c1, c2, c3, c4, c5, c6, c7);
    FoldBytes(And(s + s / 16, 0x0f0f_0f0f), c0 + c1, c2 + c3, c4 + c5, c6 + c7);
  }

  lemma NoCounts()
    ensures Count(0) == 0 && forall x: nat :: NibbleCounts(x, 0) == 0
  {
  }
}
