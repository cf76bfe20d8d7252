/** The UTF-8 encoder and decoder of the buffer module. Strings are sequences of UTF-16 code units. */
module Utf8 {
  import opened Bytes

  type CodeUnit = u: int | 0 <= u < 0x1_0000

  const REPLACEMENT: CodeUnit := 0xFFFD

  predicate IsLead(u: int) { 0xD800 <= u < 0xDC00 }
  predicate IsTrail(u: int) { 0xDC00 <= u < 0xE000 }
  predicate IsTail(b: int) { 0x80 <= b < 0xC0 }

  /** A Unicode scalar value: a code point that is not a surrogate. */
  predicate IsScalar(p: int) { 0 <= p < 0x11_0000 && !IsLead(p) && !IsTrail(p) }

  // ----- reference definitions: UTF-16 strings and the grammar of section 4 of RFC 3629

  /** The UTF-16 form of a scalar value. */
  function Units(p: int): (s: seq<CodeUnit>)
    requires IsScalar(p)
  {
    if p < 0x1_0000 then [p] else [0xD800 + (p - 0x1_0000) / 1024, 0xDC00 + (p - 0x1_0000) % 1024]
  }

  /** The scalar value of a surrogate pair. */
  function PairPoint(lead: int, trail: int): (p: int)
    requires IsLead(lead) && IsTrail(trail)
    ensures 0x1_0000 <= p < 0x11_0000
  {
    0x1_0000 + (lead - 0xD800) * 1024 + (trail - 0xDC00)
  }

  lemma PairOfUnits(lead: CodeUnit, trail: CodeUnit)
    requires IsLead(lead) && IsTrail(trail)
    ensures Units(PairPoint(lead, trail)) == [lead, trail]
  {
  }

  lemma UnitsOfPair(p: int)
    requires 0x1_0000 <= p < 0x11_0000
    ensures |Units(p)| == 2 && IsLead(Units(p)[0]) && IsTrail(Units(p)[1])
    ensures PairPoint(Units(p)[0], Units(p)[1]) == p
  {
  }

  /** Every surrogate is part of a pair. */
  predicate WellFormed(s: seq<CodeUnit>) {
    s == [] ||
    (!IsLead(s[0]) && !IsTrail(s[0]) && WellFormed(s[1..])) ||
    (IsLead(s[0]) && |s| > 1 && IsTrail(s[1]) && WellFormed(s[2..]))
  }

  /** A surrogate without a partner. */
  predicate IsLone(s: seq<CodeUnit>, i: nat)
    requires i < |s|
  {
    || (IsLead(s[i]) && !(i + 1 < |s| && IsTrail(s[i + 1])))
    || (IsTrail(s[i]) && !(i > 0 && IsLead(s[i - 1])))
  }

  /** The string with `mark` for every surrogate without a partner. */
  function Mended(s: seq<CodeUnit>, mark: CodeUnit): (r: seq<CodeUnit>)
    ensures |r| == |s| && forall i :: 0 <= i < |s| ==> r[i] == if IsLone(s, i) then mark else s[i]
  {
    seq(|s|, i requires 0 <= i < |s| => if IsLone(s, i) then mark else s[i])
  }

  lemma MendedFirst(s: seq<CodeUnit>, mark: CodeUnit)
    requires s != []
    ensures if IsLead(s[0]) && |s| > 1 && IsTrail(s[1]) then Mended(s, mark) == s[..2] + Mended(s[2..], mark)
            else Mended(s, mark) == [if IsLead(s[0]) || IsTrail(s[0]) then mark else s[0]] + Mended(s[1..], mark)
  {
    var k := if IsLead(s[0]) && |s| > 1 && IsTrail(s[1]) then 2 else 1;
    forall i | k <= i < |s|
      ensures IsLone(s, i) <==> IsLone(s[k..], i - k)
    {
      if i == k { assert i > 0 && !(IsLead(s[i - 1]) && IsTrail(s[i])); }
    }
  }

  lemma {:induction false} MendedWellFormed(s: seq<CodeUnit>, mark: CodeUnit)
    requires !IsLead(mark) && !IsTrail(mark)
    ensures WellFormed(Mended(s, mark))
    ensures Mended(s, mark) == s <==> WellFormed(s)
    decreases |s|
  {
    hide Mended, IsLone;
    if s != [] {
      MendedFirst(s, mark);
      var k := if IsLead(s[0]) && |s| > 1 && IsTrail(s[1]) then 2 else 1;
      MendedWellFormed(s[k..], mark);
      assert Mended(s, mark)[k..] == Mended(s[k..], mark);
      assert s == s[..k] + s[k..];
    }
  }

  /** How many bytes a character starting with `c` has; 0 when no character starts so. */
  function Demand(c: int): nat {
    if 0 <= c < 0x80 then 1
    else if 0xC2 <= c < 0xE0 then 2
    else if 0xE0 <= c < 0xF0 then 3
    else if 0xF0 <= c < 0xF5 then 4
    else 0
  }

  /** The second bytes that exclude overlong forms, surrogates and values above 0x10FFFF. */
  predicate SecondFits(c: int, o: int) {
    (if c == 0xE0 then 0xA0 else if c == 0xF0 then 0x90 else 0x80) <= o <
    (if c == 0xED then 0xA0 else if c == 0xF4 then 0x90 else 0xC0)
  }

  /** A non-empty beginning, possibly all, of one character. */
  predicate Fits(p: seq<Byte>) {
    && p != [] && 1 <= Demand(p[0]) && |p| <= Demand(p[0])
    && (|p| > 1 ==> SecondFits(p[0], p[1]))
    && (|p| > 2 ==> IsTail(p[2]))
    && (|p| > 3 ==> IsTail(p[3]))
  }

  /** The beginning of a character that is cut short. */
  predicate Partial(p: seq<Byte>) { Fits(p) && |p| < Demand(p[0]) }

  /** The length of the character at the start of `b`, or 0. */
  function CharLen(b: seq<Byte>): (l: nat)
    ensures l <= 4 && l <= |b|
  {
    if b != [] && Demand(b[0]) <= |b| && Fits(b[..Demand(b[0])]) then Demand(b[0]) else 0
  }

  predicate ValidUtf8(b: seq<Byte>)
    decreases |b|
  {
    b == [] || (CharLen(b) > 0 && ValidUtf8(b[CharLen(b)..]))
  }

  // ----- the encoder

  function EncodePoint(n: int): (r: seq<Byte>)
    requires 0 <= n < 0x11_0000
    ensures 1 <= |r| <= 4
  {
    if n < 0x80 then [n]
    else if n < 0x800 then [n / 64 + 0xC0, n % 64 + 0x80]
    else if n < 0x1_0000 then [n / 4096 + 0xE0, n / 64 % 64 + 0x80, n % 64 + 0x80]
    else [n / 262144 + 0xF0, n / 4096 % 64 + 0x80, n / 64 % 64 + 0x80, n % 64 + 0x80]
  }

  /** The bytes written for a lone surrogate. */
  function Replaced(): seq<Byte> { [0xEF, 0xBF, 0xBD] }

  /** Encodes `s`, when `lead` is the unpaired lead surrogate just read (0 when there is none). */
  function EncodeFrom(lead: int, s: seq<CodeUnit>): seq<Byte>
    requires lead == 0 || IsLead(lead)
    decreases |s|
  {
    if s == [] then []
    else
      var n := s[0];
      var rest := s[1..];
      if IsLead(n) || IsTrail(n) then
        if lead == 0 then
          if IsTrail(n) || rest == [] then Replaced() + EncodeFrom(0, rest)
          else EncodeFrom(n, rest)
        else if IsLead(n) then Replaced() + EncodeFrom(n, rest)
        else EncodePoint(PairPoint(lead, n)) + EncodeFrom(0, rest)
      else (if lead != 0 then Replaced() else []) + EncodePoint(n) + EncodeFrom(0, rest)
  }

  function Encode(s: seq<CodeUnit>): seq<Byte> { EncodeFrom(0, s) }

  // ----- the decoder

  function Value2(c: int, o: int): int { c % 32 * 64 + o % 64 }
  function Value3(c: int, o: int, u: int): int { c % 16 * 4096 + o % 64 * 64 + u % 64 }
  function Value4(c: int, o: int, u: int, a: int): int { c % 16 * 262144 + o % 64 * 4096 + u % 64 * 64 + a % 64 }

  /** The code point read at the start of `b`, or -1, and the length its first byte announces. */
  function ReadPoint(b: seq<Byte>): (r: (int, nat))
    requires b != []
    ensures 1 <= r.1 <= 4 && (r.0 != -1 ==> r.1 <= |b|)
    ensures -1 <= r.0 < 0x11_0000
  {
    var c := b[0];
    var l := if c > 239 then 4 else if c > 223 then 3 else if c > 191 then 2 else 1;
    if l > |b| then (-1, l)
    else if l == 1 then (if c < 128 then c else -1, l)
    else if l == 2 then
      var s := Value2(c, b[1]);
      (if IsTail(b[1]) && s > 127 then s else -1, l)
    else if l == 3 then
      var s := Value3(c, b[1], b[2]);
      (if IsTail(b[1]) && IsTail(b[2]) && s > 2047 && (s < 55296 || s > 57343) then s else -1, l)
    else
      var s := Value4(c, b[1], b[2], b[3]);
      (if IsTail(b[1]) && IsTail(b[2]) && IsTail(b[3]) && s > 65535 && s < 1114112 then s else -1, l)
  }

  /** The units produced by one step of the decoder, and the bytes it consumes. */
  function Step(b: seq<Byte>): (r: (seq<CodeUnit>, nat))
    requires b != []
    ensures 1 <= r.1 <= |b|
  {
    var (f, l) := ReadPoint(b);
    if f == -1 then ([REPLACEMENT], 1)
    else if f > 65535 then ([(f - 65536) / 1024 % 1024 + 55296, 56320 + (f - 65536) % 1024], l)
    else ([f], l)
  }

  function Decode(b: seq<Byte>): seq<CodeUnit>
    decreases |b|
  {
    if b == [] then [] else Step(b).0 + Decode(b[Step(b).1..])
  }

  // ----- characters

  /** Reading succeeds exactly on a character of the grammar, takes exactly its bytes, and yields a scalar value:
      never an overlong form, never a surrogate. */
  lemma ReadPointIsChar(b: seq<Byte>)
    requires b != []
    ensures ReadPoint(b).0 != -1 <==> CharLen(b) > 0
    ensures CharLen(b) > 0 ==>
              && ReadPoint(b).1 == CharLen(b) && IsScalar(ReadPoint(b).0)
              && EncodePoint(ReadPoint(b).0) == b[..CharLen(b)]
  {
    var c := b[0];
    if c < 0xC0 {
    } else if c < 0xE0 {
      if |b| >= 2 { TwoBytes(c, b[1]); }
    } else if c < 0xF0 {
      if |b| >= 3 { ThreeBytes(c, b[1], b[2]); }
    } else {
      if |b| >= 4 { FourBytes(c, b[1], b[2], b[3]); }
    }
  }

  lemma TwoBytes(c: Byte, o: Byte)
    requires 0xC0 <= c < 0xE0
    ensures var s := Value2(c, o);
            && (IsTail(o) && s > 127 <==> Fits([c, o]))
            && (Fits([c, o]) ==> IsScalar(s) && EncodePoint(s) == [c, o])
  {
    hide Fits, EncodePoint, IsScalar, Value2;
    TailsOfFits([c, o]);
    assert [c, o][1] == o;
    if IsTail(o) {
      TwoValue(c, o);
      TwoFit(c - 0xC0, o - 0x80);
      TwoEncoded(c - 0xC0, o - 0x80);
    }
  }

  lemma ThreeBytes(c: Byte, o: Byte, u: Byte)
    requires 0xE0 <= c < 0xF0
    ensures var s := Value3(c, o, u);
            && (IsTail(o) && IsTail(u) && s > 2047 && (s < 55296 || s > 57343) <==> Fits([c, o, u]))
            && (Fits([c, o, u]) ==> IsScalar(s) && EncodePoint(s) == [c, o, u])
  {
    hide Fits, EncodePoint, IsScalar, Value3;
    TailsOfFits([c, o, u]);
    assert [c, o, u][1] == o && [c, o, u][2] == u;
    if IsTail(o) && IsTail(u) {
      ThreeValue(c, o, u);
      ThreeFit(c - 0xE0, o - 0x80, u - 0x80);
      ThreeEncoded(c - 0xE0, o - 0x80, u - 0x80);
    }
  }

  lemma TailsOfFits(p: seq<Byte>)
    ensures Fits(p) ==> forall i :: 1 <= i < |p| ==> IsTail(p[i])
  {
  }

  lemma TwoValue(c: Byte, o: Byte)
    requires 0xC0 <= c < 0xE0 && IsTail(o)
    ensures Value2(c, o) == (c - 0xC0) * 64 + (o - 0x80)
  {
    assert c % 32 == c - 0xC0 && o % 64 == o - 0x80;
  }

  lemma ThreeValue(c: Byte, o: Byte, u: Byte)
    requires 0xE0 <= c < 0xF0 && IsTail(o) && IsTail(u)
    ensures Value3(c, o, u) == (c - 0xE0) * 4096 + (o - 0x80) * 64 + (u - 0x80)
  {
    assert c % 16 == c - 0xE0 && o % 64 == o - 0x80 && u % 64 == u - 0x80;
  }

  /** Base-64 digits are recovered by division. */
  lemma TwoDigits(i: nat, j: nat)
    requires i < 32 && j < 64
    ensures var s := i * 64 + j; s / 64 == i && s % 64 == j
  {
  }

  lemma ThreeDigits(i: nat, j: nat, k: nat)
    requires i < 16 && j < 64 && k < 64
    ensures var s := i * 4096 + j * 64 + k;
            s / 4096 == i && s / 64 == i * 64 + j && s / 64 % 64 == j && s % 64 == k
  {
  }

  lemma FourDigits(i: nat, j: nat, k: nat, l: nat)
    requires i < 16 && j < 64 && k < 64 && l < 64
    ensures var s := i * 262144 + j * 4096 + k * 64 + l;
            && s / 262144 == i && s / 4096 % 64 == j && s / 64 % 64 == k && s % 64 == l
  {
    var s := i * 262144 + j * 4096 + k * 64 + l;
    assert s / 64 == i * 4096 + j * 64 + k;
    assert s / 4096 == i * 64 + j;
  }

  /** Two-byte characters, by the digits of their values. */
  lemma TwoFit(i: nat, j: nat)
    requires i < 32 && j < 64
    ensures 127 < i * 64 + j <==> Fits([i + 0xC0, j + 0x80])
  {
  }

  lemma TwoEncoded(i: nat, j: nat)
    requires i < 32 && j < 64
    ensures var s := i * 64 + j;
            127 < s ==> IsScalar(s) && EncodePoint(s) == [i + 0xC0, j + 0x80]
  {
    TwoDigits(i, j);
  }

  /** Three-byte characters, by the digits of their values. */
  lemma ThreeFit(i: nat, j: nat, k: nat)
    requires i < 16 && j < 64 && k < 64
    ensures var s := i * 4096 + j * 64 + k;
            2047 < s && (s < 55296 || 57343 < s) <==> Fits([i + 0xE0, j + 0x80, k + 0x80])
  {
  }

  lemma ThreeEncoded(i: nat, j: nat, k: nat)
    requires i < 16 && j < 64 && k < 64
    ensures var s := i * 4096 + j * 64 + k;
            2047 < s && (s < 55296 || 57343 < s) ==> IsScalar(s) && EncodePoint(s) == [i + 0xE0, j + 0x80, k + 0x80]
  {
    ThreeDigits(i, j, k);
  }

  /** Four-byte characters, by the digits of their values. */
  lemma FourFit(i: nat, j: nat, k: nat, l: nat)
    requires i < 16 && j < 64 && k < 64 && l < 64
    ensures var s := i * 262144 + j * 4096 + k * 64 + l;
            65535 < s < 1114112 <==> Fits([i + 0xF0, j + 0x80, k + 0x80, l + 0x80])
  {
  }

  lemma FourEncoded(i: nat, j: nat, k: nat, l: nat)
    requires i < 16 && j < 64 && k < 64 && l < 64
    ensures var s := i * 262144 + j * 4096 + k * 64 + l;
            65535 < s < 1114112 ==> IsScalar(s) && EncodePoint(s) == [i + 0xF0, j + 0x80, k + 0x80, l + 0x80]
  {
    FourDigits(i, j, k, l);
  }

  lemma FourBytes(c: Byte, o: Byte, u: Byte, a: Byte)
    requires 0xF0 <= c
    ensures var s := Value4(c, o, u, a);
            && (IsTail(o) && IsTail(u) && IsTail(a) && s > 65535 && s < 1114112 <==> Fits([c, o, u, a]))
            && (Fits([c, o, u, a]) ==> IsScalar(s) && EncodePoint(s) == [c, o, u, a])
  {
    hide Fits, EncodePoint, IsScalar, Value4;
    TailsOfFits([c, o, u, a]);
    assert [c, o, u, a][1] == o && [c, o, u, a][2] == u && [c, o, u, a][3] == a;
    if IsTail(o) && IsTail(u) && IsTail(a) {
      FourValue(c, o, u, a);
      FourFit(c - 0xF0, o - 0x80, u - 0x80, a - 0x80);
      FourEncoded(c - 0xF0, o - 0x80, u - 0x80, a - 0x80);
    }
  }

  lemma FourValue(c: Byte, o: Byte, u: Byte, a: Byte)
    requires 0xF0 <= c && IsTail(o) && IsTail(u) && IsTail(a)
    ensures Value4(c, o, u, a) == (c - 0xF0) * 262144 + (o - 0x80) * 4096 + (u - 0x80) * 64 + (a - 0x80)
  {
    assert c % 16 == c - 0xF0 && o % 64 == o - 0x80 && u % 64 == u - 0x80 && a % 64 == a - 0x80;
  }

  lemma EncodedFits(n: int)
    requires IsScalar(n)
    ensures Fits(EncodePoint(n)) && |EncodePoint(n)| == Demand(EncodePoint(n)[0])
  {
    if n >= 0x800 {
      LongFits(n);
    }
  }

  lemma LongFits(n: int)
    requires IsScalar(n) && n >= 0x800
    ensures Fits(EncodePoint(n)) && |EncodePoint(n)| == Demand(EncodePoint(n)[0])
  {
    hide Fits;
    Recompose(n);
    if n >= 0x1_0000 {
      FourFit(n / 262144, n / 4096 % 64, n / 64 % 64, n % 64);
    } else {
      ThreeFit(n / 4096, n / 64 % 64, n % 64);
    }
    FitsWithin(EncodePoint(n));
  }

  lemma FitsWithin(p: seq<Byte>)
    requires Fits(p)
    ensures p[0] >= 0xE0 && |p| == (if p[0] >= 0xF0 then 4 else 3) ==> |p| == Demand(p[0])
  {
  }

  lemma EncodePointInjective(m: int, n: int)
    requires 0 <= m < 0x11_0000 && 0 <= n < 0x11_0000 && EncodePoint(m) == EncodePoint(n)
    ensures m == n
  {
    if n >= 0x1_0000 {
      Recompose(m);
      Recompose(n);
      assert EncodePoint(m)[0] == EncodePoint(n)[0] && EncodePoint(m)[1] == EncodePoint(n)[1];
      assert EncodePoint(m)[2] == EncodePoint(n)[2] && EncodePoint(m)[3] == EncodePoint(n)[3];
    } else if n >= 0x800 {
      Recompose(m);
      Recompose(n);
      assert EncodePoint(m)[0] == EncodePoint(n)[0] && EncodePoint(m)[1] == EncodePoint(n)[1];
      assert EncodePoint(m)[2] == EncodePoint(n)[2];
    } else if n >= 0x80 {
      assert EncodePoint(m)[0] == EncodePoint(n)[0] && EncodePoint(m)[1] == EncodePoint(n)[1];
    } else {
      assert EncodePoint(m)[0] == EncodePoint(n)[0];
    }
  }

  lemma Recompose(n: nat)
    ensures n == n / 262144 * 262144 + n / 4096 % 64 * 4096 + n / 64 % 64 * 64 + n % 64
    ensures n == n / 4096 * 4096 + n / 64 % 64 * 64 + n % 64
  {
    var a := n / 64;
    var b := a / 64;
    assert n / 4096 == b && n / 262144 == b / 64;
  }

  /** The encoding of a scalar value is one whole character, and reading it gives the value back. */
  lemma EncodedPoint(n: int, rest: seq<Byte>)
    requires IsScalar(n)
    ensures var e := EncodePoint(n);
            && Fits(e) && |e| == Demand(e[0])
            && CharLen(e + rest) == |e|
            && ReadPoint(e + rest) == (n, |e|)
  {
    EncodedFits(n);
    hide Fits, EncodePoint, ReadPoint, SecondFits, Demand;
    var e := EncodePoint(n);
    var b := e + rest;
    assert b[..|e|] == e && b[0] == e[0];
    ReadPointIsChar(b);
    EncodePointInjective(ReadPoint(b).0, n);
  }

  lemma EncodeUnits(n: int, s: seq<CodeUnit>)
    requires IsScalar(n)
    ensures Encode(Units(n) + s) == EncodePoint(n) + Encode(s)
  {
    hide EncodePoint;
    var t := Units(n) + s;
    if n < 0x1_0000 {
      assert t[1..] == s;
    } else {
      UnitsOfPair(n);
      hide Units;
      var rest := t[1..];
      assert rest != [] && rest[0] == Units(n)[1] && rest[1..] == s;
      assert EncodeFrom(0, t) == EncodeFrom(t[0], rest);
    }
  }

  /** A well-formed string starts with the units of a scalar value. */
  lemma FirstScalar(s: seq<CodeUnit>) returns (n: int, rest: seq<CodeUnit>)
    requires WellFormed(s) && s != []
    ensures IsScalar(n) && s == Units(n) + rest && WellFormed(rest) && |rest| < |s|
  {
    if IsLead(s[0]) {
      n, rest := PairPoint(s[0], s[1]), s[2..];
      PairOfUnits(s[0], s[1]);
    } else {
      n, rest := s[0], s[1..];
    }
  }

  /** One step of the decoder takes a whole character, or replaces one byte. */
  lemma StepIsChar(b: seq<Byte>)
    requires b != []
    ensures CharLen(b) > 0 ==>
              && IsScalar(ReadPoint(b).0) && Step(b) == (Units(ReadPoint(b).0), CharLen(b))
              && b == EncodePoint(ReadPoint(b).0) + b[CharLen(b)..]
    ensures CharLen(b) == 0 ==> Step(b) == ([0xFFFD], 1)
  {
    hide EncodePoint, CharLen, Fits, ReadPoint;
    ReadPointIsChar(b);
  }

  lemma DecodeEncodedPoint(n: int, rest: seq<Byte>)
    requires IsScalar(n)
    ensures Decode(EncodePoint(n) + rest) == Units(n) + Decode(rest)
  {
    hide EncodePoint, ReadPoint, CharLen, Fits, Units, Step, Demand;
    EncodedPoint(n, rest);
    StepIsChar(EncodePoint(n) + rest);
    assert (EncodePoint(n) + rest)[|EncodePoint(n)|..] == rest;
  }

  // ----- the round trips

  /** A lead surrogate at the very end, after another lead, is forgotten by the encoder. */
  predicate EndsInTwoLeads(s: seq<CodeUnit>) { |s| >= 2 && IsLead(s[|s| - 2]) && IsLead(s[|s| - 1]) }

  function Heard(s: seq<CodeUnit>): seq<CodeUnit> { if EndsInTwoLeads(s) then s[..|s| - 1] else s }

  lemma HeardRest(s: seq<CodeUnit>, k: nat)
    requires 1 <= k <= 2 && k <= |s| && (k == 1 && |s| == 2 ==> !EndsInTwoLeads(s)) && (k == 2 ==> !IsLead(s[1]))
    ensures Heard(s) == s[..k] + Heard(s[k..])
  {
    assert s == s[..k] + s[k..];
    if EndsInTwoLeads(s) { assert s[..|s| - 1] == s[..k] + s[k..][..|s| - k - 1]; }
  }

  /** Encoding a string that starts with a surrogate that has no partner. */
  lemma EncodeLone(s: seq<CodeUnit>)
    requires s != [] && IsLone(s, 0)
    ensures Encode(s) == Replaced() + if |s| == 2 && EndsInTwoLeads(s) then [] else Encode(s[1..])
  {
    hide EncodePoint, PairPoint, Replaced;
    var rest := s[1..];
    if IsLead(s[0]) && rest != [] {
      assert Encode(s) == EncodeFrom(s[0], rest);
      if IsLead(rest[0]) {
        assert EncodeFrom(s[0], rest) == Replaced() + EncodeFrom(rest[0], rest[1..]);
        if rest[1..] != [] { assert Encode(rest) == EncodeFrom(rest[0], rest[1..]); }
      }
    }
  }

  /** What comes back of any string: U+FFFD for every surrogate without a partner, and nothing for a lead at the end
      that follows another lead. */
  lemma {:induction false} DecodeOfEncode(s: seq<CodeUnit>)
    ensures Decode(Encode(s)) == Mended(Heard(s), 0xFFFD)
    decreases |s|
  {
    hide Decode, Mended, EncodePoint, PairPoint, EncodeFrom, EndsInTwoLeads, Heard;
    if s == [] {
      EmptyComesBack();
    } else if IsLone(s, 0) {
      LoneComesBack(s);
    } else {
      var k := if IsLead(s[0]) then 2 else 1;
      var n := if k == 2 then PairPoint(s[0], s[1]) else s[0];
      if k == 2 { PairOfUnits(s[0], s[1]); }
      DecodeOfEncode(s[k..]);
      assert s == Units(n) + s[k..];
      EncodeUnits(n, s[k..]);
      DecodeEncodedPoint(n, Encode(s[k..]));
      HeardFirst(s);
    }
  }

  lemma HeardFirst(s: seq<CodeUnit>)
    requires s != []
    ensures var r := Mended(Heard(s), 0xFFFD);
            if IsLone(s, 0) then
              r == [0xFFFD] + if |s| == 2 && EndsInTwoLeads(s) then [] else Mended(Heard(s[1..]), 0xFFFD)
            else
              var k := if IsLead(s[0]) then 2 else 1;
              r == s[..k] + Mended(Heard(s[k..]), 0xFFFD)
  {
    hide Mended;
    var h := Heard(s);
    MendedFirst(h, 0xFFFD);
    if |s| == 2 && EndsInTwoLeads(s) {
      assert h[1..] == [];
      EmptyComesBack();
    } else {
      var k := if !IsLone(s, 0) && IsLead(s[0]) then 2 else 1;
      HeardRest(s, k);
      assert h[k..] == Heard(s[k..]) && h[..k] == s[..k];
    }
  }

  lemma EmptyComesBack()
    ensures Decode(Encode([])) == Decode([]) == [] && Mended(Heard([]), 0xFFFD) == [] && Mended([], 0xFFFD) == []
  {
  }

  lemma LoneComesBack(s: seq<CodeUnit>)
    requires s != [] && IsLone(s, 0)
    ensures Decode(Encode(s)) == Mended(Heard(s), 0xFFFD)
    decreases |s|, 0
  {
    hide Decode, Mended, EncodePoint, PairPoint, EncodeFrom, EndsInTwoLeads, Heard;
    EncodeLone(s);
    ReplacedIsEncoded();
    HeardFirst(s);
    if |s| == 2 && EndsInTwoLeads(s) {
      EmptyComesBack();
      DecodeEncodedPoint(0xFFFD, []);
    } else {
      DecodeOfEncode(s[1..]);
      DecodeEncodedPoint(0xFFFD, Encode(s[1..]));
    }
    assert Units(0xFFFD) == [0xFFFD];
  }

  lemma {:induction false} DecodeEncode(s: seq<CodeUnit>)
    requires WellFormed(s)
    ensures Decode(Encode(s)) == s
    decreases |s|
  {
    if s != [] {
      var n, rest := FirstScalar(s);
      DecodeEncode(rest);
      EncodeUnits(n, rest);
      DecodeEncodedPoint(n, Encode(rest));
    }
  }

  /** Whatever the bytes, the decoder's output has no lone surrogate. */
  lemma {:induction false} DecodeWellFormed(b: seq<Byte>)
    ensures WellFormed(Decode(b))
    decreases |b|
  {
    if b != [] {
      DecodeWellFormed(b[Step(b).1..]);
      ReadPointIsChar(b);
      var rest := Decode(b[Step(b).1..]);
      if |Step(b).0| == 1 {
        assert Decode(b)[1..] == rest;
      } else {
        assert Decode(b)[2..] == rest;
      }
    }
  }

  /** Decoding undoes encoding exactly on the strings without lone surrogates. */
  lemma DecodeUndoesEncode(s: seq<CodeUnit>)
    ensures Decode(Encode(s)) == s <==> WellFormed(s)
  {
    DecodeWellFormed(Encode(s));
    if WellFormed(s) { DecodeEncode(s); }
  }

  lemma ValidAppendChar(n: int, rest: seq<Byte>)
    requires IsScalar(n) && ValidUtf8(rest)
    ensures ValidUtf8(EncodePoint(n) + rest)
  {
    EncodedPoint(n, rest);
    assert (EncodePoint(n) + rest)[|EncodePoint(n)|..] == rest;
  }

  lemma ReplacedIsEncoded()
    ensures Replaced() == EncodePoint(0xFFFD)
  {
  }

  /** Whatever the string, the encoder's output is valid UTF-8. */
  lemma {:induction false} EncodeValid(lead: int, s: seq<CodeUnit>)
    requires lead == 0 || IsLead(lead)
    ensures ValidUtf8(EncodeFrom(lead, s))
    decreases |s|
  {
    hide EncodePoint, ValidUtf8, Replaced, PairPoint;
    if s == [] {
      EmptyIsValid();
    } else {
      var n, rest := s[0], s[1..];
      ReplacedIsEncoded();
      EncodeValid(0, rest);
      if IsLead(n) {
        ValidAppendChar(0xFFFD, EncodeFrom(0, rest));
        EncodeValid(n, rest);
        ValidAppendChar(0xFFFD, EncodeFrom(n, rest));
      } else if IsTrail(n) {
        ValidAppendChar(0xFFFD, EncodeFrom(0, rest));
        if lead != 0 { ValidAppendChar(PairPoint(lead, n), EncodeFrom(0, rest)); }
      } else {
        var e := EncodePoint(n) + EncodeFrom(0, rest);
        ValidAppendChar(n, EncodeFrom(0, rest));
        ValidAppendChar(0xFFFD, e);
        assert EncodeFrom(lead, s) == if lead != 0 then Replaced() + e else e;
      }
    }
  }

  lemma EmptyIsValid()
    ensures ValidUtf8([])
  {
  }

  lemma {:induction false} EncodeDecode(b: seq<Byte>)
    requires ValidUtf8(b)
    ensures Encode(Decode(b)) == b
    decreases |b|
  {
    hide EncodePoint, ReadPoint, CharLen, Fits, Units, Step;
    if b != [] {
      EncodeDecode(b[CharLen(b)..]);
      StepIsChar(b);
      EncodeUnits(ReadPoint(b).0, Decode(b[CharLen(b)..]));
    }
  }

  /** Encoding undoes decoding exactly on valid UTF-8. */
  lemma EncodeUndoesDecode(b: seq<Byte>)
    ensures Encode(Decode(b)) == b <==> ValidUtf8(b)
  {
    EncodeValid(0, Decode(b));
    if ValidUtf8(b) { EncodeDecode(b); }
  }
}
