/** The base64 module as it runs: tables, chunks of 16383 bytes, and bit expressions. */
module Base64Code {
  import opened Options
  import opened Strings
  import opened Bits
  import opened ByteBits
  import opened Bytes
  import opened Base64

  const CAPITALS := "ABCDEFGHIJKLM" + "NOPQRSTUVWXYZ"
  const SMALLS := "abcdefghijklm" + "nopqrstuvwxyz"
  const ALPHABET := CAPITALS + SMALLS + "0123456789+/"
  const CHUNK := 16383

  lemma Alphabetical(k: nat)
    ensures k < 13 ==> "ABCDEFGHIJKLM"[k] == 'A' + k as char && "NOPQRSTUVWXYZ"[k] == 'N' + k as char
    ensures k < 13 ==> "abcdefghijklm"[k] == 'a' + k as char && "nopqrstuvwxyz"[k] == 'n' + k as char
    ensures k < 10 ==> "0123456789+/"[k] == '0' + k as char
  {
  }

  lemma FiveParts(p0: string, p1: string, p2: string, p3: string, p4: string, k: nat)
    requires |p0| == |p1| == |p2| == |p3| == 13
    ensures var s := (p0 + p1) + (p2 + p3) + p4;
            && |s| == 52 + |p4|
            && (k < |s| ==> s[k] == if k < 13 then p0[k] else if k < 26 then p1[k - 13] else if k < 39 then p2[k - 26]
                                    else if k < 52 then p3[k - 39] else p4[k - 52])
  {
  }

  lemma AlphabetLetters(k: nat)
    ensures |ALPHABET| == 64
    ensures k < 64 ==> ALPHABET[k] == Letter(k)
  {
    FiveParts("ABCDEFGHIJKLM", "NOPQRSTUVWXYZ", "abcdefghijklm", "nopqrstuvwxyz", "0123456789+/", k);
    if k < 13 {
      Alphabetical(k);
    } else if k < 26 {
      Alphabetical(k - 13);
    } else if k < 39 {
      Alphabetical(k - 26);
    } else if k < 52 {
      Alphabetical(k - 39);
    } else if k < 62 {
      Alphabetical(k - 52);
    }
  }

  /** A table entry; one that is missing counts as 0 in a bit expression. */
  function At(values: map<int, Sextet>, c: char): Sextet { if c as int in values then values[c as int] else 0 }

  /** The two tables, from letters to characters and back. */
  method BuildTables() returns (letters: seq<char>, values: map<int, Sextet>)
    ensures |letters| == 64 && forall k: Sextet :: letters[k] == Letter(k)
    ensures forall c: char :: At(values, c) == Value(c)
  {
    hide Letter, Value, IsLetter;
    letters, values := [], map[];
    AlphabetLetters(0);
    for a := 0 to |ALPHABET|
      invariant |letters| == a && forall k :: 0 <= k < a ==> letters[k] == Letter(k)
      invariant forall k :: 0 <= k < a ==> Letter(k) as int in values && values[Letter(k) as int] == k
      invariant forall i :: i in values ==> exists k :: 0 <= k < a && Letter(k) as int == i
    {
      AlphabetLetters(a);
      forall k | 0 <= k < a
        ensures Letter(k) != Letter(a)
      {
        ValueOfLetter(k);
        ValueOfLetter(a);
      }
      letters := letters + [ALPHABET[a]];
      values := values[ALPHABET[a] as int := a];
    }
    ghost var plain := values;
    values := values['-' as int := 62];
    values := values['_' as int := 63];
    forall c: char
      ensures At(values, c) == Value(c)
    {
      ValueInTable(plain, c);
    }
  }

  lemma ValueInTable(values: map<int, Sextet>, c: char)
    requires forall k :: 0 <= k < 64 ==> Letter(k) as int in values && values[Letter(k) as int] == k
    requires forall i :: i in values ==> exists k :: 0 <= k < 64 && Letter(k) as int == i
    ensures Value(c) == At(values['-' as int := 62]['_' as int := 63], c)
  {
    hide Letter;
    if IsLetter(c) {
      LetterOfValue(c);
    } else if c as int in values {
      var k :| 0 <= k < 64 && Letter(k) as int == c as int;
      ValueOfLetter(k);
      assert false;
    }
  }

  // ----- encoding

  lemma QuadBits(a: Byte, b: Byte, c: Byte)
    ensures var o := a * 65536 + b * 256 + c;
            && o / 262144 % 64 == a / 4 && o / 4096 % 64 == a % 4 * 16 + b / 16
            && o / 64 % 64 == b % 16 * 4 + c / 64 && o % 64 == c % 64
  {
    var p: int, q: int, r: int, s: int, u: int, v: int := a / 4, a % 4, b / 16, b % 16, c / 64, c % 64;
    var o: int := a * 65536 + b * 256 + c;
    RemainderUnique(o, 262144, p, q * 65536 + b * 256 + c);
    RemainderUnique(o, 4096, a * 16 + r, s * 256 + c);
    RemainderUnique(a * 16 + r, 64, p, q * 16 + r);
    RemainderUnique(o, 64, a * 1024 + b * 4 + u, v);
    RemainderUnique(a * 1024 + b * 4 + u, 64, a * 16 + r, s * 4 + u);
  }

  lemma LowSix(x: nat)
    ensures Low(x, 6) == x % 64
  {
    hide Low;
    SmallBits();
  }

  lemma Fields(a: Byte, b: Byte, c: Byte)
    ensures And(Shl(a, 16), 16711680) + And(Shl(b, 8), 65280) + Low(c, 8) == a * 65536 + b * 256 + c
  {
    hide And, Shl, Low, Bit;
    ByteMasks();
    LargeBits();
    ByteField(a, 16);
    ByteField(b, 8);
  }

  method EncodeGroup(letters: seq<char>, a: Byte, b: Byte, c: Byte) returns (text: string)
    requires |letters| == 64 && forall k: Sextet :: letters[k] == Letter(k)
    ensures text == Quad(a, b, c)
  {
    hide Letter, Low, And, Shl;
    Fields(a, b, c);
    QuadBits(a, b, c);
    var o: nat := And(Shl(a, 16), 16711680) + And(Shl(b, 8), 65280) + Low(c, 8);
    LowSix(o / 262144);
    LowSix(o / 4096);
    LowSix(o / 64);
    LowSix(o);
    text := [letters[Low(o / 262144, 6)], letters[Low(o / 4096, 6)], letters[Low(o / 64, 6)], letters[Low(o, 6)]];
  }

  /** The text of `t[from..to]`, three bytes at a time. */
  method EncodeChunk(letters: seq<char>, t: seq<Byte>, from: nat, to: nat) returns (text: string)
    requires |letters| == 64 && forall k: Sextet :: letters[k] == Letter(k)
    requires from <= to <= |t| && (to - from) % 3 == 0
    ensures text == Encode(t[from..to])
  {
    hide Encode, Letter, Quad;
    text := "";
    EncodeNothing();
    assert t[from..from] == [];
    var a := from;
    while a < to
      invariant from <= a <= to && (a - from) % 3 == 0 && text == Encode(t[from..a])
    {
      var group := EncodeGroup(letters, t[a], t[a + 1], t[a + 2]);
      text := text + group;
      EncodeMore(t, from, a);
      a := a + 3;
    }
  }

  lemma EncodeMore(t: seq<Byte>, from: nat, a: nat)
    requires from <= a && a + 3 <= |t| && (a - from) % 3 == 0
    ensures Encode(t[from..a + 3]) == Encode(t[from..a]) + Quad(t[a], t[a + 1], t[a + 2])
  {
    hide Encode, Quad;
    EncodeSplit(t[from..a], t[a..a + 3]);
    assert t[from..a] + t[a..a + 3] == t[from..a + 3];
    EncodeTriple(t[a..a + 3]);
  }

  method FromByteArray(letters: seq<char>, t: seq<Byte>) returns (text: string)
    requires |letters| == 64 && forall k: Sextet :: letters[k] == Letter(k)
    ensures text == Encode(t)
  {
    hide Encode, Letter, Base64.Tail;
    var n := |t|;
    var i := n % 3;
    var a := n - i;
    var u := 0;
    text := "";
    EncodeNothing();
    assert t[..0] == [];
    while u < a
      invariant 0 <= u && u % 3 == 0
      invariant text == Encode(t[..if u > a then a else u])
      decreases a - u
    {
      var to := if u + CHUNK > a then a else u + CHUNK;
      var chunk := EncodeChunk(letters, t, u, to);
      EncodeSplit(t[..u], t[u..to]);
      assert t[..u] + t[u..to] == t[..to];
      text := text + chunk;
      u := u + CHUNK;
    }
    assert t == t[..a] + t[a..];
    EncodeSplit(t[..a], t[a..]);
    if i == 0 {
      assert t[..a] == t;
      return;
    }
    EncodeLast(t[a..]);
    var last := EncodeTail(letters, t[a..]);
    text := text + last;
  }

  /** The one or two bytes after the last whole group, with pads. */
  method EncodeTail(letters: seq<char>, r: seq<Byte>) returns (text: string)
    requires |letters| == 64 && forall k: Sextet :: letters[k] == Letter(k)
    requires 1 <= |r| <= 2
    ensures text == Base64.Tail(r)
  {
    hide Letter, Low, Bit, Shl;
    SmallBits();
    LargeBits();
    if |r| == 1 {
      var e: nat := r[0];
      ShlIsMul(e, 4);
      PairBits(r[0], 0);
      text := [letters[e / 4], letters[Low(Shl(e, 4), 6)]] + "==";
    } else {
      ShlIsMul(r[0], 8);
      var e: nat := Shl(r[0], 8) + r[1];
      PairBits(r[0], r[1]);
      ShlIsMul(e, 2);
      text := [letters[e / 1024], letters[Low(e / 16, 6)], letters[Low(Shl(e, 2), 6)]] + "=";
    }
  }

  lemma PairBits(a: Byte, b: Byte)
    ensures var e := a * 256 + b;
            e / 1024 == a / 4 && e / 16 % 64 == a % 4 * 16 + b / 16 && e * 4 % 64 == b % 16 * 4
    ensures a * 16 % 64 == a % 4 * 16
  {
    var p: int, q: int, r: int, s: int := a / 4, a % 4, b / 16, b % 16;
    var e: int := 1024 * p + 256 * q + 16 * r + s;
    assert e / 16 == 64 * p + 16 * q + r;
    RemainderUnique(64 * p + 16 * q + r, 64, p, 16 * q + r);
    RemainderUnique(4 * e, 64, 64 * p + 16 * q + r, 4 * s);
    RemainderUnique(16 * (4 * p + q), 64, p, 16 * q);
  }

  // ----- decoding

  /** The position of the first pad, or the length, and how many characters the last group lacks. */
  method Lens(t: string) returns (r: Result<(nat, nat), DecodeError>)
    ensures if |t| % 4 != 0 then r == Failure(BadLength)
            else var i := IndexFrom(t, PAD, 0);
                 r == Success(if i < 0 then (|t|, 0) else (i, 4 - i % 4))
  {
    if |t| % 4 > 0 {
      return Failure(BadLength);
    }
    var n := IndexFrom(t, '=', 0);
    if n == -1 {
      n := |t|;
    }
    r := Success((n, if n == |t| then 0 else 4 - n % 4));
  }

  /** `i[l] << 18 | i[l + 1] << 12 | i[l + 2] << 6 | i[l + 3]` */
  method FourValues(v0: Sextet, v1: Sextet, v2: Sextet, v3: Sextet) returns (e: nat)
    ensures e == v0 * 262144 + v1 * 4096 + v2 * 64 + v3
  {
    hide Or, Shl, Bit;
    LargeBits();
    SmallBits();
    ShlIsMul(v1, 12);
    ShlIsMul(v2, 6);
    e := Above(v0, Shl(v1, 12), 18);
    ShlIsMul(v0 * 64 + v1, 12);
    assert e == Shl(v0 * 64 + v1, 12);
    e := Above(v0 * 64 + v1, Shl(v2, 6), 12);
    ShlIsMul((v0 * 64 + v1) * 64 + v2, 6);
    assert e == Shl((v0 * 64 + v1) * 64 + v2, 6);
    e := Above((v0 * 64 + v1) * 64 + v2, v3, 6);
  }

  lemma TripleBits(v0: Sextet, v1: Sextet, v2: Sextet, v3: Sextet)
    ensures var e := v0 * 262144 + v1 * 4096 + v2 * 64 + v3;
            && e / 65536 % 256 == v0 * 4 + v1 / 16 && e / 256 % 256 == v1 % 16 * 16 + v2 / 4
            && e % 256 == v2 % 4 * 64 + v3
  {
    var p: int, q: int, r: int, s: int := v1 / 16, v1 % 16, v2 / 4, v2 % 4;
    var a: int, b: int, c: int := v0 * 4 + p, q * 16 + r, s * 64 + v3;
    var e: int := a * 65536 + b * 256 + c;
    RemainderUnique(e, 65536, a, b * 256 + c);
    RemainderUnique(e, 256, a * 256 + b, c);
    RemainderUnique(a * 256 + b, 256, a, b);
    RemainderUnique(a, 256, 0, a);
  }

  method DecodeGroup(values: map<int, Sextet>, t: string, l: nat) returns (b0: Byte, b1: Byte, b2: Byte)
    requires forall c: char :: At(values, c) == Value(c)
    requires l + 4 <= |t|
    ensures [b0, b1, b2] == Triple(t[l..l + 4])
  {
    hide Value, Low, At, Bit;
    var e := FourValues(At(values, t[l]), At(values, t[l + 1]), At(values, t[l + 2]), At(values, t[l + 3]));
    TripleBits(Value(t[l]), Value(t[l + 1]), Value(t[l + 2]), Value(t[l + 3]));
    LowByte(e / 65536);
    LowByte(e / 256);
    LowByte(e);
    b0, b1, b2 := Low(e / 65536, 8), Low(e / 256, 8), Low(e, 8);
  }

  lemma LowByte(x: nat)
    ensures Low(x, 8) == x % 256
  {
    hide Low;
    LargeBits();
  }

  /** The one byte of a last group with two pads: `i[l] << 2 | i[l + 1] >> 4`. */
  method DecodeOne(values: map<int, Sextet>, t: string, l: nat) returns (b: Byte)
    requires forall c: char :: At(values, c) == Value(c)
    requires l + 2 <= |t|
    ensures [b] == Triple(t[l..l + 2] + "AA")[..1]
  {
    hide Value, Low, At, Bit;
    LargeBits();
    var e := Above(At(values, t[l]), At(values, t[l + 1]) / 16, 2);
    LowByte(e);
    b := Low(e, 8);
  }

  /** The two bytes of a last group with one pad: `i[l] << 10 | i[l + 1] << 4 | i[l + 2] >> 2`. */
  method DecodeTwo(values: map<int, Sextet>, t: string, l: nat) returns (b0: Byte, b1: Byte)
    requires forall c: char :: At(values, c) == Value(c)
    requires l + 3 <= |t|
    ensures [b0, b1] == Triple(t[l..l + 3] + "A")[..2]
  {
    hide Value, Low, At, Bit, Shl, Or;
    LargeBits();
    SmallBits();
    var v0: nat, v1: nat, v2: nat := At(values, t[l]), At(values, t[l + 1]), At(values, t[l + 2]);
    ShlIsMul(v1, 4);
    var e := Above(v0, Shl(v1, 4), 10);
    ShlIsMul(v0 * 64 + v1, 4);
    e := Above(v0 * 64 + v1, v2 / 4, 4);
    TwoBytes(v0, v1, v2);
    LowByte(e / 256);
    LowByte(e);
    b0, b1 := Low(e / 256, 8), Low(e, 8);
  }

  lemma TwoBytes(v0: Sextet, v1: Sextet, v2: Sextet)
    ensures var e := v0 * 1024 + v1 * 16 + v2 / 4;
            e / 256 % 256 == v0 * 4 + v1 / 16 && e % 256 == v1 % 16 * 16 + v2 / 4
  {
    var e: int := v0 * 1024 + v1 * 16 + v2 / 4;
    RemainderUnique(e, 256, v0 * 4 + v1 / 16, v1 % 16 * 16 + v2 / 4);
    RemainderUnique(v0 * 4 + v1 / 16, 256, 0, v0 * 4 + v1 / 16);
  }

  lemma {:induction false} GroupsSplit(x: string, y: string)
    requires |x| % 4 == 0 && |y| % 4 == 0
    ensures Groups(x + y) == Groups(x) + Groups(y)
  {
    hide Triple;
    if x == "" {
      assert x + y == y;
    } else {
      assert (x + y)[..4] == x[..4] && (x + y)[4..] == x[4..] + y;
      GroupsSplit(x[4..], y);
    }
  }

  lemma GroupsMore(t: string, l: nat)
    requires l % 4 == 0 && l + 4 <= |t|
    ensures Groups(t[..l + 4]) == Groups(t[..l]) + Triple(t[l..l + 4])
  {
    hide Triple;
    var x, y := t[..l], t[l..l + 4];
    assert x + y == t[..l + 4];
    GroupsSplit(x, y);
    assert y[..4] == y && y[4..] == "";
  }

  /** The end of the groups that start before `f`. */
  function GroupsBefore(f: int): (l: nat)
    ensures l % 4 == 0
  {
    if f > 0 then (f + 3) / 4 * 4 else 0
  }

  lemma GroupsEnd(f: int, l: nat)
    requires -4 < f && l % 4 == 0 && l < f + 4
    ensures l >= f ==> l == GroupsBefore(f)
    ensures l < f ==> l + 4 <= GroupsBefore(f) && (l + 4) % 4 == 0 && (l + 4) / 4 * 3 == l / 4 * 3 + 3 <= GroupsBefore(f) / 4 * 3
  {
  }

  /** The bytes of the groups that start before `f`, into a buffer of zeros. */
  method DecodeGroups(values: map<int, Sextet>, t: string, f: int, a: array<Byte>) returns (s: nat, l: nat)
    requires forall c: char :: At(values, c) == Value(c)
    requires -4 < f && GroupsBefore(f) <= |t| && GroupsBefore(f) / 4 * 3 <= a.Length
    requires forall k :: 0 <= k < a.Length ==> a[k] == 0
    modifies a
    ensures l == GroupsBefore(f) && s == l / 4 * 3
    ensures l <= |t| && s <= a.Length && a[..s] == Groups(t[..l])
    ensures forall k :: s <= k < a.Length ==> a[k] == 0
  {
    hide Groups, Triple, Value, At, GroupsBefore;
    s, l := 0, 0;
    assert t[..0] == "" && Groups("") == [] by { NoGroups(); }
    GroupsEnd(f, l);
    while l < f
      invariant l % 4 == 0 && l < f + 4 && s == l / 4 * 3
      invariant l >= f ==> l == GroupsBefore(f)
      invariant l <= |t|
      invariant s <= a.Length && a[..s] == Groups(t[..l])
      invariant forall k :: s <= k < a.Length ==> a[k] == 0
    {
      GroupsEnd(f, l);
      GroupsMore(t, l);
      var b0, b1, b2 := DecodeGroup(values, t, l);
      a[s] := b0;
      a[s + 1] := b1;
      a[s + 2] := b2;
      s := s + 3;
      l := l + 4;
      GroupsEnd(f, l);
    }
  }

  /** Where the last group starts, if `pads` characters are missing from it; negative when there is no text before the pads. */
  function LastGroup(valid: nat, pads: nat): int { valid - (if pads == 0 || pads == 4 then pads else 4 - pads) }

  function Extra(pads: nat): nat { if pads == 1 || pads == 4 then 2 else if pads == 2 then 1 else 0 }

  /** The bytes after the whole groups. */
  function LastBytes(t: string, l: nat, pads: nat): (r: seq<Byte>)
    requires pads == 1 ==> l + 3 <= |t|
    requires pads == 2 ==> l + 2 <= |t|
    ensures |r| == Extra(pads)
  {
    if pads == 1 then Triple(t[l..l + 3] + "A")[..2]
    else if pads == 2 then Triple(t[l..l + 2] + "AA")[..1]
    else if pads == 4 then [0, 0]
    else []
  }

  /** Decoding with the first pad at `r` characters after `l`. */
  lemma DecodeAtPad(t: string, l: nat, r: nat)
    requires |t| % 4 == 0 && l % 4 == 0 && r < 4 && l + r <= |t| && IndexFrom(t, PAD, 0) == l + r
    ensures r == 0 && l == 0 ==> Decode(t) == Failure(NegativeSize)
    ensures r == 0 && l > 0 ==> Decode(t) == Success(Groups(t[..l - 4]) + LastBytes(t, l - 4, 4))
    ensures r > 0 ==> Decode(t) == Success(Groups(t[..l]) + LastBytes(t, l, 4 - r))
  {
    hide Groups, Triple, IndexFrom, Decode;
    DecodeAt(t, l, r);
    if r == 1 { assert Groups(t[..l]) + [] == Groups(t[..l]); }
  }

  lemma DecodeUnpadded(t: string)
    requires |t| % 4 == 0 && IndexFrom(t, PAD, 0) == -1
    ensures Decode(t) == Success(Groups(t[..|t|]) + LastBytes(t, |t|, 0))
  {
    hide Groups, Triple, IndexFrom, Decode;
    DecodeWhole(t);
    assert t[..|t|] == t && Groups(t) + [] == Groups(t);
  }

  lemma LastGroupWhole(valid: nat, pads: nat)
    requires pads <= 4 && (pads == 0 ==> valid % 4 == 0) && (pads > 0 ==> pads == 4 - valid % 4)
    ensures LastGroup(valid, pads) % 4 == 0
  {
  }

  /** Decoding by where the first pad is. */
  lemma DecodeByPads(t: string, valid: nat, pads: nat)
    requires |t| % 4 == 0 && valid <= |t| && pads <= 4
    requires IndexFrom(t, PAD, 0) == if pads == 0 then -1 else valid
    requires if pads == 0 then valid == |t| else pads == 4 - valid % 4
    ensures var l := LastGroup(valid, pads);
            && l % 4 == 0 && l <= |t|
            && Decode(t) == if l < 0 then Failure(NegativeSize) else Success(Groups(t[..l]) + LastBytes(t, l, pads))
  {
    hide Groups, IndexFrom, Decode, LastBytes;
    LastGroupWhole(valid, pads);
    if pads == 0 {
      DecodeUnpadded(t);
    } else if pads == 4 {
      DecodeAtPad(t, valid, 0);
    } else {
      DecodeAtPad(t, valid - (4 - pads), 4 - pads);
    }
  }

  /** The length computed for the decoded bytes. */
  function DecodedLength(valid: nat, pads: nat): int { (valid + pads) * 3 / 4 - pads }

  /** How many bytes there are, and where the last group starts. */
  lemma Sizes(valid: nat, pads: nat)
    requires pads <= 4 && (valid + pads) % 4 == 0
    ensures DecodedLength(valid, pads) == LastGroup(valid, pads) / 4 * 3 + Extra(pads)
    ensures DecodedLength(valid, pads) < 0 <==> LastGroup(valid, pads) < 0
    ensures LastGroup(valid, pads) >= 0 ==>
              GroupsBefore(if pads > 0 then valid - 4 else valid) == LastGroup(valid, pads)
  {
    var m := (valid + pads) / 4;
    var g: int := if pads == 0 then m else if pads == 4 then m - 2 else m - 1;
    var f: int := if pads > 0 then valid - 4 else valid;
    assert valid + pads == 4 * m && LastGroup(valid, pads) == 4 * g;
    RemainderUnique(4 * g, 4, g, 0);
    RemainderUnique((valid + pads) * 3, 4, 3 * m, 0);
    RemainderUnique(f + 3, 4, g, f + 3 - 4 * g);
  }

  method DecodeLast(values: map<int, Sextet>, t: string, l: nat, pads: nat, a: array<Byte>, s: nat)
    requires forall c: char :: At(values, c) == Value(c)
    requires pads == 1 ==> l + 3 <= |t|
    requires pads == 2 ==> l + 2 <= |t|
    requires a.Length == s + Extra(pads) && forall k :: s <= k < a.Length ==> a[k] == 0
    modifies a
    ensures a[..] == old(a[..s]) + LastBytes(t, l, pads)
  {
    hide Triple, Value, At;
    if pads == 2 {
      a[s] := DecodeOne(values, t, l);
    }
    if pads == 1 {
      a[s], a[s + 1] := DecodeTwo(values, t, l);
    }
  }

  method ToByteArray(values: map<int, Sextet>, t: string) returns (r: Result<seq<Byte>, DecodeError>)
    requires forall c: char :: At(values, c) == Value(c)
    ensures r == Decode(t)
  {
    hide Value, At, Decode;
    BadLengthFails(t);
    var lens := Lens(t);
    if lens.Failure? {
      return Failure(lens.error);
    }
    r := DecodeFilled(values, t, lens.value.0, lens.value.1);
  }

  /** Decodes when the letters end at `valid` and `pads` characters fill up the last group. */
  method DecodeFilled(values: map<int, Sextet>, t: string, valid: nat, pads: nat) returns (r: Result<seq<Byte>, DecodeError>)
    requires forall c: char :: At(values, c) == Value(c)
    requires |t| % 4 == 0 && valid <= |t| && pads <= 4
    requires IndexFrom(t, PAD, 0) == if pads == 0 then -1 else valid
    requires if pads == 0 then valid == |t| else pads == 4 - valid % 4
    ensures r == Decode(t)
  {
    hide Groups, Triple, Value, At, IndexFrom, Decode, LastBytes, DecodedLength, GroupsBefore;
    DecodeByPads(t, valid, pads);
    Sizes(valid, pads);
    var size := DecodedLength(valid, pads);
    if size < 0 {
      return Failure(NegativeSize);
    }
    var a := new Byte[size](_ => 0);
    var f: int := if pads > 0 then valid - 4 else valid;
    var s, l := DecodeGroups(values, t, f, a);
    DecodeLast(values, t, l, pads, a, s);
    r := Success(a[..]);
  }

  lemma DecodedSize(t: string, valid: nat, pads: nat)
    requires |t| % 4 == 0 && valid <= |t| && pads <= 4
    requires IndexFrom(t, PAD, 0) == if pads == 0 then -1 else valid
    requires if pads == 0 then valid == |t| else pads == 4 - valid % 4
    ensures Decode(t).Success? ==> |Decode(t).value| == DecodedLength(valid, pads)
  {
    hide Groups, Triple, IndexFrom, Decode, LastBytes, LastGroup, Extra, DecodedLength, GroupsBefore;
    DecodeByPads(t, valid, pads);
    Sizes(valid, pads);
  }

  /** A text that starts with a pad has no length. */
  lemma FailedSize(t: string, valid: nat, pads: nat)
    requires |t| % 4 == 0 && valid <= |t| && pads <= 4
    requires IndexFrom(t, PAD, 0) == if pads == 0 then -1 else valid
    requires if pads == 0 then valid == |t| else pads == 4 - valid % 4
    ensures Decode(t).Failure? ==> DecodedLength(valid, pads) == -1
  {
    hide Groups, IndexFrom, Decode, LastBytes;
    DecodeByPads(t, valid, pads);
  }

  /** The number of bytes a text decodes to, found without decoding it; -1 for one that cannot be decoded for its size. */
  method ByteLength(t: string) returns (r: Result<int, DecodeError>)
    ensures r.Failure? <==> |t| % 4 != 0
    ensures Decode(t).Success? ==> r == Success(|Decode(t).value|)
    ensures |t| % 4 == 0 && Decode(t).Failure? ==> r == Success(-1)
  {
    hide Decode, IndexFrom;
    BadLengthFails(t);
    var lens := Lens(t);
    if lens.Failure? {
      return Failure(lens.error);
    }
    var (valid, pads) := lens.value;
    DecodedSize(t, valid, pads);
    FailedSize(t, valid, pads);
    var total: int := 3 * (valid + pads) / 4;
    r := Success(total - pads);
  }

  lemma BadLengthFails(t: string)
    ensures |t| % 4 != 0 ==> Decode(t) == Failure(BadLength)
  {
  }

  lemma NoGroups()
    ensures Groups("") == []
  {
  }
}
