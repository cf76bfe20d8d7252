/** Base64 (section 4 of RFC 4648): an encoder, a decoder and how they undo each other. */
module Base64 {
  import opened Options
  import opened Strings
  import opened Bytes

  type Sextet = k: int | 0 <= k < 64

  const PAD := '='

  // ----- the alphabet

  function Letter(k: Sextet): char {
    if k < 26 then 'A' + k as char
    else if k < 52 then 'a' + (k - 26) as char
    else if k < 62 then '0' + (k - 52) as char
    else if k == 62 then '+'
    else '/'
  }

  /** The value of a character; '-' and '_' stand for '+' and '/', and any other stranger counts as 0. */
  function Value(c: char): Sextet {
    if 'A' <= c <= 'Z' then c as int - 'A' as int
    else if 'a' <= c <= 'z' then c as int - 'a' as int + 26
    else if '0' <= c <= '9' then c as int - '0' as int + 52
    else if c == '+' || c == '-' then 62
    else if c == '/' || c == '_' then 63
    else 0
  }

  predicate IsLetter(c: char) {
    'A' <= c <= 'Z' || 'a' <= c <= 'z' || '0' <= c <= '9' || c == '+' || c == '/'
  }

  lemma ValueOfLetter(k: Sextet)
    ensures Value(Letter(k)) == k && IsLetter(Letter(k)) && Letter(k) != PAD
  {
  }

  lemma LetterOfValue(c: char)
    ensures IsLetter(c) <==> Letter(Value(c)) == c
  {
  }

  // ----- encoding and decoding

  function Quad(a: Byte, b: Byte, c: Byte): (t: string)
    ensures |t| == 4
  {
    [Letter(a / 4), Letter(a % 4 * 16 + b / 16), Letter(b % 16 * 4 + c / 64), Letter(c % 64)]
  }

  function Encode(s: seq<Byte>): string {
    if s == [] then ""
    else if |s| == 1 then Quad(s[0], 0, 0)[..2] + [PAD, PAD]
    else if |s| == 2 then Quad(s[0], s[1], 0)[..3] + [PAD]
    else Quad(s[0], s[1], s[2]) + Encode(s[3..])
  }

  /** The bytes of four characters. */
  function Triple(t: string): (r: seq<Byte>)
    requires |t| == 4
    ensures |r| == 3
  {
    [Value(t[0]) * 4 + Value(t[1]) / 16, Value(t[1]) % 16 * 16 + Value(t[2]) / 4, Value(t[2]) % 4 * 64 + Value(t[3])]
  }

  function Groups(t: string): (r: seq<Byte>)
    requires |t| % 4 == 0
    ensures |r| == |t| / 4 * 3
  {
    if t == "" then [] else Triple(t[..4]) + Groups(t[4..])
  }

  datatype DecodeError = BadLength | NegativeSize

  /** What comes before a pad that is `r` characters after the groups up to `l`. */
  function DecodeTo(t: string, l: nat, r: nat): Result<seq<Byte>, DecodeError>
    requires l % 4 == 0 && r < 4 && l + r <= |t|
  {
    if r == 3 then Success(Groups(t[..l]) + Triple(t[l..l + 3] + "A")[..2])
    else if r == 2 then Success(Groups(t[..l]) + Triple(t[l..l + 2] + "AA")[..1])
    else if r == 1 then Success(Groups(t[..l]))
    else if l == 0 then Failure(NegativeSize)
    else Success(Groups(t[..l - 4]) + [0, 0])
  }

  /** Everything from the first pad on is left out. */
  function Decode(t: string): Result<seq<Byte>, DecodeError> {
    if |t| % 4 != 0 then Failure(BadLength)
    else
      var i := IndexFrom(t, PAD, 0);
      if i < 0 then Success(Groups(t)) else DecodeTo(t, i / 4 * 4, i % 4)
  }

  // ----- whole groups

  lemma Regroup(a: Byte, b: Byte, c: Byte)
    ensures a / 4 * 4 + (a % 4 * 16 + b / 16) / 16 == a
    ensures (a % 4 * 16 + b / 16) % 16 * 16 + (b % 16 * 4 + c / 64) / 4 == b
    ensures (b % 16 * 4 + c / 64) % 4 * 64 + c % 64 == c
  {
    assert (a % 4 * 16 + b / 16) / 16 == a % 4 && (a % 4 * 16 + b / 16) % 16 == b / 16;
    assert (b % 16 * 4 + c / 64) / 4 == b % 16 && (b % 16 * 4 + c / 64) % 4 == c / 64;
  }

  lemma TripleOfLetters(i: Sextet, j: Sextet, k: Sextet, l: Sextet)
    ensures Triple([Letter(i), Letter(j), Letter(k), Letter(l)]) == [i * 4 + j / 16, j % 16 * 16 + k / 4, k % 4 * 64 + l]
  {
    hide Letter, Value;
    ValueOfLetter(i);
    ValueOfLetter(j);
    ValueOfLetter(k);
    ValueOfLetter(l);
  }

  lemma TripleOfQuad(a: Byte, b: Byte, c: Byte)
    ensures Triple(Quad(a, b, c)) == [a, b, c]
    ensures forall i :: 0 <= i < 4 ==> IsLetter(Quad(a, b, c)[i])
  {
    hide Letter, Triple, IsLetter;
    Regroup(a, b, c);
    TripleOfLetters(a / 4, a % 4 * 16 + b / 16, b % 16 * 4 + c / 64, c % 64);
    ValueOfLetter(a / 4);
    ValueOfLetter(a % 4 * 16 + b / 16);
    ValueOfLetter(b % 16 * 4 + c / 64);
    ValueOfLetter(c % 64);
  }

  lemma Ungroup(i: Sextet, j: Sextet, k: Sextet, l: Sextet)
    ensures (i * 4 + j / 16) / 4 == i
    ensures (i * 4 + j / 16) % 4 * 16 + (j % 16 * 16 + k / 4) / 16 == j
    ensures (j % 16 * 16 + k / 4) % 16 * 4 + (k % 4 * 64 + l) / 64 == k
    ensures (k % 4 * 64 + l) % 64 == l
  {
    assert (i * 4 + j / 16) % 4 == j / 16;
    assert (j % 16 * 16 + k / 4) / 16 == j % 16 && (j % 16 * 16 + k / 4) % 16 == k / 4;
    assert (k % 4 * 64 + l) / 64 == k % 4;
  }

  lemma QuadOfTriple(t: string)
    requires |t| == 4 && forall i :: 0 <= i < 4 ==> IsLetter(t[i])
    ensures var r := Triple(t); Quad(r[0], r[1], r[2]) == t
  {
    hide Letter, Value, IsLetter;
    Ungroup(Value(t[0]), Value(t[1]), Value(t[2]), Value(t[3]));
    LetterOfValue(t[0]);
    LetterOfValue(t[1]);
    LetterOfValue(t[2]);
    LetterOfValue(t[3]);
  }

  lemma EncodeStep(s: seq<Byte>)
    requires |s| >= 3
    ensures Encode(s) == Quad(s[0], s[1], s[2]) + Encode(s[3..])
  {
    hide Quad;
  }

  /** Encoding in pieces: any cut after a multiple of three bytes. */
  lemma {:induction false} EncodeSplit(x: seq<Byte>, y: seq<Byte>)
    requires |x| % 3 == 0
    ensures Encode(x + y) == Encode(x) + Encode(y)
  {
    hide Quad, Encode;
    if x == [] {
      assert x + y == y;
      EncodeNothing();
    } else {
      EncodeSplit(x[3..], y);
      assert (x + y)[3..] == x[3..] + y;
      EncodeStep(x);
      EncodeStep(x + y);
    }
  }

  lemma EncodeTriple(s: seq<Byte>)
    requires |s| == 3
    ensures Encode(s) == Quad(s[0], s[1], s[2])
  {
    hide Quad;
    assert s[3..] == [];
  }

  predicate AllLetters(t: string) { forall i :: 0 <= i < |t| ==> IsLetter(t[i]) }

  lemma {:induction false} GroupsOfEncode(s: seq<Byte>)
    requires |s| % 3 == 0
    ensures |Encode(s)| == |s| / 3 * 4 && AllLetters(Encode(s))
    ensures Groups(Encode(s)) == s
  {
    hide Quad, Triple, IsLetter;
    if s != [] {
      GroupsOfEncode(s[3..]);
      TripleOfQuad(s[0], s[1], s[2]);
      var q := Quad(s[0], s[1], s[2]);
      assert Encode(s)[..4] == q && Encode(s)[4..] == Encode(s[3..]);
      assert s == [s[0], s[1], s[2]] + s[3..];
    }
  }

  lemma {:induction false} EncodeOfGroups(t: string)
    requires |t| % 4 == 0 && AllLetters(t)
    ensures Encode(Groups(t)) == t
  {
    hide Quad, Triple, IsLetter;
    if t != "" {
      EncodeOfGroups(t[4..]);
      QuadOfTriple(t[..4]);
      EncodeSplit(Triple(t[..4]), Groups(t[4..]));
      EncodeTriple(Triple(t[..4]));
      assert t == t[..4] + t[4..];
    }
  }

  // ----- the round trips

  /** The text of a last group of one or two bytes. */
  function Tail(s: seq<Byte>): string
    requires 1 <= |s| <= 2
  {
    if |s| == 1 then Quad(s[0], 0, 0)[..2] + [PAD, PAD] else Quad(s[0], s[1], 0)[..3] + [PAD]
  }

  /** The number of bytes in whole groups. */
  function Whole(n: nat): (m: nat)
    ensures m <= n <= m + 2 && m % 3 == 0
  {
    n - n % 3
  }

  lemma EncodeParts(s: seq<Byte>)
    ensures var m := Whole(|s|);
            Encode(s) == Encode(s[..m]) + (if m == |s| then "" else Tail(s[m..]))
  {
    hide Quad, Encode, Tail, Whole;
    var m := Whole(|s|);
    var e, r := s[..m], s[m..];
    assert s == e + r;
    EncodeSplit(e, r);
    if r != [] { EncodeLast(r); } else { EncodeNothing(); }
  }

  lemma EncodeNothing()
    ensures Encode([]) == ""
  {
  }

  /** Four characters for every three bytes begun. */
  lemma {:induction false} EncodeLength(s: seq<Byte>)
    ensures |Encode(s)| == (|s| + 2) / 3 * 4
  {
    hide Encode, Quad;
    EncodeParts(s);
    GroupsOfEncode(s[..Whole(|s|)]);
  }

  /** The first pad follows the letters. */
  lemma PadAt(e: string, tail: string, k: nat)
    requires AllLetters(e) && k <= |tail| && AllLetters(tail[..k]) && (k < |tail| ==> tail[k] == PAD)
    ensures IndexFrom(e + tail, PAD, 0) == if k < |tail| then |e| + k else -1
  {
    var t := e + tail;
    assert forall j :: 0 <= j < k ==> IsLetter(tail[..k][j]);
    forall j | 0 <= j < |e| + k
      ensures t[j] != PAD
    {
      assert IsLetter(t[j]) by { if j >= |e| { assert t[j] == tail[..k][j - |e|]; } }
    }
    IndexFromAt(t, PAD, 0, |e| + k);
  }

  lemma TailLetters(s: seq<Byte>)
    requires 1 <= |s| <= 2
    ensures |Tail(s)| == 4 && AllLetters(Tail(s)[..|s| + 1]) && Tail(s)[|s| + 1] == PAD && Tail(s)[3] == PAD
    ensures |s| == 1 ==> Tail(s)[..2] + "AA" == Quad(s[0], 0, 0)
    ensures |s| == 2 ==> Tail(s)[..3] + "A" == Quad(s[0], s[1], 0)
  {
    hide IsLetter;
    TripleOfQuad(s[0], if |s| == 2 then s[1] else 0, 0);
  }

  /** A text whose first pad comes `r` characters after the groups up to `l`. */
  lemma DecodeAt(t: string, l: nat, r: nat)
    requires |t| % 4 == 0 && l % 4 == 0 && r < 4 && l + r <= |t| && IndexFrom(t, PAD, 0) == l + r
    ensures Decode(t) == DecodeTo(t, l, r)
  {
    hide Groups, Triple, IndexFrom, DecodeTo;
    assert (l + r) / 4 * 4 == l && (l + r) % 4 == r;
  }

  lemma DecodePadded(e: string, r: seq<Byte>)
    requires AllLetters(e) && |e| % 4 == 0 && 1 <= |r| <= 2
    ensures Decode(e + Tail(r)) == Success(Groups(e) + r)
  {
    hide Groups, Triple, Quad, Tail, IndexFrom, AllLetters, Decode;
    var t := e + Tail(r);
    TailLetters(r);
    PadAt(e, Tail(r), |r| + 1);
    var i := |e| + |r| + 1;
    DecodeAt(t, |e|, |r| + 1);
    assert t[..|e|] == e && t[|e|..i] == Tail(r)[..|r| + 1];
    TripleOfQuad(r[0], if |r| == 2 then r[1] else 0, 0);
    assert |r| == 1 ==> r == [r[0], 0, 0][..1];
    assert |r| == 2 ==> r == [r[0], r[1], 0][..2];
  }

  /** Decoding undoes encoding, for all bytes. */
  lemma DecodeUndoesEncode(s: seq<Byte>)
    ensures Decode(Encode(s)) == Success(s)
  {
    hide Encode, Groups, Triple, Quad, Tail, IndexFrom, AllLetters;
    var m := Whole(|s|);
    var e := Encode(s[..m]);
    EncodeParts(s);
    GroupsOfEncode(s[..m]);
    assert s == s[..m] + s[m..];
    if m == |s| {
      assert e + "" == e && s[..m] == s;
      PadAt(e, "", 0);
    } else {
      DecodePadded(e, s[m..]);
    }
  }

  /** Letters, then at most two pads to a multiple of four; the bits that the pads leave over are 0. */
  predicate Canonical(t: string) {
    && |t| % 4 == 0
    && var i := IndexFrom(t, PAD, 0);
       if i < 0 then AllLetters(t)
       else
         && AllLetters(t[..i]) && i > 0
         && if i == |t| - 1 then Value(t[i - 1]) % 4 == 0
            else i == |t| - 2 && t[i + 1] == PAD && Value(t[i - 1]) % 16 == 0
  }

  lemma EncodeCanonical(s: seq<Byte>)
    ensures Canonical(Encode(s))
  {
    hide Encode, Groups, Triple, IndexFrom, IsLetter, Tail, Value;
    var m := Whole(|s|);
    var e := Encode(s[..m]);
    EncodeParts(s);
    GroupsOfEncode(s[..m]);
    if m == |s| {
      PadAt(e, "", 0);
      assert e + "" == e;
    } else {
      CanonicalTail(e, s[m..]);
    }
  }

  lemma CanonicalTail(e: string, r: seq<Byte>)
    requires AllLetters(e) && |e| % 4 == 0 && 1 <= |r| <= 2
    ensures Canonical(e + Tail(r))
  {
    hide IndexFrom, IsLetter, Tail, Value;
    TailLetters(r);
    PadAt(e, Tail(r), |r| + 1);
    LeftOver(r);
    var t, i := e + Tail(r), |e| + |r| + 1;
    assert t[..i] == e + Tail(r)[..|r| + 1] && t[i - 1] == Tail(r)[|r|];
  }

  lemma LeftOver(r: seq<Byte>)
    requires 1 <= |r| <= 2
    ensures Value(Tail(r)[|r|]) % (if |r| == 1 then 16 else 4) == 0
  {
    hide Letter, Value;
    if |r| == 1 { ValueOfLetter(r[0] % 4 * 16); } else { ValueOfLetter(r[1] % 16 * 4); }
  }

  lemma ZeroLetter()
    ensures IsLetter('A') && Value('A') == 0
  {
  }

  /** The bytes of a last group with pads, encoded again. */
  lemma TailOfTriple(t: string, k: nat)
    requires 2 <= k <= 3 && |t| == k && AllLetters(t) && Value(t[k - 1]) % (if k == 2 then 16 else 4) == 0
    ensures k == 2 ==> Tail(Triple(t + "AA")[..1]) == t + [PAD, PAD]
    ensures k == 3 ==> Tail(Triple(t + "A")[..2]) == t + [PAD]
  {
    hide Letter, Value, IsLetter, Quad;
    ZeroLetter();
    var u := if k == 2 then t + "AA" else t + "A";
    assert u[0] == t[0] && u[1] == t[1] && u[2] == (if k == 3 then t[2] else 'A') && u[3] == 'A';
    QuadOfTriple(u);
    assert Triple(u)[2] == 0;
    if k == 2 { assert Triple(u)[1] == 0; }
  }

  /** Encoding undoes decoding exactly for the canonical texts. */
  lemma EncodeUndoesDecode(t: string)
    ensures Decode(t).Success? && Encode(Decode(t).value) == t <==> Canonical(t)
  {
    if Decode(t).Success? && Encode(Decode(t).value) == t { EncodeCanonical(Decode(t).value); }
    if Canonical(t) { CanonicalDecodes(t); }
  }

  lemma CanonicalDecodes(t: string)
    requires Canonical(t)
    ensures Decode(t).Success? && Encode(Decode(t).value) == t
  {
    hide Encode, Decode, Groups, Triple, IndexFrom, IsLetter, Value;
    var i := IndexFrom(t, PAD, 0);
    if i < 0 {
      DecodeWhole(t);
      EncodeOfGroups(t);
    } else {
      var r := if i == |t| - 1 then 3 else 2;
      DecodeAt(t, i - r, r);
      CanonicalLast(t, i - r, r);
    }
  }

  lemma DecodeWhole(t: string)
    requires |t| % 4 == 0 && IndexFrom(t, PAD, 0) < 0
    ensures Decode(t) == Success(Groups(t))
  {
  }

  /** A text that ends in a group with pads, encoded again. */
  lemma CanonicalLast(t: string, l: nat, r: nat)
    requires l % 4 == 0 && 2 <= r <= 3 && |t| == l + 4 && AllLetters(t[..l + r])
    requires Value(t[l + r - 1]) % (if r == 2 then 16 else 4) == 0
    requires t[l + r..] == if r == 3 then [PAD] else [PAD, PAD]
    ensures Encode(DecodeTo(t, l, r).value) == t
  {
    hide Encode, Groups, Triple, Quad, Tail, IsLetter, Value;
    assert AllLetters(t[..l]) && AllLetters(t[l..l + r]) by {
      assert forall j :: 0 <= j < l + r ==> t[j] == t[..l + r][j];
    }
    EncodeOfGroups(t[..l]);
    var u := t[l..l + r];
    TailOfTriple(u, r);
    var last := Triple(u + if r == 3 then "A" else "AA")[..r - 1];
    EncodeSplit(Groups(t[..l]), last);
    EncodeLast(last);
    assert t == t[..l] + (u + t[l + r..]);
  }

  lemma EncodeLast(r: seq<Byte>)
    requires 1 <= |r| <= 2
    ensures Encode(r) == Tail(r)
  {
    hide Quad;
  }

  // ----- what the encoding is

  /** Bit `m` of a byte, the highest first. */
  function BitOf(b: Byte, m: nat): int
    requires m < 8
  {
    if m == 0 then b / 128
    else if m == 1 then b / 64 % 2
    else if m == 2 then b / 32 % 2
    else if m == 3 then b / 16 % 2
    else if m == 4 then b / 8 % 2
    else if m == 5 then b / 4 % 2
    else if m == 6 then b / 2 % 2
    else b % 2
  }

  /** Bit `j` of the bytes in a row; 0 past the end. */
  function BitAt(s: seq<Byte>, j: nat): int {
    if j / 8 < |s| then BitOf(s[j / 8], j % 8) else 0
  }

  /** The six bits from bit `j` on, as a number. */
  function SixBits(s: seq<Byte>, j: nat): int {
    32 * BitAt(s, j) + 16 * BitAt(s, j + 1) + 8 * BitAt(s, j + 2) + 4 * BitAt(s, j + 3) + 2 * BitAt(s, j + 4)
    + BitAt(s, j + 5)
  }

  function ByteAt(s: seq<Byte>, i: nat): Byte { if i < |s| then s[i] else 0 }

  lemma BitsOfByte(b: Byte)
    ensures b / 4 == 32 * BitOf(b, 0) + 16 * BitOf(b, 1) + 8 * BitOf(b, 2) + 4 * BitOf(b, 3) + 2 * BitOf(b, 4) + BitOf(b, 5)
    ensures b / 16 == 8 * BitOf(b, 0) + 4 * BitOf(b, 1) + 2 * BitOf(b, 2) + BitOf(b, 3)
    ensures b / 64 == 2 * BitOf(b, 0) + BitOf(b, 1)
    ensures b % 4 == 2 * BitOf(b, 6) + BitOf(b, 7)
    ensures b % 16 == 8 * BitOf(b, 4) + 4 * BitOf(b, 5) + 2 * BitOf(b, 6) + BitOf(b, 7)
    ensures b % 64 == 32 * BitOf(b, 2) + 16 * BitOf(b, 3) + 8 * BitOf(b, 4) + 4 * BitOf(b, 5) + 2 * BitOf(b, 6) + BitOf(b, 7)
  {
    var h1, h2, h3, h4, h5, h6, h7 := b / 2, b / 4, b / 8, b / 16, b / 32, b / 64, b / 128;
    assert h2 == h1 / 2 && h3 == h2 / 2 && h4 == h3 / 2;
    assert h5 == h4 / 2 && h6 == h5 / 2 && h7 == h6 / 2;
    assert BitOf(b, 7) == b - 2 * h1 && BitOf(b, 6) == h1 - 2 * h2 && BitOf(b, 5) == h2 - 2 * h3;
    assert BitOf(b, 4) == h3 - 2 * h4 && BitOf(b, 3) == h4 - 2 * h5 && BitOf(b, 2) == h5 - 2 * h6;
    assert BitOf(b, 1) == h6 - 2 * h7 && BitOf(b, 0) == h7;
    assert b % 4 == b - 4 * h2 && b % 16 == b - 16 * h4 && b % 64 == b - 64 * h6;
  }

  lemma BitAtOf(s: seq<Byte>, i: nat, m: nat)
    requires m < 8
    ensures BitAt(s, 8 * i + m) == BitOf(ByteAt(s, i), m)
  {
    assert (8 * i + m) / 8 == i && (8 * i + m) % 8 == m;
  }

  /** The four groups of six bits in the first three bytes. */
  lemma FirstSixBits(s: seq<Byte>)
    ensures var a, b, c := ByteAt(s, 0), ByteAt(s, 1), ByteAt(s, 2);
            && SixBits(s, 0) == a / 4 && SixBits(s, 6) == a % 4 * 16 + b / 16
            && SixBits(s, 12) == b % 16 * 4 + c / 64 && SixBits(s, 18) == c % 64
  {
    hide BitAt, BitOf;
    for i := 0 to 3
      invariant forall k, m :: 0 <= k < i && 0 <= m < 8 ==> BitAt(s, 8 * k + m) == BitOf(ByteAt(s, k), m)
    {
      for m := 0 to 8
        invariant forall n :: 0 <= n < m ==> BitAt(s, 8 * i + n) == BitOf(ByteAt(s, i), n)
      {
        BitAtOf(s, i, m);
      }
    }
    BitsOfByte(ByteAt(s, 0));
    BitsOfByte(ByteAt(s, 1));
    BitsOfByte(ByteAt(s, 2));
  }

  lemma LaterSixBits(s: seq<Byte>, j: nat)
    requires |s| >= 3 && j >= 24
    ensures SixBits(s, j) == SixBits(s[3..], j - 24)
  {
    hide BitOf;
    forall i | j <= i < j + 6
      ensures BitAt(s, i) == BitAt(s[3..], i - 24)
    {
      assert (i - 24) / 8 == i / 8 - 3 && (i - 24) % 8 == i % 8;
    }
  }

  /** Every letter spells the next six bits, a missing last bit counting as 0, and only pads follow. */
  lemma {:induction false} EncodeSpellsBits(s: seq<Byte>, k: nat)
    requires k < |Encode(s)|
    ensures if 6 * k < 8 * |s| then 0 <= SixBits(s, 6 * k) < 64 && Encode(s)[k] == Letter(SixBits(s, 6 * k))
            else Encode(s)[k] == PAD
  {
    hide SixBits, Letter;
    FirstSixBits(s);
    if |s| > 3 && k >= 4 {
      LaterSixBits(s, 6 * k);
      EncodeSpellsBits(s[3..], k - 4);
    } else {
      EncodeLength(s);
    }
  }

  // ----- what the decoding is

  /** The character that counts as `c`: the two of the URL alphabet, and 'A' for any stranger. */
  function StandardChar(c: char): char {
    if c == '-' then '+' else if c == '_' then '/' else if IsLetter(c) || c == PAD then c else 'A'
  }

  function Standard(t: string): (r: string)
    ensures |r| == |t| && forall i :: 0 <= i < |t| ==> r[i] == StandardChar(t[i])
  {
    seq(|t|, i requires 0 <= i < |t| => StandardChar(t[i]))
  }

  lemma StandardValue(c: char)
    ensures Value(StandardChar(c)) == Value(c) && (StandardChar(c) == PAD <==> c == PAD)
  {
  }

  predicate SameValues(t: string, u: string) {
    |t| == |u| && forall i :: 0 <= i < |t| ==> Value(t[i]) == Value(u[i])
  }

  lemma {:induction false} GroupsByValue(t: string, u: string)
    requires SameValues(t, u) && |t| % 4 == 0
    ensures Groups(t) == Groups(u)
  {
    hide Value;
    if t != "" {
      assert SameValues(t[4..], u[4..]);
      GroupsByValue(t[4..], u[4..]);
    }
  }

  lemma DecodeToByValue(t: string, u: string, l: nat, r: nat)
    requires SameValues(t, u) && l % 4 == 0 && r < 4 && l + r <= |t|
    ensures DecodeTo(t, l, r) == DecodeTo(u, l, r)
  {
    hide Value, Groups;
    assert SameValues(t[..l], u[..l]);
    GroupsByValue(t[..l], u[..l]);
    if r == 0 && l > 0 {
      assert SameValues(t[..l - 4], u[..l - 4]);
      GroupsByValue(t[..l - 4], u[..l - 4]);
    }
  }

  /** Every text decodes like one in the standard alphabet. */
  lemma DecodeStandard(t: string)
    ensures Decode(Standard(t)) == Decode(t)
  {
    hide Value, Groups, DecodeTo, IndexFrom, StandardChar;
    var u := Standard(t);
    forall i | 0 <= i < |t|
      ensures Value(u[i]) == Value(t[i]) && (u[i] == PAD <==> t[i] == PAD)
    {
      StandardValue(t[i]);
    }
    var i := IndexFrom(t, PAD, 0);
    IndexFromAt(u, PAD, 0, if i < 0 then |t| else i);
    if |t| % 4 == 0 {
      if i < 0 { GroupsByValue(u, t); } else { DecodeToByValue(u, t, i / 4 * 4, i % 4); }
    }
  }

  /** The six bits of each character of whole groups, and then those of the bytes after them. */
  lemma {:induction false} GroupsSpell(t: string, x: seq<Byte>, k: nat)
    requires |t| % 4 == 0
    ensures SixBits(Groups(t) + x, 6 * k) == if k < |t| then Value(t[k]) else SixBits(x, 6 * (k - |t|))
  {
    hide SixBits, Value, Triple;
    if t == "" {
      assert Groups(t) + x == x;
    } else {
      var s := Groups(t) + x;
      assert s == Triple(t[..4]) + (Groups(t[4..]) + x) && s[3..] == Groups(t[4..]) + x;
      if k < 4 {
        TripleSpells(t[..4], Groups(t[4..]) + x, k);
      } else {
        LaterSixBits(s, 6 * k);
        GroupsSpell(t[4..], x, k - 4);
      }
    }
  }

  lemma TripleSpells(u: string, x: seq<Byte>, k: nat)
    requires |u| == 4 && k < 4
    ensures SixBits(Triple(u) + x, 6 * k) == Value(u[k])
  {
    hide SixBits, Value;
    FirstSixBits(Triple(u) + x);
    Ungroup(Value(u[0]), Value(u[1]), Value(u[2]), Value(u[3]));
  }

  /** What the last characters before the pads leave of their values: only bits that fill bytes. */
  function LeftOf(t: string, i: nat, k: nat): int
    requires k < i <= |t|
  {
    if k < i - 1 || i % 4 == 0 then Value(t[k])
    else if i % 4 == 3 then Value(t[k]) / 4 * 4
    else if i % 4 == 2 then Value(t[k]) / 16 * 16
    else 0
  }

  /** The bytes after the whole groups. */
  function LastOf(t: string, l: nat, r: nat): seq<Byte>
    requires r < 4 && l + r <= |t|
  {
    if r == 3 then Triple(t[l..l + 3] + "A")[..2] else if r == 2 then Triple(t[l..l + 2] + "AA")[..1] else []
  }

  lemma LastSpells(t: string, l: nat, r: nat, k: nat)
    requires r < 4 && l % 4 == 0 && k < r && l + r <= |t|
    ensures SixBits(LastOf(t, l, r), 6 * k) == LeftOf(t, l + r, l + k)
    ensures |LastOf(t, l, r)| == if r == 0 then 0 else r - 1
  {
    hide SixBits, Value;
    var x := LastOf(t, l, r);
    FirstSixBits(x);
    assert (l + r) % 4 == r;
    ZeroLetter();
    if r >= 2 {
      var v: int, w: int := Value(t[l]), Value(t[l + 1]);
      assert x[0] == v * 4 + w / 16 && x[0] / 4 == v && x[0] % 4 == w / 16;
      if r == 3 {
        var z: int := Value(t[l + 2]);
        assert x[1] == w % 16 * 16 + z / 4 && x[1] / 16 == w % 16 && x[1] % 16 == z / 4;
      }
    }
  }

  /** Decoding gives the bits of the values of the characters before the first pad, as far as they fill bytes. A pad
      at the start of a group makes two zero bytes of the group before it, and a pad at the start of the text fails. */
  lemma DecodeSpellsBits(t: string, k: nat)
    requires |t| % 4 == 0
    ensures var i := IndexFrom(t, PAD, 0);
            var n := if i < 0 then |t| else i;
            if i >= 0 && i % 4 == 0 then
              Decode(t) == if i == 0 then Failure(NegativeSize) else Success(Groups(t[..i - 4]) + [0, 0])
            else
              && Decode(t).Success? && |Decode(t).value| == n * 6 / 8
              && (k < n ==> SixBits(Decode(t).value, 6 * k) == LeftOf(t, n, k))
  {
    hide SixBits, Value, Triple, Groups, IndexFrom;
    var i := IndexFrom(t, PAD, 0);
    if i < 0 {
      GroupsSpell(t, [], k);
      assert Groups(t) + [] == Groups(t);
    } else if i % 4 != 0 {
      var l, r := i / 4 * 4, i % 4;
      DecodedBy(t, l, r);
      GroupsSpell(t[..l], LastOf(t, l, r), k);
      if k < l { assert t[..l][k] == t[k]; } else if k < i { LastSpells(t, l, r, k - l); }
      LastSpells(t, l, r, 0);
    }
  }

  lemma DecodedBy(t: string, l: nat, r: nat)
    requires l % 4 == 0 && 0 < r < 4 && l + r <= |t|
    ensures DecodeTo(t, l, r) == Success(Groups(t[..l]) + LastOf(t, l, r))
  {
    hide Groups, Triple;
    if r == 1 { assert Groups(t[..l]) + [] == Groups(t[..l]); }
  }
}
