/** What the incremental decoder writes, for any cut of the bytes into chunks. */
module StringDecoderLaws {
  import opened Options
  import opened Bytes
  import opened Sequences
  import opened Utf8
  import opened StringDecoder

  // ----- characters begun, and characters broken off

  /** A first byte and continuation bytes, fewer than it announces. */
  predicate Begun(p: seq<Byte>) {
    1 <= |p| < CheckByte(p[0]) && forall i :: 1 <= i < |p| ==> IsTail(p[i])
  }

  /** The length of `b` without a character that is only begun at its end. */
  function Kept(b: seq<Byte>): (n: nat)
    ensures n <= |b|
    ensures n < |b| ==> Begun(b[n..])
    ensures forall i :: 0 <= i < n ==> !Begun(b[i..])
  {
    if b == [] || Begun(b) then 0
    else
      var n := 1 + Kept(b[1..]);
      assert forall i :: 1 <= i < n ==> b[i..] == b[1..][i - 1..];
      assert b[n..] == b[1..][n - 1..];
      n
  }

  /** How many continuation bytes `b` starts with. */
  function Tails(b: seq<Byte>): (n: nat)
    ensures n <= |b| && (forall i :: 0 <= i < n ==> IsTail(b[i])) && (n < |b| ==> !IsTail(b[n]))
  {
    if b == [] || !IsTail(b[0]) then 0 else 1 + Tails(b[1..])
  }

  /** A first byte of three or more whose continuation bytes are at least one and too few. */
  predicate BrokenAt(b: seq<Byte>, i: nat)
    requires i < |b|
  {
    CheckByte(b[i]) >= 3 && 1 <= Tails(b[i + 1..]) < CheckByte(b[i]) - 1
  }

  predicate BrokenOff(b: seq<Byte>) { exists i :: 0 <= i < |b| && BrokenAt(b, i) }

  /** The same by the bytes themselves: E0 to EF with one continuation byte where two belong, or F0 to F7 with one or two
      where three belong. */
  predicate CutShort(b: seq<Byte>, i: nat)
    requires i < |b|
  {
    var c := Continued(b, i);
    (0xE0 <= b[i] < 0xF0 && c == 1) || (0xF0 <= b[i] < 0xF8 && 1 <= c <= 2)
  }

  /** How many of the next three bytes are continuation bytes in a row. */
  function Continued(b: seq<Byte>, i: nat): nat
    requires i < |b|
  {
    if i + 1 >= |b| || !(0x80 <= b[i + 1] < 0xC0) then 0
    else if i + 2 >= |b| || !(0x80 <= b[i + 2] < 0xC0) then 1
    else if i + 3 >= |b| || !(0x80 <= b[i + 3] < 0xC0) then 2
    else 3
  }

  lemma BrokenIsCutShort(b: seq<Byte>, i: nat)
    requires i < |b|
    ensures BrokenAt(b, i) <==> CutShort(b, i)
  {
    hide CheckByte;
    AnnouncedBy(b[i]);
    var t := b[i + 1..];
    assert forall j :: 0 <= j < |t| ==> t[j] == b[i + 1 + j];
    var n := Tails(t);
    assert n < 3 ==> n == Continued(b, i);
  }

  lemma AnnouncedBy(b: Byte)
    ensures CheckByte(b) == 3 <==> 0xE0 <= b < 0xF0
    ensures CheckByte(b) == 4 <==> 0xF0 <= b < 0xF8
    ensures CheckByte(b) <= 4
  {
  }

  /** Broken off by another byte, not just by the end. */
  predicate BrokenInside(b: seq<Byte>) {
    exists i :: 0 <= i < |b| && BrokenAt(b, i) && i + 1 + Tails(b[i + 1..]) < |b|
  }

  /** The decoder is waiting for the rest of exactly the bytes `left`. */
  ghost predicate Waiting(d: State, left: seq<Byte>) {
    && Shape(d)
    && if left == [] then d.need == 0
       else Begun(left) && d.total == CheckByte(left[0]) && d.need == d.total - |left| && d.chars[..|left|] == left
  }

  lemma TailsAre(b: seq<Byte>, n: nat)
    requires n <= |b| && (forall i :: 0 <= i < n ==> IsTail(b[i])) && (n < |b| ==> !IsTail(b[n]))
    ensures Tails(b) == n
  {
    hide Tails;
    var m := Tails(b);
    assert m < |b| ==> !IsTail(b[m]);
    assert n < |b| ==> !IsTail(b[n]);
  }

  lemma KeptIs(b: seq<Byte>, n: nat)
    requires n <= |b| && (n < |b| ==> Begun(b[n..])) && forall i :: 0 <= i < n ==> !Begun(b[i..])
    ensures Kept(b) == n
  {
    hide Kept, Begun;
  }

  /** Nothing that starts before a first byte goes on past it. */
  lemma KeptAt(b: seq<Byte>, n: nat)
    requires n < |b| && Begun(b[n..])
    ensures Kept(b) == n
  {
    hide Kept;
    assert b[n..][0] == b[n];
    forall i | 0 <= i < n
      ensures !Begun(b[i..])
    {
      assert b[i..][n - i] == b[n];
    }
    KeptIs(b, n);
  }

  lemma BegunPrefix(p: seq<Byte>, n: nat)
    requires Begun(p) && 1 <= n <= |p|
    ensures Begun(p[..n])
  {
  }

  /** Keeping back commutes with taking more bytes. */
  lemma KeptAppend(x: seq<Byte>, y: seq<Byte>)
    ensures Kept(x + y) == Kept(x) + Kept(x[Kept(x)..] + y)
    ensures (x + y)[..Kept(x + y)] == x[..Kept(x)] + (x[Kept(x)..] + y)[..Kept(x[Kept(x)..] + y)]
    ensures (x + y)[Kept(x + y)..] == (x[Kept(x)..] + y)[Kept(x[Kept(x)..] + y)..]
  {
    hide Kept, Begun;
    var k := Kept(x);
    var b, r := x + y, x[k..] + y;
    assert b[k..] == r;
    var n := k + Kept(r);
    forall i | 0 <= i < n
      ensures !Begun(b[i..])
    {
      if i < k {
        assert b[i..][..|x| - i] == x[i..];
        if Begun(b[i..]) { BegunPrefix(b[i..], |x| - i); }
      } else {
        assert b[i..] == r[i - k..];
      }
    }
    assert b[n..] == r[Kept(r)..];
    KeptIs(b, n);
  }

  // ----- where decoding can be cut

  lemma CharLenExtends(x: seq<Byte>, y: seq<Byte>)
    requires CharLen(x) > 0
    ensures CharLen(x + y) == CharLen(x) && (x + y)[CharLen(x)..] == x[CharLen(x)..] + y
  {
    assert (x + y)[..Demand(x[0])] == x[..Demand(x[0])];
  }

  lemma CharLenOfPrefix(x: seq<Byte>, w: seq<Byte>)
    requires CharLen(x) > 0 && w <= x && CharLen(x) <= |w|
    ensures CharLen(w) == CharLen(x)
  {
    assert w[..Demand(x[0])] == x[..Demand(x[0])];
  }

  lemma StepExtends(a: seq<Byte>, b: seq<Byte>)
    requires CharLen(a) > 0
    ensures Step(a + b) == Step(a) && Step(a).1 == CharLen(a)
  {
    hide CharLen, Step, ReadPoint, EncodePoint, Units;
    CharLenExtends(a, b);
    StepIsChar(a);
    StepIsChar(a + b);
    var l := CharLen(a);
    assert (a + b)[..l] == a[..l];
    ReadPointIsChar(a);
    ReadPointIsChar(a + b);
    EncodePointInjective(ReadPoint(a).0, ReadPoint(a + b).0);
  }

  /** No character spans the border between `x` and `y`. */
  ghost predicate Parted(x: seq<Byte>, y: seq<Byte>) {
    forall i :: 0 <= i < |x| ==> CharLen((x + y)[i..]) <= |x| - i
  }

  lemma PartedTail(x: seq<Byte>, y: seq<Byte>, l: nat)
    requires Parted(x, y) && l <= |x|
    ensures Parted(x[l..], y)
  {
    hide CharLen;
    forall i | 0 <= i < |x| - l
      ensures CharLen((x[l..] + y)[i..]) <= |x| - l - i
    {
      assert (x[l..] + y)[i..] == (x + y)[l + i..];
    }
  }

  lemma PartedStep(x: seq<Byte>, y: seq<Byte>)
    requires x != [] && Parted(x, y)
    ensures Step(x + y) == Step(x)
  {
    hide CharLen, Step;
    assert (x + y)[0..] == x + y;
    StepIsChar(x);
    StepIsChar(x + y);
    if CharLen(x + y) > 0 {
      CharLenOfPrefix(x + y, x);
      StepExtends(x, y);
    } else if CharLen(x) > 0 {
      CharLenExtends(x, y);
    }
  }

  lemma {:induction false} DecodeParted(x: seq<Byte>, y: seq<Byte>)
    requires Parted(x, y)
    ensures Decode(x + y) == Decode(x) + Decode(y)
    decreases |x|
  {
    hide Step, Parted;
    if x == [] {
      assert x + y == y;
    } else {
      PartedStep(x, y);
      var l := Step(x).1;
      assert (x + y)[l..] == x[l..] + y;
      PartedTail(x, y, l);
      DecodeParted(x[l..], y);
    }
  }

  /** The bytes of a character before its last make one that is begun, and its bytes after the first are continuations. */
  lemma CharBegins(s: seq<Byte>, n: nat)
    requires 1 <= n < CharLen(s)
    ensures Begun(s[..n]) && IsTail(s[n])
  {
    var f := s[..Demand(s[0])];
    assert Fits(f) && f[n] == s[n];
    assert |f| > 1 ==> f[1] == s[1];
    assert |f| > 2 ==> f[2] == s[2];
    assert |f| > 3 ==> f[3] == s[3];
  }

  /** Decoding can be cut where a first byte comes next, or where no character is only begun. */
  lemma PartedIf(x: seq<Byte>, y: seq<Byte>)
    requires (y != [] && !IsTail(y[0])) || y == [] || forall i :: 0 <= i < |x| ==> !Begun(x[i..])
    ensures Parted(x, y)
  {
    hide CharLen, Begun;
    forall i | 0 <= i < |x|
      ensures CharLen((x + y)[i..]) <= |x| - i
    {
      var s := (x + y)[i..];
      if CharLen(s) > |x| - i {
        assert s[..|x| - i] == x[i..] && s[|x| - i] == y[0];
        CharBegins(s, |x| - i);
      }
    }
  }

  lemma DecodeKept(x: seq<Byte>, y: seq<Byte>)
    ensures Decode(x + y) == Decode(x[..Kept(x)]) + Decode(x[Kept(x)..] + y)
  {
    hide Decode, Kept, Parted;
    var k := Kept(x);
    var head, rest := x[..k], x[k..] + y;
    assert x + y == head + rest;
    if k < |x| {
      assert rest[0] == x[k..][0];
    } else {
      assert head == x;
    }
    PartedIf(head, rest);
    DecodeParted(head, rest);
  }

  /** Decoding what is kept of `x + y`. */
  lemma DecodeKeptAppend(x: seq<Byte>, y: seq<Byte>)
    ensures var r := x[Kept(x)..] + y;
            Decode((x + y)[..Kept(x + y)]) == Decode(x[..Kept(x)]) + Decode(r[..Kept(r)])
  {
    hide Decode, Kept, Parted;
    KeptAppend(x, y);
    var k := Kept(x);
    var r := x[k..] + y;
    var head, rest := x[..k], r[..Kept(r)];
    if rest != [] && k < |x| {
      assert rest[0] == x[k..][0];
    } else if k == |x| {
      assert head == x;
    }
    PartedIf(head, rest);
    DecodeParted(head, rest);
  }

  /** A byte that starts no character is replaced. */
  lemma DecodeReplaced(s: seq<Byte>)
    requires s != [] && CharLen(s) == 0
    ensures Decode(s) == [REPLACEMENT] + Decode(s[1..])
  {
    hide CharLen, Step;
    StepIsChar(s);
  }

  lemma NothingDecoded()
    ensures Decode([]) == [] && Kept([]) == 0
  {
  }

  // ----- what a write does

  lemma CopiedHolds(chars: seq<Byte>, left: seq<Byte>, t: seq<Byte>, n: nat)
    requires |chars| == 4 && n <= |t| && |left| + n <= 4 && chars[..|left|] == left
    ensures Copied(chars, |left|, t, n)[..|left| + n] == left + t[..n]
  {
  }

  lemma CheckByteIs(b: Byte)
    ensures CheckByte(b) == -1 <==> IsTail(b)
    ensures CheckByte(b) > 0 ==> 2 <= CheckByte(b) <= 4
    ensures -2 <= CheckByte(b)
  {
  }

  /** Whether the last bytes are a character that is only begun. */
  lemma BegunAt(y: seq<Byte>, n: nat)
    requires 1 <= n <= |y|
    ensures Begun(y[|y| - n..]) <==> n < CheckByte(y[|y| - n]) && forall i :: |y| - n < i < |y| ==> IsTail(y[i])
    ensures Begun(y[|y| - n..]) ==> Kept(y) == |y| - n
    ensures Kept(y) == |y| - n ==> Begun(y[|y| - n..])
  {
    hide Kept, CheckByte;
    var p := y[|y| - n..];
    assert forall i :: 0 <= i < |p| ==> p[i] == y[|y| - n + i];
    if Begun(p) { KeptAt(y, |y| - n); }
  }

  lemma KeptIsLate(y: seq<Byte>)
    ensures Kept(y) == |y| || |y| - Kept(y) <= 3
  {
    hide Kept, CheckByte;
    if Kept(y) < |y| { CheckByteIs(y[Kept(y)..][0]); }
  }

  /** The last `n` bytes are kept back exactly if the first of them leads more than `n` and the others are tails. */
  lemma KeptFromLast(y: seq<Byte>, n: nat)
    requires 1 <= n <= 3 && n <= |y|
    ensures Kept(y) == |y| - n <==>
              && n < CheckByte(y[|y| - n])
              && (n >= 2 ==> CheckByte(y[|y| - 1]) == -1)
              && (n >= 3 ==> CheckByte(y[|y| - 2]) == -1)
  {
    hide Kept, CheckByte, Begun, IsTail;
    BegunAt(y, n);
    CheckByteIs(y[|y| - 1]);
    if n >= 2 { CheckByteIs(y[|y| - 2]); }
  }

  /** The character that is only begun is recognised from the last three bytes. */
  lemma CheckFindsBegun(t: seq<Byte>, i: nat)
    requires i <= |t|
    ensures var y := t[i..];
            var (n, need) := CheckIncomplete(t, i);
            if Kept(y) == |y| then need == 0
            else n == CheckByte(y[Kept(y)]) && need == n - (|y| - Kept(y))
  {
    hide Kept, CheckByte, Begun, IsTail;
    var y := t[i..];
    var m := |y|;
    KeptIsLate(y);
    if m >= 1 {
      CheckByteIs(y[m - 1]);
      KeptFromLast(y, 1);
    }
    if m >= 2 {
      CheckByteIs(y[m - 2]);
      KeptFromLast(y, 2);
    }
    if m >= 3 {
      CheckByteIs(y[m - 3]);
      KeptFromLast(y, 3);
    }
  }

  /** `text` decodes all but a character that is only begun, and keeps that back. */
  lemma TextHolds(d: State, t: seq<Byte>, i: nat)
    requires Shape(d) && d.need == 0 && i <= |t|
    ensures var y := t[i..];
            var (d', out) := Text(d, t, i);
            out == Decode(y[..Kept(y)]) && Waiting(d', y[Kept(y)..])
  {
    hide Kept, CheckIncomplete, Decode, CheckByte;
    var y := t[i..];
    CheckFindsBegun(t, i);
    if Kept(y) == |y| {
      assert y[..|y|] == y && y[|y|..] == [];
    } else {
      var left := y[Kept(y)..];
      assert t[|t| - |left|..] == left && left[0] == y[Kept(y)];
      assert t[i..|t| - |left|] == y[..Kept(y)];
      CopiedHolds(d.chars, [], left, |left|);
      assert left[..|left|] == left;
    }
  }

  /** A character begun, and the bytes that come next. */
  lemma BegunNext(left: seq<Byte>, t: seq<Byte>)
    requires Begun(left)
    ensures var b, c := left + t, |left| - 1 + Tails(t);
            && b[0] == left[0] && Tails(b[1..]) == c
            && CheckByte(b[0]) >= 2 && CheckByte(b[0]) <= 4
            && (BrokenAt(b, 0) <==> 1 <= c < CheckByte(b[0]) - 1)
  {
    hide CheckByte, Tails;
    CheckByteIs(left[0]);
    var b, c := left + t, |left| - 1 + Tails(t);
    assert b[1..] == left[1..] + t;
    forall i | 0 <= i < c
      ensures IsTail(b[1..][i])
    {
      if i < |left| - 1 { assert b[1..][i] == left[i + 1]; } else { assert b[1..][i] == t[i - |left| + 1]; }
    }
    if c < |b[1..]| { assert b[1..][c] == t[Tails(t)]; }
    TailsAre(b[1..], c);
  }

  /** The next bytes do not continue the character, which must then be its first byte only. */
  lemma FillLastBroken(d: State, left: seq<Byte>, t: seq<Byte>)
    requires left != [] && Waiting(d, left) && t != [] && !BrokenInside(left + t)
    requires Tails(t) < d.need && Tails(t) < |t|
    ensures |left| == 1 && !IsTail(t[0])
    ensures FillLast(d, t) == (d.(need := 0), Some([REPLACEMENT]))
  {
    hide CheckByte, Tails, BrokenAt, BrokenInside, CheckExtra, Begun;
    BegunNext(left, t);
    var b := left + t;
    if BrokenAt(b, 0) { BrokenInsideIf(b, 0); }
    CheckExtraIs(d.need, t);
    assert Tails(t) == 0;
  }

  lemma BrokenInsideIf(b: seq<Byte>, i: nat)
    requires i < |b| && BrokenAt(b, i) && i + 1 + Tails(b[i + 1..]) < |b|
    ensures BrokenInside(b) && BrokenOff(b)
  {
  }

  lemma CheckExtraIs(need: nat, t: seq<Byte>)
    requires t != [] && 1 <= need <= 3
    ensures CheckExtra(need, t) == if Tails(t) < need && Tails(t) < |t| then Some(Tails(t)) else None
  {
    hide Tails, IsTail;
  }

  /** The next bytes continue the character: silent while bytes are missing, then exactly that character. */
  lemma FillLastHolds(d: State, left: seq<Byte>, t: seq<Byte>)
    requires left != [] && Waiting(d, left) && t != []
    requires Tails(t) >= d.need || Tails(t) == |t|
    ensures var (d1, out) := FillLast(d, t);
            if d.need <= |t| then out == Some(Decode(left + t[..d.need])) && d1.need == d.need && Shape(d1)
            else out == None && Waiting(d1, left + t)
  {
    hide Tails, CheckByte, Decode;
    CheckByteIs(left[0]);
    CheckExtraIs(d.need, t);
    var n := if d.need <= |t| then d.need else |t|;
    CopiedHolds(d.chars, left, t, n);
    assert t[..|t|] == t;
    assert (left + t)[0] == left[0];
  }

  /** A first byte that nothing continues is replaced. */
  lemma LoneFirstByte(left: seq<Byte>, t: seq<Byte>)
    requires Begun(left) && |left| == 1 && (t == [] || !IsTail(t[0]))
    ensures Decode(left + t) == [REPLACEMENT] + Decode(t)
    ensures Kept(left + t) == if t == [] then 0 else 1 + Kept(t)
  {
    hide Decode, Tails;
    var b := left + t;
    BegunNext(left, t);
    assert b[1..] == t;
    if CharLen(b) > 1 { CharBegins(b, 1); }
    assert CharLen(b) != 1;
    DecodeReplaced(b);
  }

  /** All bytes that a first byte announces, and no more, can be cut off. */
  lemma AllAnnounced(whole: seq<Byte>, rest: seq<Byte>)
    requires whole != [] && |whole| == CheckByte(whole[0]) && forall i :: 1 <= i < |whole| ==> IsTail(whole[i])
    ensures Kept(whole + rest) == |whole| + Kept(rest)
    ensures Parted(whole, rest)
  {
    hide CharLen, Kept;
    forall i | 0 <= i < |whole|
      ensures !Begun(whole[i..])
    {
      assert whole[i..][0] == whole[i];
      CheckByteIs(whole[i]);
    }
    KeptIs(whole, |whole|);
    KeptAppend(whole, rest);
    assert whole[|whole|..] + rest == rest;
    PartedIf(whole, rest);
  }

  /** One write, waiting for the rest of `left`: the output is what decoding `left + t` adds, and what is begun is kept. */
  lemma WriteHolds(d: State, left: seq<Byte>, t: seq<Byte>)
    requires Waiting(d, left) && !BrokenInside(left + t)
    ensures var b := left + t;
            var (d', out) := Write(d, t);
            out == Decode(b[..Kept(b)]) && Waiting(d', b[Kept(b)..])
  {
    hide Kept, Decode, Text, FillLast, Tails, BrokenInside, CheckByte;
    var b := left + t;
    NothingDecoded();
    if t == [] {
      assert b == left;
      if left != [] { KeptAtStart(left); }
      assert b[..0] == [] && b[0..] == b;
    } else if left == [] {
      assert b == t && t[0..] == t;
      TextHolds(d, t, 0);
    } else if Tails(t) < d.need && Tails(t) < |t| {
      FillLastBroken(d, left, t);
      WriteAfterLoneByte(d, left, t);
    } else {
      WriteContinued(d, left, t);
    }
  }

  lemma KeptAtStart(p: seq<Byte>)
    requires Begun(p)
    ensures Kept(p) == 0
  {
  }

  lemma NeedsMore(d: State, left: seq<Byte>)
    requires left != [] && Waiting(d, left)
    ensures d.need > 0
  {
  }

  lemma WriteAfterLoneByte(d: State, left: seq<Byte>, t: seq<Byte>)
    requires Waiting(d, left) && |left| == 1 && t != [] && !IsTail(t[0])
    requires FillLast(d, t) == (d.(need := 0), Some([REPLACEMENT]))
    ensures var b := left + t;
            var (d', out) := Write(d, t);
            out == Decode(b[..Kept(b)]) && Waiting(d', b[Kept(b)..])
  {
    hide Kept, Decode, Text, FillLast, Tails, CheckByte, Begun;
    var b := left + t;
    NeedsMore(d, left);
    assert t[0..] == t;
    TextHolds(d.(need := 0), t, 0);
    LoneFirstByte(left, t);
    var head := t[..Kept(t)];
    LoneFirstByte(left, head);
    assert b[..Kept(b)] == left + head && b[Kept(b)..] == t[Kept(t)..];
  }

  lemma WriteContinued(d: State, left: seq<Byte>, t: seq<Byte>)
    requires left != [] && Waiting(d, left) && t != [] && (Tails(t) >= d.need || Tails(t) == |t|)
    ensures var b := left + t;
            var (d', out) := Write(d, t);
            out == Decode(b[..Kept(b)]) && Waiting(d', b[Kept(b)..])
  {
    hide Kept, Decode, Text, FillLast, Tails, CheckByte, Begun, Parted;
    var b := left + t;
    NeedsMore(d, left);
    FillLastHolds(d, left, t);
    var (d1, e) := FillLast(d, t);
    if e.None? {
      NothingDecoded();
      KeptAtStart(b);
      assert b[..0] == [] && b[0..] == b;
    } else {
      WholeKept(d, left, t);
      if d.need < |t| {
        TextHolds(d1.(need := 0), t, d.need);
      } else {
        NothingDecoded();
        assert t[d.need..] == [];
      }
    }
  }

  /** All bytes that a first byte announces, and then what is kept of the rest. */
  lemma AnnouncedKept(whole: seq<Byte>, rest: seq<Byte>)
    requires whole != [] && |whole| == CheckByte(whole[0]) && forall i :: 1 <= i < |whole| ==> IsTail(whole[i])
    ensures var b := whole + rest;
            && Decode(b[..Kept(b)]) == Decode(whole) + Decode(rest[..Kept(rest)])
            && b[Kept(b)..] == rest[Kept(rest)..]
  {
    hide Kept, Decode, CheckByte, IsTail, Parted;
    var b, head := whole + rest, rest[..Kept(rest)];
    AllAnnounced(whole, rest);
    AllAnnounced(whole, head);
    DecodeParted(whole, head);
    assert b[..Kept(b)] == whole + head;
  }

  lemma WholeKept(d: State, left: seq<Byte>, t: seq<Byte>)
    requires left != [] && Waiting(d, left) && d.need <= |t| && d.need <= Tails(t)
    ensures var b, rest := left + t, t[d.need..];
            && Decode(b[..Kept(b)]) == Decode(left + t[..d.need]) + Decode(rest[..Kept(rest)])
            && b[Kept(b)..] == rest[Kept(rest)..]
  {
    hide Kept, Decode, Tails, CheckByte, IsTail, Waiting;
    var whole, rest := left + t[..d.need], t[d.need..];
    assert left + t == whole + rest;
    WholeAnnounced(d, left, t);
    AnnouncedKept(whole, rest);
  }

  lemma WholeAnnounced(d: State, left: seq<Byte>, t: seq<Byte>)
    requires left != [] && Waiting(d, left) && d.need <= Tails(t)
    ensures var whole := left + t[..d.need];
            |whole| == CheckByte(whole[0]) && forall i :: 1 <= i < |whole| ==> IsTail(whole[i])
  {
    hide Tails, CheckByte;
    var whole := left + t[..d.need];
    assert forall i :: |left| <= i < |whole| ==> whole[i] == t[i - |left|];
  }

  /** The next bytes break the character off: it comes out as one replacement, with the continuation bytes that were
      still read for it, and decoding goes on after them. */
  lemma WriteBroken(d: State, left: seq<Byte>, t: seq<Byte>)
    requires left != [] && Waiting(d, left) && t != [] && Tails(t) < d.need && Tails(t) < |t|
    ensures var y := t[Tails(t)..];
            var (d', out) := Write(d, t);
            out == [0xFFFD] + Decode(y[..Kept(y)]) && Waiting(d', y[Kept(y)..])
  {
    hide CheckByte, Tails, Text, Decode, Kept, Begun, CheckExtra;
    CheckExtraIs(d.need, t);
    TextHolds(d.(need := 0), t, Tails(t));
  }

  /** One write, from any state that a run reaches and for any bytes. */
  lemma WriteExactly(d: State, left: seq<Byte>, t: seq<Byte>)
    requires Waiting(d, left)
    ensures var (d', out) := Write(d, t);
            if left != [] && Tails(t) < d.need && Tails(t) < |t| then
              var y := t[Tails(t)..];
              out == [0xFFFD] + Decode(y[..Kept(y)]) && Waiting(d', y[Kept(y)..])
            else
              var b := left + t;
              out == Decode(b[..Kept(b)]) && Waiting(d', b[Kept(b)..])
  {
    hide Kept, Decode, Text, FillLast, Tails, CheckByte;
    var b := left + t;
    if t == [] {
      NothingDecoded();
      assert b == left && b[..0] == [] && b[0..] == b;
      if left != [] { KeptAtStart(left); }
    } else if left == [] {
      assert b == t && t[0..] == t;
      TextHolds(d, t, 0);
    } else if Tails(t) < d.need && Tails(t) < |t| {
      WriteBroken(d, left, t);
    } else {
      WriteContinued(d, left, t);
    }
  }

  // ----- runs of writes

  lemma BrokenLater(x: seq<Byte>, y: seq<Byte>, i: nat)
    requires i < |y|
    ensures var b := x + y;
            b[|x| + i + 1..] == y[i + 1..] && (BrokenAt(b, |x| + i) <==> BrokenAt(y, i))
  {
    hide Tails, CheckByte;
    assert (x + y)[|x| + i + 1..] == y[i + 1..];
  }

  lemma BrokenEarlier(x: seq<Byte>, y: seq<Byte>, i: nat)
    requires i < |x| && i + 1 + Tails(x[i + 1..]) < |x|
    ensures Tails((x + y)[i + 1..]) == Tails(x[i + 1..]) && (BrokenAt(x + y, i) <==> BrokenAt(x, i))
  {
    hide Tails, CheckByte;
    var r := x[i + 1..];
    assert (x + y)[i + 1..] == r + y;
    TailsAre(r + y, Tails(r));
  }

  /** What is broken off inside a part is so inside the whole. */
  lemma BrokenPart(x: seq<Byte>, y: seq<Byte>)
    ensures BrokenInside(y) ==> BrokenInside(x + y)
    ensures BrokenInside(x) ==> BrokenInside(x + y)
  {
    hide Tails, BrokenAt;
    if BrokenInside(y) {
      var i :| 0 <= i < |y| && BrokenAt(y, i) && i + 1 + Tails(y[i + 1..]) < |y|;
      BrokenLater(x, y, i);
      BrokenInsideIf(x + y, |x| + i);
    }
    if BrokenInside(x) {
      var i :| 0 <= i < |x| && BrokenAt(x, i) && i + 1 + Tails(x[i + 1..]) < |x|;
      BrokenEarlier(x, y, i);
      BrokenInsideIf(x + y, i);
    }
  }

  /** A run of writes. */
  lemma {:induction false} WriteAllHolds(d: State, left: seq<Byte>, chunks: seq<seq<Byte>>)
    requires Waiting(d, left) && !BrokenInside(left + Flatten(chunks))
    ensures var b := left + Flatten(chunks);
            var (d', out) := WriteAll(d, chunks);
            out == Decode(b[..Kept(b)]) && Waiting(d', b[Kept(b)..])
    decreases |chunks|
  {
    hide Kept, BrokenInside, Decode, Write, Begun, Flatten;
    FlattenNone<Byte>();
    if chunks == [] {
      NothingDecoded();
      if left != [] { KeptAtStart(left); }
      assert left + [] == left && left[..0] == [] && left[0..] == left;
    } else {
      var t, rest := chunks[0], Flatten(chunks[1..]);
      var x := left + t;
      FlattenFirst(chunks);
      assert left + Flatten(chunks) == x + rest;
      BrokenPart(x, rest);
      WriteHolds(d, left, t);
      KeptAppend(x, rest);
      DecodeKeptAppend(x, rest);
      assert x + rest == x[..Kept(x)] + (x[Kept(x)..] + rest);
      BrokenPart(x[..Kept(x)], x[Kept(x)..] + rest);
      WriteAllHolds(Write(d, t).0, x[Kept(x)..], chunks[1..]);
    }
  }

  // ----- the theorems

  /** Where no character is broken off inside, the output of any chunks is the decoding of all bytes but a character
      only begun at the end, and `end` adds one replacement exactly for such a character. */
  lemma ChunksDecodeKept(buffer: seq<Byte>, chunks: seq<seq<Byte>>)
    requires |buffer| == 4 && !BrokenInside(Flatten(chunks))
    ensures var b := Flatten(chunks);
            var (d, out) := WriteAll(Start(buffer), chunks);
            out == Decode(b[..Kept(b)]) && Ending(d) == if Kept(b) < |b| then [REPLACEMENT] else []
  {
    hide Kept, BrokenInside, Decode, WriteAll, Flatten;
    var b := Flatten(chunks);
    assert [] + b == b;
    WriteAllHolds(Start(buffer), [], chunks);
  }

  /** What is begun at the end of bytes that are nowhere broken off is a first byte. */
  lemma EndOfUnbroken(b: seq<Byte>)
    requires !BrokenOff(b) && Kept(b) < |b|
    ensures Kept(b) == |b| - 1
  {
    hide Kept, Tails, CheckByte;
    var k := Kept(b);
    var p := b[k..];
    assert p[0] == b[k];
    BegunNext(p, []);
    assert p + [] == p && p[1..] == b[k + 1..];
    NoTails();
    assert !BrokenAt(b, k);
  }

  lemma NoTails()
    ensures Tails([]) == 0
  {
  }

  lemma UnbrokenInside(b: seq<Byte>)
    requires !BrokenOff(b)
    ensures !BrokenInside(b)
  {
  }

  lemma UnbrokenReads(buffer: seq<Byte>, chunks: seq<seq<Byte>>)
    requires |buffer| == 4 && !BrokenOff(Flatten(chunks))
    ensures ReadAll(buffer, chunks) == Decode(Flatten(chunks))
  {
    hide Kept, BrokenOff, BrokenInside, Decode, WriteAll, Flatten, Begun;
    var b := Flatten(chunks);
    UnbrokenInside(b);
    ChunksDecodeKept(buffer, chunks);
    DecodeKept(b, []);
    assert b + [] == b && b[Kept(b)..] + [] == b[Kept(b)..];
    NothingDecoded();
    if Kept(b) < |b| {
      EndOfUnbroken(b);
      LoneFirstByte(b[Kept(b)..], []);
      assert [REPLACEMENT] + Decode([]) == [REPLACEMENT];
    } else {
      assert b[Kept(b)..] == [];
    }
  }

  // ----- where the cut shows

  /** A character broken off is replaced byte by byte. */
  lemma {:induction false} DecodeTails(b: seq<Byte>, n: nat)
    requires n <= |b| && forall i :: 0 <= i < n ==> IsTail(b[i])
    ensures |Decode(b)| == n + |Decode(b[n..])|
  {
    hide Decode;
    if n > 0 {
      assert CharLen(b) == 0;
      DecodeReplaced(b);
      DecodeTails(b[1..], n - 1);
      assert b[1..][n - 1..] == b[n..];
    } else {
      assert b[0..] == b;
    }
  }

  lemma DecodeBroken(b: seq<Byte>)
    requires b != [] && BrokenAt(b, 0)
    ensures |Decode(b)| == 1 + Tails(b[1..]) + |Decode(b[1 + Tails(b[1..])..])|
  {
    hide Decode, Tails;
    var c := Tails(b[1..]);
    NoCharBroken(b);
    DecodeReplaced(b);
    DecodeTails(b[1..], c);
    assert b[1..][c..] == b[1 + c..];
  }

  lemma NoCharBroken(b: seq<Byte>)
    requires b != [] && BrokenAt(b, 0)
    ensures CharLen(b) == 0
  {
    hide Tails, CharLen;
    var c := Tails(b[1..]);
    if CharLen(b) > 1 + c {
      assert b[1..][c] == b[1 + c];
      CharBegins(b, 1 + c);
    }
    CharLenAnnounced(b);
  }

  lemma CharLenAnnounced(b: seq<Byte>)
    requires b != []
    ensures CharLen(b) == 0 || CharLen(b) == CheckByte(b[0]) || (CharLen(b) == 1 && CheckByte(b[0]) == 0)
  {
  }

  /** What a decoder still gives, for a chunk and then `end`, is no longer than decoding all at once. */
  lemma TextNoLonger(d: State, t: seq<Byte>, i: nat)
    requires Shape(d) && d.need == 0 && i <= |t|
    ensures var (d', out) := Text(d, t, i);
            |out| + |Ending(d')| <= |Decode(t[i..])|
  {
    hide Text, Kept, Decode, Begun;
    var y := t[i..];
    TextHolds(d, t, i);
    DecodeKept(y, []);
    assert y + [] == y && y[Kept(y)..] + [] == y[Kept(y)..];
    if Kept(y) < |y| { DecodesToSome(y[Kept(y)..]); }
  }

  lemma DecodesToSome(b: seq<Byte>)
    requires b != []
    ensures |Decode(b)| >= 1
  {
    hide ReadPoint;
  }

  /** After the first byte and one continuation byte, a character broken off gives one replacement in all. */
  lemma RestIsShorter(d: State, left: seq<Byte>, t: seq<Byte>)
    requires Waiting(d, left) && |left| == 2 && BrokenAt(left + t, 0)
    ensures var (d', out) := Write(d, t);
            |out| + |Ending(d')| < |Decode(left + t)|
  {
    hide Decode, Tails, CheckByte, Text, FillLast;
    BegunNext(left, t);
    NeedsMore(d, left);
    var c := Tails(t);
    var b := left + t;
    DecodeBroken(b);
    assert b[1 + Tails(b[1..])..] == t[c..];
    if t == [] {
    } else if c == |t| {
      FillLastHolds(d, left, t);
      NeedsMore(FillLast(d, t).0, left + t);
    } else {
      FillLastCut(d, left, t);
      TextNoLonger(d.(need := 0), t, c);
    }
  }

  lemma FillLastCut(d: State, left: seq<Byte>, t: seq<Byte>)
    requires left != [] && Waiting(d, left) && Tails(t) < d.need && Tails(t) < |t|
    ensures FillLast(d, t) == (d.(need := Tails(t)), Some([REPLACEMENT]))
  {
    hide Tails, CheckByte, CheckExtra;
    CheckByteIs(left[0]);
    CheckExtraIs(d.need, t);
  }

  lemma TwoChunks(x: seq<Byte>, y: seq<Byte>)
    ensures Flatten([x, y]) == x + y
  {
    FlattenPush([x], y);
    FlattenOne(x);
    assert [x] + [y] == [x, y];
  }

  /** Cutting after the first continuation byte of a character broken off makes the output shorter. */
  lemma BrokenShows(buffer: seq<Byte>, b: seq<Byte>, i: nat)
    requires |buffer| == 4 && i < |b| && BrokenAt(b, i)
    ensures i + 2 <= |b| && Flatten([b[..i + 2], b[i + 2..]]) == b
    ensures |ReadAll(buffer, [b[..i + 2], b[i + 2..]])| < |Decode(b)|
  {
    hide Kept, Decode, Write, Flatten, Tails, CheckByte;
    var x, y := b[..i + 2], b[i + 2..];
    var left := x[i..];
    TwoChunks(x, y);
    assert x + y == b && left + y == b[i..] && b[i..][0] == b[i] && b[i..][1..] == b[i + 1..];
    assert left[1] == b[i + 1..][0];
    KeptAt(x, i);
    DecodeKept(x, y);
    FirstWrite(buffer, x);
    var (d, out) := Write(Start(buffer), x);
    RestIsShorter(d, left, y);
    TwoWrites(Start(buffer), x, y);
  }

  lemma FirstWrite(buffer: seq<Byte>, x: seq<Byte>)
    requires |buffer| == 4 && x != []
    ensures var (d, out) := Write(Start(buffer), x);
            out == Decode(x[..Kept(x)]) && Waiting(d, x[Kept(x)..])
  {
    hide Kept, Decode, Text;
    assert x[0..] == x;
    TextHolds(Start(buffer), x, 0);
  }

  lemma TwoWrites(d: State, x: seq<Byte>, y: seq<Byte>)
    requires Shape(d)
    ensures var (d1, out) := Write(d, x);
            var (d2, more) := Write(d1, y);
            WriteAll(d, [x, y]) == (d2, out + more)
  {
    hide Write;
    assert [x, y][1..] == [y] && [y][1..] == [];
    var (d1, out) := Write(d, x);
    var (d2, more) := Write(d1, y);
    assert WriteAll(d1, [y]) == (d2, more + []);
    assert more + [] == more;
  }

  /** The cut never shows exactly for the bytes in which no first byte of three or more is followed by some, but too few,
      continuation bytes. */
  lemma CutNeverShowsIff(buffer: seq<Byte>, b: seq<Byte>)
    requires |buffer| == 4
    ensures (forall chunks: seq<seq<Byte>> :: Flatten(chunks) == b ==> ReadAll(buffer, chunks) == Decode(b)) <==> !BrokenOff(b)
    ensures BrokenOff(b) <==> exists i :: 0 <= i < |b| && CutShort(b, i)
  {
    hide ReadAll, Decode, BrokenAt, CutShort, Flatten;
    forall i | 0 <= i < |b|
      ensures BrokenAt(b, i) <==> CutShort(b, i)
    {
      BrokenIsCutShort(b, i);
    }
    if BrokenOff(b) {
      var i :| 0 <= i < |b| && BrokenAt(b, i);
      BrokenShows(buffer, b, i);
    } else {
      forall chunks: seq<seq<Byte>> | Flatten(chunks) == b
        ensures ReadAll(buffer, chunks) == Decode(b)
      {
        UnbrokenReads(buffer, chunks);
      }
    }
  }

  // ----- valid bytes

  lemma CharUnbroken(b: seq<Byte>, i: nat)
    requires CharLen(b) > 0 && i < CharLen(b)
    ensures !BrokenAt(b, i)
  {
    hide CharLen, Tails, CheckByte;
    CheckByteIs(b[i]);
    CharLenAnnounced(b);
    if i > 0 {
      CharBegins(b, i);
    } else {
      forall j | 0 <= j < CharLen(b) - 1
        ensures IsTail(b[1..][j])
      {
        CharBegins(b, j + 1);
      }
      var c := Tails(b[1..]);
      assert c < |b[1..]| ==> !IsTail(b[1..][c]);
    }
  }

  lemma {:induction false} ValidUnbroken(b: seq<Byte>)
    requires ValidUtf8(b)
    ensures !BrokenOff(b)
    decreases |b|
  {
    hide CharLen, BrokenAt;
    if b != [] {
      var l := CharLen(b);
      ValidUnbroken(b[l..]);
      forall i | 0 <= i < |b|
        ensures !BrokenAt(b, i)
      {
        if i < l {
          CharUnbroken(b, i);
        } else {
          BrokenLater(b[..l], b[l..], i - l);
          assert b[..l] + b[l..] == b;
        }
      }
    }
  }

  /** Valid UTF-8, possibly ending inside a character. */
  predicate ValidPrefix(b: seq<Byte>)
    decreases |b|
  {
    b == [] || Partial(b) || (CharLen(b) > 0 && ValidPrefix(b[CharLen(b)..]))
  }

  /** The bytes of the whole characters at the start of `b`. */
  function Cut(b: seq<Byte>): (n: nat)
    ensures n <= |b|
    decreases |b|
  {
    if CharLen(b) == 0 then 0 else CharLen(b) + Cut(b[CharLen(b)..])
  }

  lemma PartialIsBegun(b: seq<Byte>)
    requires Partial(b)
    ensures Begun(b) && CharLen(b) == 0
  {
  }

  lemma BegunNotInside(b: seq<Byte>)
    requires Begun(b)
    ensures !BrokenInside(b)
  {
    hide Tails, CheckByte;
    forall i | 0 <= i < |b| && BrokenAt(b, i)
      ensures i + 1 + Tails(b[i + 1..]) == |b|
    {
      CheckByteIs(b[i]);
      TailsAre(b[i + 1..], |b| - i - 1);
    }
  }

  lemma CharKept(b: seq<Byte>)
    requires CharLen(b) > 0
    ensures Kept(b) == CharLen(b) + Kept(b[CharLen(b)..])
    ensures BrokenInside(b) ==> BrokenInside(b[CharLen(b)..])
  {
    hide CharLen, Kept, Begun, BrokenAt, BrokenInside;
    var l := CharLen(b);
    var ch, rest := b[..l], b[l..];
    assert b == ch + rest;
    CharLenOfPrefix(b, ch);
    CharNotBegun(ch);
    KeptIs(ch, l);
    KeptAppend(ch, rest);
    assert ch[l..] + rest == rest;
    if BrokenInside(b) { BrokenAfterChar(b); }
  }

  lemma CharNotBegun(ch: seq<Byte>)
    requires CharLen(ch) == |ch| > 0
    ensures forall i :: 0 <= i < |ch| ==> !Begun(ch[i..])
  {
    hide CharLen, CheckByte;
    CharLenAnnounced(ch);
    forall i | 0 <= i < |ch|
      ensures !Begun(ch[i..])
    {
      assert ch[i..][0] == ch[i];
      CheckByteIs(ch[i]);
      if i > 0 { CharBegins(ch, i); }
    }
  }

  lemma BrokenAfterChar(b: seq<Byte>)
    requires CharLen(b) > 0 && BrokenInside(b)
    ensures BrokenInside(b[CharLen(b)..])
  {
    hide CharLen, BrokenAt, Tails;
    var i :| 0 <= i < |b| && BrokenAt(b, i) && i + 1 + Tails(b[i + 1..]) < |b|;
    var l := CharLen(b);
    if i < l { CharUnbroken(b, i); }
    assert b == b[..l] + b[l..];
    BrokenLater(b[..l], b[l..], i - l);
    BrokenInsideIf(b[l..], i - l);
  }

  lemma {:induction false} PrefixKept(b: seq<Byte>)
    requires ValidPrefix(b)
    ensures Kept(b) == Cut(b) && !BrokenInside(b)
    decreases |b|
  {
    hide CharLen, Kept, BrokenInside, Partial, Begun;
    if b == [] {
      NothingDecoded();
      NothingBroken();
    } else if Partial(b) {
      PartialIsBegun(b);
      KeptAtStart(b);
      BegunNotInside(b);
    } else {
      CharKept(b);
      PrefixKept(b[CharLen(b)..]);
    }
  }

  lemma NothingBroken()
    ensures !BrokenInside([]) && Cut([]) == 0
  {
  }

  /** For valid bytes that may end inside a character, the output is the decoding of the whole characters, and `end` adds
      one replacement exactly for an unfinished one. */
  lemma ChunkingIsInvisible(buffer: seq<Byte>, chunks: seq<seq<Byte>>)
    requires |buffer| == 4 && ValidPrefix(Flatten(chunks))
    ensures var b := Flatten(chunks);
            var (d, out) := WriteAll(Start(buffer), chunks);
            && out == Decode(b[..Cut(b)])
            && Ending(d) == (if Cut(b) < |b| then [REPLACEMENT] else [])
  {
    hide WriteAll, Decode, BrokenInside, Kept, Cut, ValidPrefix, Flatten;
    PrefixKept(Flatten(chunks));
    ChunksDecodeKept(buffer, chunks);
  }

  /** For valid UTF-8, the chunks decode to the same string as all bytes at once. */
  lemma ChunksDecodeAsOne(buffer: seq<Byte>, chunks: seq<seq<Byte>>)
    requires |buffer| == 4 && ValidUtf8(Flatten(chunks))
    ensures ReadAll(buffer, chunks) == Decode(Flatten(chunks))
  {
    hide ReadAll, Decode, BrokenOff;
    ValidUnbroken(Flatten(chunks));
    CutNeverShowsIff(buffer, Flatten(chunks));
  }

  /** Validity is not what decides: FF is invalid, and no cut shows in it. In E2 82 41 one does. */
  lemma InvalidBytesMayShowTheCut()
    ensures !ValidUtf8([0xFF]) && !BrokenOff([0xFF])
    ensures BrokenOff([0xE2, 0x82, 0x41])
  {
    var b: seq<Byte> := [0xE2, 0x82, 0x41];
    TailsAre(b[1..], 1);
    assert BrokenAt(b, 0);
    var f: seq<Byte> := [0xFF];
    assert CharLen(f) == 0;
  }
}
