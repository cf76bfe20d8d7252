/** The encoder and decoder as the source runs them: one loop over the input each, with bit expressions
    instead of arithmetic. */
module Utf8Code {
  import opened Bits
  import opened ByteBits
  import opened Bytes
  import opened Utf8

  /** The bytes pushed for one code point. */
  method PushPoint(out: seq<Byte>, n: int) returns (r: seq<Byte>)
    requires 0 <= n < 0x11_0000
    ensures r == out + EncodePoint(n)
  {
    SmallBits();
    hide Or, And, Bit, Low, Tail, First;
    if n < 128 {
      r := out + [n];
    } else if n < 2048 {
      r := out + [First(n / 64, 6, 5), Tail(n)];
    } else if n < 65536 {
      r := out + [First(n / 4096, 14, 4), Tail(n / 64), Tail(n)];
    } else {
      r := out + [First(n / 262144, 30, 3), Tail(n / 4096), Tail(n / 64), Tail(n)];
    }
  }

  /** One turn of the encoder's loop: `lead` is the lead surrogate waiting for its partner, 0 when there is none. */
  method EncodeUnit(out: seq<Byte>, lead: int, s: seq<CodeUnit>, i: nat) returns (out': seq<Byte>, lead': int)
    requires (lead == 0 || IsLead(lead)) && i < |s|
    ensures lead' == 0 || IsLead(lead')
    ensures out' + EncodeFrom(lead', s[i + 1..]) == out + EncodeFrom(lead, s[i..])
  {
    hide EncodePoint;
    out', lead' := out, lead;
    var n: int := s[i];
    ghost var rest := s[i + 1..];
    assert s[i..][0] == n && s[i..][1..] == rest;
    if n > 55295 && n < 57344 {
      if lead == 0 {
        if n > 56319 || i + 1 == |s| {
          out' := out + [239, 191, 189];
        } else {
          lead' := n;
        }
        return;
      }
      if n < 56320 {
        out' := out + [239, 191, 189];
        lead' := n;
        return;
      }
      n := 65536 + ((lead - 55296) * 1024 + (n - 56320));
    } else if lead != 0 {
      out' := out + [239, 191, 189];
    }
    out' := PushPoint(out', n);
    lead' := 0;
  }

  method EncodeLoop(s: seq<CodeUnit>) returns (out: seq<Byte>)
    ensures out == Encode(s)
  {
    hide EncodeFrom;
    out := [];
    var lead := 0;
    var i := 0;
    assert s[0..] == s;
    while i < |s|
      invariant i <= |s| && (lead == 0 || IsLead(lead))
      invariant out + EncodeFrom(lead, s[i..]) == Encode(s)
    {
      out, lead := EncodeUnit(out, lead, s, i);
      i := i + 1;
    }
    NothingLeft(lead);
    assert s[i..] == [];
  }

  lemma NothingLeft(lead: int)
    requires lead == 0 || IsLead(lead)
    ensures EncodeFrom(lead, []) == []
  {
  }

  /** The code point tried at position `i`, with the source's masks and shifts; -1 stands for its `null`. */
  method TryPoint(t: seq<Byte>, i: nat, end: nat) returns (f: int, l: nat)
    requires i < end <= |t|
    ensures (f, l) == ReadPoint(t[i..end])
  {
    SmallBits();
    hide Or, And, Bit, Low, HasTailMark, Join, First;
    ghost var b := t[i..end];
    assert forall j :: 0 <= j < end - i ==> b[j] == t[i + j];
    var c := t[i];
    f := -1;
    l := if c > 239 then 4 else if c > 223 then 3 else if c > 191 then 2 else 1;
    if i + l <= end {
      forall j | i < j < i + l
        ensures HasTailMark(t[j]) <==> IsTail(t[j])
      {
        TailMarkIsTail(t[j]);
      }
      if l == 1 {
        if c < 128 { f := c; }
      } else if l == 2 {
        var s := Join(Low(c, 5), t[i + 1]);
        if HasTailMark(t[i + 1]) && s > 127 { f := s; }
      } else if l == 3 {
        var s := Join(Join(Low(c, 4), t[i + 1]), t[i + 2]);
        if HasTailMark(t[i + 1]) && HasTailMark(t[i + 2]) && s > 2047 && (s < 55296 || s > 57343) { f := s; }
      } else {
        var s := Join(Join(Join(Low(c, 4), t[i + 1]), t[i + 2]), t[i + 3]);
        if HasTailMark(t[i + 1]) && HasTailMark(t[i + 2]) && HasTailMark(t[i + 3]) && s > 65535 && s < 1114112 { f := s; }
      }
    }
  }

  /** One turn of the decoder's loop. */
  method DecodeStep(r: seq<CodeUnit>, t: seq<Byte>, i: nat, n: nat) returns (r': seq<CodeUnit>, i': nat)
    requires i < n <= |t|
    ensures r' == r + Step(t[i..n]).0 && i' == i + Step(t[i..n]).1
  {
    SmallBits();
    hide ReadPoint, Or, Bit, First;
    r' := r;
    var f, l := TryPoint(t, i, n);
    if f == -1 {
      f, l := 65533, 1;
    } else if f > 65535 {
      f := f - 65536;
      r' := r' + [First(f / 1024 % 1024, 54, 10)];
      f := First(f % 1024, 55, 10);
    }
    r' := r' + [f];
    i' := i + l;
  }

  /** The decoder: advances by at least one byte whatever the bytes are. */
  method DecodeLoop(t: seq<Byte>, start: nat, end: nat) returns (r: seq<CodeUnit>)
    ensures var n := if end < |t| then end else |t|;
            r == if start < n then Decode(t[start..n]) else []
  {
    hide Step;
    var n := if end < |t| then end else |t|;
    r := [];
    if start < n {
      var i := start;
      while i < n
        invariant start <= i <= n
        invariant r + Decode(t[i..n]) == Decode(t[start..n])
      {
        ghost var l := Step(t[i..n]).1;
        assert t[i..n][l..] == t[i + l..n];
        r, i := DecodeStep(r, t, i, n);
      }
      assert t[i..n] == [];
    }
  }
}
