/** The incremental UTF-8 decoder: what it writes does not depend on how the bytes were cut into chunks. */
module StringDecoder {
  import opened Options
  import opened Bytes
  import opened Utf8
  import opened Utf8Code

  /** The decoder's three fields; `chars` is its four-byte buffer. */
  datatype State = State(need: nat, total: nat, chars: seq<Byte>)

  ghost predicate Shape(d: State) {
    |d.chars| == 4 && d.total <= 4 && d.need <= d.total
  }

  // ----- the transitions

  /** The length announced by a first byte, 0 for ASCII, -1 for a continuation byte, -2 for a byte that fits nowhere. */
  function CheckByte(b: Byte): int {
    if b <= 0x7F then 0
    else if b / 32 == 0x06 then 2
    else if b / 16 == 0x0E then 3
    else if b / 8 == 0x1E then 4
    else if b / 64 == 0x02 then -1
    else -2
  }

  /** The number of bytes already taken when `t` does not continue the waiting character. */
  function CheckExtra(need: nat, t: seq<Byte>): Option<nat>
    requires t != []
  {
    if !IsTail(t[0]) then Some(0)
    else if need > 1 && |t| > 1 && !IsTail(t[1]) then Some(1)
    else if need > 2 && |t| > 2 && !IsTail(t[2]) then Some(2)
    else None
  }

  /** `chars` with the first `n` bytes of `t` copied to position `at`. */
  function Copied(chars: seq<Byte>, at: nat, t: seq<Byte>, n: nat): (r: seq<Byte>)
    requires n <= |t| && at + n <= |chars|
    ensures |r| == |chars|
  {
    chars[..at] + t[..n] + chars[at + n..]
  }

  /** Fills up the waiting character; no output while it is still incomplete. */
  function FillLast(d: State, t: seq<Byte>): (r: (State, Option<seq<CodeUnit>>))
    requires Shape(d) && d.need > 0 && t != []
    ensures Shape(r.0) && (r.1.Some? ==> r.0.need <= |t|)
  {
    var at := d.total - d.need;
    var bad := CheckExtra(d.need, t);
    if bad.Some? then (d.(need := bad.value), Some([REPLACEMENT]))
    else if d.need <= |t| then
      var chars := Copied(d.chars, at, t, d.need);
      (d.(chars := chars), Some(Decode(chars[..d.total])))
    else (State(d.need - |t|, d.total, Copied(d.chars, at, t, |t|)), None)
  }

  /** Looks at the last three bytes from position `i` on for a character that is cut short: its length, and how many of its bytes are missing. */
  function CheckIncomplete(t: seq<Byte>, i: nat): (r: (nat, nat))
    requires i <= |t|
    ensures r.1 > 0 ==> r.0 <= 4 && 1 <= r.0 - r.1 <= |t| - i
  {
    var j := |t| - 1;
    if j < i then (0, 0)
    else
      var c := CheckByte(t[j]);
      if c > 0 then (c, c - 1)
      else if c == 0 then (0, 0)
      else if j - 1 < i || c == -2 then (0, 0)
      else
        var c := CheckByte(t[j - 1]);
        if c > 0 then (c, c - 2)
        else if c == 0 then (0, 0)
        else if j - 2 < i || c == -2 then (0, 0)
        else
          var c := CheckByte(t[j - 2]);
          if c > 0 then if c == 2 then (0, 0) else (c, c - 3)
          else (0, 0)
  }

  /** Decodes from position `i`, keeping back a character that is cut short. */
  function Text(d: State, t: seq<Byte>, i: nat): (r: (State, seq<CodeUnit>))
    requires Shape(d) && d.need == 0 && i <= |t|
    ensures Shape(r.0)
  {
    var (n, need) := CheckIncomplete(t, i);
    if need == 0 then (d, Decode(t[i..]))
    else
      var cut := |t| - (n - need);
      (State(need, n, Copied(d.chars, 0, t[cut..], n - need)), Decode(t[i..cut]))
  }

  function Write(d: State, t: seq<Byte>): (r: (State, seq<CodeUnit>))
    requires Shape(d)
    ensures Shape(r.0)
  {
    if t == [] then (d, [])
    else if d.need > 0 then
      var (d1, out) := FillLast(d, t);
      if out.None? then (d1, [])
      else
        var d2 := d1.(need := 0);
        if d1.need < |t| then
          var (d3, more) := Text(d2, t, d1.need);
          (d3, out.value + more)
        else (d2, out.value)
    else Text(d, t, 0)
  }

  /** What `end` adds: one replacement for a character that never became whole. */
  function Ending(d: State): seq<CodeUnit> { if d.need > 0 then [REPLACEMENT] else [] }

  function Start(chars: seq<Byte>): State { State(0, 0, chars) }

  /** Writes a sequence of chunks. */
  function WriteAll(d: State, chunks: seq<seq<Byte>>): (r: (State, seq<CodeUnit>))
    requires Shape(d)
    ensures Shape(r.0)
    decreases |chunks|
  {
    if chunks == [] then (d, [])
    else
      var (d1, out) := Write(d, chunks[0]);
      var (d2, more) := WriteAll(d1, chunks[1..]);
      (d2, out + more)
  }

  /** What a new decoder gives for the chunks and then `end`. */
  function ReadAll(buffer: seq<Byte>, chunks: seq<seq<Byte>>): seq<CodeUnit>
    requires |buffer| == 4
  {
    var (d, out) := WriteAll(Start(buffer), chunks);
    out + Ending(d)
  }

  // ----- the object

  class Decoder {
    var lastNeed: nat
    var lastTotal: nat
    const lastChar: array<Byte>

    ghost predicate Valid()
      reads this, lastChar
    {
      lastChar.Length == 4 && Shape(Current())
    }

    function Current(): State
      reads this, lastChar
    {
      State(lastNeed, lastTotal, lastChar[..])
    }

    constructor ()
      ensures Valid() && fresh(lastChar) && Current() == Start(lastChar[..])
    {
      lastNeed, lastTotal := 0, 0;
      lastChar := new Byte[4](_ => 0);
    }

    /** `t.copy(this.lastChar, at, from, from + n)`. */
    method CopyIn(at: nat, t: seq<Byte>, from: nat, n: nat)
      requires from + n <= |t| && at + n <= lastChar.Length
      modifies lastChar
      ensures lastChar[..] == Copied(old(lastChar[..]), at, t[from..], n)
    {
      for i := 0 to n
        invariant forall j :: 0 <= j < lastChar.Length ==>
                    lastChar[j] == if at <= j < at + i then t[from + j - at] else old(lastChar[j])
      {
        lastChar[at + i] := t[from + i];
      }
    }

    method FillLastBytes(t: seq<Byte>) returns (out: Option<seq<CodeUnit>>)
      requires Valid() && lastNeed > 0 && t != []
      modifies this, lastChar
      ensures Valid() && (Current(), out) == FillLast(old(Current()), t)
    {
      var at := lastTotal - lastNeed;
      assert t[0..] == t;
      if !IsTail(t[0]) {
        lastNeed := 0;
        return Some([REPLACEMENT]);
      }
      if lastNeed > 1 && |t| > 1 {
        if !IsTail(t[1]) {
          lastNeed := 1;
          return Some([REPLACEMENT]);
        }
        if lastNeed > 2 && |t| > 2 && !IsTail(t[2]) {
          lastNeed := 2;
          return Some([REPLACEMENT]);
        }
      }
      if lastNeed <= |t| {
        CopyIn(at, t, 0, lastNeed);
        var text := DecodeLoop(lastChar[..], 0, lastTotal);
        EmptyDecodes();
        out := Some(text);
      } else {
        CopyIn(at, t, 0, |t|);
        lastNeed := lastNeed - |t|;
        out := None;
      }
    }

    method TextFrom(t: seq<Byte>, i: nat) returns (out: seq<CodeUnit>)
      requires Valid() && lastNeed == 0 && i <= |t|
      modifies this, lastChar
      ensures Valid() && (Current(), out) == Text(old(Current()), t, i)
    {
      hide CheckIncomplete, Decode;
      EmptyDecodes();
      var (n, need) := CheckIncomplete(t, i);
      lastNeed := need;
      if lastNeed == 0 {
        out := DecodeLoop(t, i, |t|);
        assert t[i..|t|] == t[i..] && (i == |t| ==> t[i..] == []);
        return;
      }
      lastTotal := n;
      var cut := |t| - (n - lastNeed);
      CopyIn(0, t, cut, |t| - cut);
      assert i == cut ==> t[i..cut] == [];
      out := DecodeLoop(t, i, cut);
    }

    /** Decodes a chunk, together with what earlier chunks left over. */
    method WriteChunk(t: seq<Byte>) returns (out: seq<CodeUnit>)
      requires Valid()
      modifies this, lastChar
      ensures Valid() && (Current(), out) == Write(old(Current()), t)
    {
      hide Text, FillLast, Decode;
      out := [];
      if |t| == 0 { return; }
      var n := 0;
      if lastNeed > 0 {
        var first := FillLastBytes(t);
        if first.None? { return; }
        out := first.value;
        n := lastNeed;
        lastNeed := 0;
      }
      if n < |t| {
        var more := TextFrom(t, n);
        assert [] + more == more;
        out := out + more;
      }
    }

    /** The last chunk, if any, and a replacement for a character that never became whole. */
    method End(t: seq<Byte>) returns (out: seq<CodeUnit>)
      requires Valid()
      modifies this, lastChar
      ensures Valid() && Current() == Write(old(Current()), t).0
      ensures out == Write(old(Current()), t).1 + Ending(Current())
    {
      out := WriteChunk(t);
      if lastNeed > 0 {
        out := out + [REPLACEMENT];
      }
    }
  }

  lemma EmptyDecodes()
    ensures Decode([]) == []
  {
  }
}
