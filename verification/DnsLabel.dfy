/** The label of an instance name: a length byte and the name in UTF-8, with no escapes. */
module DnsLabels {
  import opened Options
  import opened Bytes
  import opened Utf8

  const LONGEST := 63

  /** What Java's encoder writes for a surrogate without a partner. */
  const QUESTION_MARK: CodeUnit := 0x3F

  datatype Error = NameTooLong

  /** The string with a question mark for every surrogate without a partner. */
  function Questioned(s: seq<CodeUnit>): (r: seq<CodeUnit>)
    ensures WellFormed(r) && |r| == |s|
    ensures forall i :: 0 <= i < |s| ==> r[i] == if IsLone(s, i) then 0x3F else s[i]
    ensures r == s <==> WellFormed(s)
  {
    MendedWellFormed(s, QUESTION_MARK);
    Mended(s, QUESTION_MARK)
  }

  /** A label and the root after it. */
  method EncodeName(s: seq<CodeUnit>) returns (r: Result<seq<Byte>, Error>)
    ensures r.Failure? <==> |Encode(Questioned(s))| > 63
    ensures r.Success? ==> |r.value| >= 2 && r.value[0] == |r.value| - 2 && r.value[|r.value| - 1] == 0
    ensures r.Success? ==> r.value[1..|r.value| - 1] == Encode(Questioned(s))
    ensures r.Success? ==> DecodeName(r.value[..|r.value| - 1]) == Questioned(s)
    ensures r.Success? ==> (DecodeName(r.value[..|r.value| - 1]) == s <==> WellFormed(s))
  {
    hide Encode, Decode, WellFormed, Questioned;
    var tmp := Encode(Questioned(s));
    if |tmp| > LONGEST {
      return Failure(NameTooLong);
    }
    var bytes := new Byte[|tmp| + 2](_ => 0);
    bytes[0] := |tmp|;
    for i := 0 to |tmp|
      invariant bytes[0] == |tmp| && bytes[|tmp| + 1] == 0 && bytes[1..i + 1] == tmp[..i]
    {
      bytes[i + 1] := tmp[i];
      assert bytes[1..i + 2] == bytes[1..i + 1] + [tmp[i]];
    }
    DecodeUndoesEncode(Questioned(s));
    assert bytes[..][..|tmp| + 1][1..] == tmp && bytes[..][1..|tmp| + 1] == tmp;
    r := Success(bytes[..]);
  }

  /** The name of a label, whose first byte is its length. */
  function DecodeName(l: seq<Byte>): seq<CodeUnit>
    requires l != []
  {
    Decode(l[1..])
  }

  /** Names have the same label exactly if they differ in surrogates without partners alone. */
  lemma LabelsDiffer(s: seq<CodeUnit>, t: seq<CodeUnit>)
    ensures Encode(Questioned(s)) == Encode(Questioned(t)) <==> Questioned(s) == Questioned(t)
    ensures WellFormed(s) && WellFormed(t) && s != t ==> Encode(s) != Encode(t)
  {
    DecodeUndoesEncode(Questioned(s));
    DecodeUndoesEncode(Questioned(t));
  }
}
