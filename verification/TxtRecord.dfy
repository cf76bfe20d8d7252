/** Service properties as the strings of a TXT record (section 6 of RFC 6763). */
module TxtRecord {
  import opened Options
  import opened Strings

  /** A property: a key, and a value that may be missing. */
  datatype Property = Property(key: string, value: Option<string>)

  // ----- letter case

  /** How the reader puts a key in lower case, which may depend on the locale. */
  type CaseMap = string -> string

  predicate LawfulFor(lower: CaseMap, s: string) {
    lower(lower(s)) == lower(s) && (s != "" ==> lower(s) != "") && ('=' !in s ==> '=' !in lower(s))
  }

  /** Lower-casing twice changes nothing more, never leaves nothing, and adds no '='. */
  ghost predicate Lawful(lower: CaseMap) { forall s :: LawfulFor(lower, s) }

  // ----- writing

  function EntryString(p: Property): string {
    if p.value.Some? then p.key + "=" + p.value.value else p.key
  }

  function EntryStrings(ps: seq<Property>): (r: seq<string>)
    ensures |r| == |ps| && forall i :: 0 <= i < |ps| ==> r[i] == EntryString(ps[i])
  {
    seq(|ps|, i requires 0 <= i < |ps| => EntryString(ps[i]))
  }

  /** A TXT record must not be empty: no properties are written as one empty string. */
  function TxtStrings(ps: seq<Property>): (r: seq<string>)
    ensures r != [] && (ps == [] ==> r == [""])
    ensures ps != [] ==> |r| == |ps| && forall i :: 0 <= i < |ps| ==> r[i] == EntryString(ps[i])
  {
    if ps == [] then [""] else EntryStrings(ps)
  }

  /** The strings built from the properties in their iteration order. */
  method BuildTxt(ps: seq<Property>) returns (strings: seq<string>)
    ensures strings == TxtStrings(ps) != []
  {
    strings := [];
    for i := 0 to |ps|
      invariant strings == EntryStrings(ps[..i])
    {
      var sb := ps[i].key;
      if ps[i].value.Some? {
        sb := sb + "=" + ps[i].value.value;
      }
      strings := strings + [sb];
      assert ps[..i + 1] == ps[..i] + [ps[i]];
    }
    assert ps[..|ps|] == ps;
    if strings == [] {
      strings := strings + [""];
    }
  }

  // ----- reading

  /** One string as a property; an empty key is invalid and ignored. */
  function ReadString(lower: CaseMap, s: string): Option<Property> {
    var i := IndexFrom(s, '=', 0);
    if i == 0 || s == "" then None
    else if i > 0 then Some(Property(lower(s[..i]), Some(s[i + 1..])))
    else Some(Property(s, None))
  }

  /** All but the first property with a key are ignored. */
  function ReadStrings(lower: CaseMap, strings: seq<string>): map<string, Option<string>> {
    if strings == [] then map[]
    else
      var before := ReadStrings(lower, strings[..|strings| - 1]);
      var p := ReadString(lower, strings[|strings| - 1]);
      if p.None? || p.value.key in before then before else before[p.value.key := p.value.value]
  }

  method ReadTxt(lower: CaseMap, strings: seq<string>) returns (properties: map<string, Option<string>>)
    ensures properties == ReadStrings(lower, strings)
    ensures forall k :: k in properties <==> exists i :: 0 <= i < |strings| && Mentions(lower, strings[i], k)
    ensures forall k, i :: 0 <= i < |strings| && IsFirst(lower, strings, k, i) ==>
              k in properties && Spells(lower, strings[i], k, properties[k])
  {
    hide ReadStrings, Mentions, Spells, IsFirst;
    NothingRead(lower);
    properties := map[];
    for n := 0 to |strings|
      invariant properties == ReadStrings(lower, strings[..n])
    {
      var s := strings[n];
      ReadMore(lower, strings, n);
      var i := IndexFrom(s, '=', 0);
      var key, value;
      if i == 0 || s == "" {
        continue;
      } else if i > 0 {
        key, value := lower(s[..i]), Some(s[i + 1..]);
      } else {
        key, value := s, None;
      }
      if key !in properties {
        properties := properties[key := value];
      }
    }
    assert strings[..|strings|] == strings;
    forall k
      ensures k in properties <==> exists i :: 0 <= i < |strings| && Mentions(lower, strings[i], k)
      ensures forall i :: 0 <= i < |strings| && IsFirst(lower, strings, k, i) ==>
                k in properties && Spells(lower, strings[i], k, properties[k])
    {
      ReadIfMentioned(lower, strings, k);
      forall i | 0 <= i < |strings| && IsFirst(lower, strings, k, i)
        ensures k in properties && Spells(lower, strings[i], k, properties[k])
      {
        ReadFromFirst(lower, strings, k, i);
      }
    }
  }

  lemma NothingRead(lower: CaseMap)
    ensures ReadStrings(lower, []) == map[]
  {
  }

  lemma ReadMore(lower: CaseMap, strings: seq<string>, n: nat)
    requires n < |strings|
    ensures var before, p := ReadStrings(lower, strings[..n]), ReadString(lower, strings[n]);
            ReadStrings(lower, strings[..n + 1]) ==
            if p.None? || p.value.key in before then before else before[p.value.key := p.value.value]
  {
    assert strings[..n + 1][..n] == strings[..n];
  }

  // ----- what is read

  /** A string spells a key with a value, with a non-empty key before the first '=' that is put in lower case, or just
      the key as it stands. */
  ghost predicate Spells(lower: CaseMap, s: string, k: string, v: Option<string>) {
    if v.Some? then exists key :: key != "" && '=' !in key && lower(key) == k && s == key + "=" + v.value
    else s == k && k != "" && '=' !in k
  }

  ghost predicate Mentions(lower: CaseMap, s: string, k: string) { exists v :: Spells(lower, s, k, v) }

  /** The first string that mentions the key. */
  ghost predicate IsFirst(lower: CaseMap, strings: seq<string>, k: string, i: nat)
    requires i < |strings|
  {
    Mentions(lower, strings[i], k) && forall j :: 0 <= j < i ==> !Mentions(lower, strings[j], k)
  }

  lemma ReadKeyAndValue(lower: CaseMap, key: string, v: string)
    requires key != "" && '=' !in key
    ensures ReadString(lower, key + "=" + v) == Some(Property(lower(key), Some(v)))
  {
    hide IndexFrom;
    var s := key + "=" + v;
    IndexFromAt(s, '=', 0, |key|);
    assert s[..|key|] == key && s[|key| + 1..] == v;
  }

  lemma ReadIsSpelled(lower: CaseMap, s: string)
    requires ReadString(lower, s).Some?
    ensures var p := ReadString(lower, s).value; Spells(lower, s, p.key, p.value)
  {
    hide IndexFrom;
    var i := IndexFrom(s, '=', 0);
    if i > 0 { assert '=' !in s[..i] && s == s[..i] + "=" + s[i + 1..]; }
  }

  lemma ReadStringMeans(lower: CaseMap, s: string, k: string, v: Option<string>)
    ensures ReadString(lower, s) == Some(Property(k, v)) <==> Spells(lower, s, k, v)
  {
    hide ReadString;
    if ReadString(lower, s) == Some(Property(k, v)) { ReadIsSpelled(lower, s); }
    if Spells(lower, s, k, v) {
      if v.Some? {
        var key :| key != "" && '=' !in key && lower(key) == k && s == key + "=" + v.value;
        ReadKeyAndValue(lower, key, v.value);
      } else {
        ReadKeyAlone(lower, k);
      }
    }
  }

  lemma ReadKeyAlone(lower: CaseMap, k: string)
    requires k != "" && '=' !in k
    ensures ReadString(lower, k) == Some(Property(k, None))
  {
  }

  lemma MentionsMeans(lower: CaseMap, s: string, k: string)
    ensures Mentions(lower, s, k) <==> ReadString(lower, s).Some? && ReadString(lower, s).value.key == k
  {
    hide ReadString, Spells;
    var p := ReadString(lower, s);
    if p.Some? { ReadStringMeans(lower, s, p.value.key, p.value.value); }
    if Mentions(lower, s, k) {
      var v :| Spells(lower, s, k, v);
      ReadStringMeans(lower, s, k, v);
    }
  }

  /** A key is read exactly if a string mentions it. */
  lemma {:induction false} ReadIfMentioned(lower: CaseMap, strings: seq<string>, k: string)
    ensures k in ReadStrings(lower, strings) <==> exists i :: 0 <= i < |strings| && Mentions(lower, strings[i], k)
  {
    hide ReadString, Mentions;
    if strings != [] {
      var n := |strings| - 1;
      ReadIfMentioned(lower, strings[..n], k);
      MentionsMeans(lower, strings[n], k);
      assert forall i :: 0 <= i < n ==> strings[..n][i] == strings[i];
    }
  }

  /** Its value is what the first such string spells. */
  lemma {:induction false} ReadFromFirst(lower: CaseMap, strings: seq<string>, k: string, i: nat)
    requires i < |strings| && IsFirst(lower, strings, k, i)
    ensures k in ReadStrings(lower, strings) && Spells(lower, strings[i], k, ReadStrings(lower, strings)[k])
  {
    hide ReadString, Mentions, Spells;
    var n := |strings| - 1;
    var before := strings[..n];
    assert forall j :: 0 <= j < n ==> before[j] == strings[j];
    if i < n {
      ReadFromFirst(lower, before, k, i);
    } else {
      ReadIfMentioned(lower, before, k);
      MentionsMeans(lower, strings[n], k);
      ReadStringMeans(lower, strings[n], k, ReadString(lower, strings[n]).value.value);
    }
  }

  /** A registered property, capitals or not, is mentioned under the key it is read with, with its own value. */
  lemma EntrySpells(lower: CaseMap, p: Property)
    requires p.key != "" && '=' !in p.key
    ensures Spells(lower, EntryString(p), ReadKey(lower, p), p.value)
    ensures forall v :: Spells(lower, EntryString(p), ReadKey(lower, p), v) ==> v == p.value
  {
    hide ReadString;
    forall v | Spells(lower, EntryString(p), ReadKey(lower, p), v)
      ensures v == p.value
    {
      ReadStringMeans(lower, EntryString(p), ReadKey(lower, p), v);
      ReadStringMeans(lower, EntryString(p), ReadKey(lower, p), p.value);
    }
  }

  lemma SpelledIsMentioned(lower: CaseMap, s: string, k: string, v: Option<string>)
    requires Spells(lower, s, k, v)
    ensures Mentions(lower, s, k)
  {
  }

  lemma EmptyMentionsNothing(lower: CaseMap, k: string)
    ensures !Mentions(lower, "", k)
  {
  }

  /** The key under which a property is read: in lower case if it carries a value. */
  function ReadKey(lower: CaseMap, p: Property): string { if p.value.Some? then lower(p.key) else p.key }

  // ----- the round trip

  /** The map whose iteration order the property list is. */
  function Properties(ps: seq<Property>): map<string, Option<string>> {
    if ps == [] then map[] else Properties(ps[..|ps| - 1])[ps[|ps| - 1].key := ps[|ps| - 1].value]
  }

  predicate DistinctKeys(ps: seq<Property>) {
    forall i, j :: 0 <= i < j < |ps| ==> ps[i].key != ps[j].key
  }

  /** A key that can be told from its value, and that reading does not change. */
  predicate Readable(lower: CaseMap, key: string, value: Option<string>) {
    key != "" && '=' !in key && (value.Some? ==> lower(key) == key)
  }

  lemma ReadEntry(lower: CaseMap, p: Property)
    requires Readable(lower, p.key, p.value)
    ensures ReadString(lower, EntryString(p)) == Some(p)
  {
    hide ReadString;
    if p.value.Some? { ReadKeyAndValue(lower, p.key, p.value.value); } else { ReadKeyAlone(lower, p.key); }
  }

  /** Whatever is read back is readable. */
  lemma ReadIsReadable(lower: CaseMap, s: string)
    requires Lawful(lower)
    ensures var p := ReadString(lower, s); p.Some? ==> Readable(lower, p.value.key, p.value.value)
  {
    hide IndexFrom;
    var i := IndexFrom(s, '=', 0);
    if i > 0 {
      assert '=' !in s[..i] && s[..i] != "";
      assert LawfulFor(lower, s[..i]);
    }
  }

  lemma {:induction false} AllReadIsReadable(lower: CaseMap, strings: seq<string>, key: string)
    requires Lawful(lower) && key in ReadStrings(lower, strings)
    ensures Readable(lower, key, ReadStrings(lower, strings)[key])
  {
    hide Lawful;
    var n := |strings| - 1;
    ReadIsReadable(lower, strings[n]);
    if key in ReadStrings(lower, strings[..n]) { AllReadIsReadable(lower, strings[..n], key); }
  }

  lemma {:induction false} PropertyAt(ps: seq<Property>, i: nat)
    requires DistinctKeys(ps) && i < |ps|
    ensures ps[i].key in Properties(ps) && Properties(ps)[ps[i].key] == ps[i].value
  {
    var n := |ps| - 1;
    if i < n {
      assert ps[..n][i] == ps[i];
      PropertyAt(ps[..n], i);
    }
  }

  lemma {:induction false} PropertyKeys(ps: seq<Property>, k: string)
    requires k in Properties(ps)
    ensures exists i :: 0 <= i < |ps| && ps[i].key == k
  {
    var n := |ps| - 1;
    if k != ps[n].key {
      PropertyKeys(ps[..n], k);
      var i :| 0 <= i < n && ps[..n][i].key == k;
      assert ps[i].key == k;
    }
  }

  lemma {:induction false} ReadableEntries(lower: CaseMap, ps: seq<Property>)
    requires DistinctKeys(ps) && forall i :: 0 <= i < |ps| ==> Readable(lower, ps[i].key, ps[i].value)
    ensures ReadStrings(lower, EntryStrings(ps)) == Properties(ps)
  {
    hide ReadString, EntryString, Readable;
    if ps != [] {
      var n := |ps| - 1;
      ReadableEntries(lower, ps[..n]);
      assert EntryStrings(ps)[..n] == EntryStrings(ps[..n]);
      ReadEntry(lower, ps[n]);
      if ps[n].key in Properties(ps[..n]) { PropertyKeys(ps[..n], ps[n].key); }
    }
  }

  /** Properties survive being written and read, in whatever order they are written, exactly when every key is
      non-empty, has no '=', and has no capitals if it carries a value. */
  lemma TxtRoundTrip(lower: CaseMap, ps: seq<Property>)
    requires Lawful(lower) && DistinctKeys(ps)
    ensures ReadStrings(lower, TxtStrings(ps)) == Properties(ps) <==>
            forall i :: 0 <= i < |ps| ==> Readable(lower, ps[i].key, ps[i].value)
  {
    hide Lawful;
    if ps == [] {
      assert ReadStrings(lower, [""]) == map[] by { assert [""][..0] == []; }
    } else if forall i :: 0 <= i < |ps| ==> Readable(lower, ps[i].key, ps[i].value) {
      ReadableEntries(lower, ps);
    } else {
      if ReadStrings(lower, TxtStrings(ps)) == Properties(ps) {
        forall i | 0 <= i < |ps|
          ensures Readable(lower, ps[i].key, ps[i].value)
        {
          PropertyAt(ps, i);
          AllReadIsReadable(lower, TxtStrings(ps), ps[i].key);
        }
      }
    }
  }
}
