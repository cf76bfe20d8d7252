/** Service names: printing with escapes, and parsing back (section 4.3 of RFC 6763). */
module ServiceNames {
  import opened Options
  import opened Strings
  import opened ServiceTypes

  datatype ServiceName = ServiceName(name: string, kind: ServiceType, domain: string)

  // ----- escaping

  /** A backslash before every backslash and dot. */
  function Escape(s: string): string {
    if s == "" then ""
    else (if s[0] == '\\' || s[0] == '.' then ['\\', s[0]] else [s[0]]) + Escape(s[1..])
  }

  /** Escaping adds one backslash for each dot and backslash, and changes nothing else. */
  lemma {:induction false} EscapeMeans(s: string)
    ensures |Escape(s)| == |s| + multiset(s)['.'] + multiset(s)['\\']
    ensures '.' !in s && '\\' !in s ==> Escape(s) == s
  {
    if s != "" {
      EscapeMeans(s[1..]);
      assert s == [s[0]] + s[1..];
    }
  }

  /** The characters that `.` does not match in a Java regular expression. */
  predicate IsLineEnd(c: char) {
    c == '\n' || c == '\r' || c == '\U{0085}' || c == '\U{2028}' || c == '\U{2029}'
  }

  /** Drops the backslash of every escape; one before a line end or at the end of the string stays. */
  function Unescape(s: string): string {
    if s == "" then ""
    else if s[0] == '\\' && |s| > 1 && !IsLineEnd(s[1]) then [s[1]] + Unescape(s[2..])
    else [s[0]] + Unescape(s[1..])
  }

  /** Without a backslash nothing changes, nor for one at the end. */
  lemma {:induction false} UnescapePlain(s: string)
    requires '\\' !in s
    ensures Unescape(s) == s && Unescape(s + "\\") == s + "\\"
  {
    if s != "" {
      UnescapePlain(s[1..]);
      assert (s + "\\")[1..] == s[1..] + "\\" && s == [s[0]] + s[1..];
    }
  }

  /** The first backslash goes and the character after it stays, unless a line ends there; then the rest is read. */
  lemma {:induction false} UnescapeFirst(a: string, c: char, b: string)
    requires '\\' !in a
    ensures Unescape(a + ['\\', c] + b) ==
            a + if c in ['\n', '\r', '\U{0085}', '\U{2028}', '\U{2029}'] then ['\\'] + Unescape([c] + b) else [c] + Unescape(b)
  {
    var s := a + ['\\', c] + b;
    if a == "" {
      assert s[1..] == [c] + b && s[2..] == b;
    } else {
      UnescapeFirst(a[1..], c, b);
      assert s[1..] == a[1..] + ['\\', c] + b && a == [a[0]] + a[1..];
    }
  }

  /** The first position from `from` on that holds `c` and is not escaped, or -1. */
  function NonEscaped(s: string, c: char, from: nat): (i: int)
    ensures i == -1 || from <= i < |s|
    decreases |s| - from
  {
    if from >= |s| then -1
    else if s[from] == '\\' then NonEscaped(s, c, from + 2)
    else if s[from] == c then from
    else NonEscaped(s, c, from + 1)
  }

  /** How many backslashes the string ends in. */
  function Backslashes(s: string): nat {
    if s != "" && s[|s| - 1] == '\\' then 1 + Backslashes(s[..|s| - 1]) else 0
  }

  /** A character is free if an even number of backslashes comes right before it. */
  predicate FreeAt(s: string, c: char, i: nat)
    requires i < |s|
  {
    s[i] == c && Backslashes(s[..i]) % 2 == 0
  }

  predicate FirstFree(s: string, c: char, from: nat, r: int) {
    if r == -1 then forall i :: from <= i < |s| ==> !FreeAt(s, c, i)
    else from <= r < |s| && FreeAt(s, c, r) && forall i :: from <= i < r ==> !FreeAt(s, c, i)
  }

  lemma OneMore(s: string, i: nat)
    requires i < |s|
    ensures Backslashes(s[..i + 1]) == if s[i] == '\\' then 1 + Backslashes(s[..i]) else 0
  {
    assert s[..i + 1][..i] == s[..i];
  }

  /** What the search finds is the first free position. */
  lemma {:induction false} NonEscapedMeans(s: string, c: char, from: nat)
    requires c != '\\' && from <= |s| && Backslashes(s[..from]) % 2 == 0
    ensures FirstFree(s, c, from, NonEscaped(s, c, from))
    decreases |s| - from
  {
    hide Backslashes;
    if from < |s| {
      OneMore(s, from);
      if s[from] != '\\' {
        if s[from] != c { NonEscapedMeans(s, c, from + 1); }
      } else if from + 1 < |s| {
        OneMore(s, from + 1);
        NonEscapedMeans(s, c, from + 2);
      }
    }
  }

  method IndexOfNonEscaped(s: string, c: char) returns (r: int)
    ensures r == NonEscaped(s, c, 0)
    ensures c != '\\' ==> FirstFree(s, c, 0, r)
  {
    hide FirstFree;
    if c != '\\' { NonEscapedMeans(s, c, 0); }
    var i := 0;
    while i < |s|
      invariant NonEscaped(s, c, i) == NonEscaped(s, c, 0)
    {
      if s[i] == '\\' {
        i := i + 1;
      } else if s[i] == c {
        return i;
      }
      i := i + 1;
    }
    r := -1;
  }

  // ----- printing and parsing

  function Print(n: ServiceName): string {
    Escape(n.name) + "." + ToDnsString(n.kind) + "." + n.domain + SubtypeSuffix(n.kind.subtypes)
  }

  /** A name without dots and backslashes is printed as it stands. */
  lemma PlainPrinted(n: ServiceName)
    requires '.' !in n.name && '\\' !in n.name
    ensures Print(n) == n.name + "." + n.kind.kind + "." + (if n.kind.transport.TCP? then "_tcp" else "_udp") + "."
                        + n.domain + SubtypeSuffix(n.kind.subtypes)
  {
    hide Escape, SubtypeSuffix;
    EscapeMeans(n.name);
    var l := Label(n.kind.transport);
    assert n.name + "." + (n.kind.kind + "." + l) == n.name + "." + n.kind.kind + "." + l;
  }

  method PrintLoop(n: ServiceName) returns (sb: string)
    ensures sb == Print(n)
    ensures '.' !in n.name && '\\' !in n.name ==>
              sb == n.name + "." + n.kind.kind + "." + (if n.kind.transport.TCP? then "_tcp" else "_udp") + "."
                    + n.domain + SubtypeSuffix(n.kind.subtypes)
  {
    hide Escape, ToDnsString, SubtypeSuffix;
    NoSuffix();
    if '.' !in n.name && '\\' !in n.name { PlainPrinted(n); }
    sb := Escape(n.name) + "." + ToDnsString(n.kind) + "." + n.domain;
    var subs := n.kind.subtypes;
    ghost var head := sb;
    for i := 0 to |subs|
      invariant sb == head + SubtypeSuffix(subs[..i])
    {
      assert head + (SubtypeSuffix(subs[..i]) + "," + subs[i]) == sb + "," + subs[i];
      sb := sb + "," + subs[i];
      SuffixGrows(subs[..i], subs[i]);
      assert subs[..i + 1] == subs[..i] + [subs[i]];
    }
    assert subs[..|subs|] == subs;
  }

  lemma NoSuffix()
    ensures SubtypeSuffix([]) == ""
  {
  }

  lemma {:induction false} SuffixGrows(subs: seq<string>, sub: string)
    ensures SubtypeSuffix(subs + [sub]) == SubtypeSuffix(subs) + "," + sub
  {
    if subs != [] { JoinGrows(subs, sub); }
  }

  lemma {:induction false} JoinGrows(subs: seq<string>, sub: string)
    requires subs != []
    ensures Join(subs + [sub], ',') == Join(subs, ',') + "," + sub
  {
    assert (subs + [sub])[1..] == subs[1..] + [sub];
    if |subs| > 1 { JoinGrows(subs[1..], sub); }
  }

  function Parse(s: string): Result<ServiceName, ParseError> {
    var i := NonEscaped(s, '.', 0);
    if i < 0 then Failure(NoDotInName)
    else
      var j := IndexFrom(s, '.', i + 1);
      if j < 0 then Failure(NoDotInType)
      else
        var k := IndexFrom(s, '.', j + 1);
        if k < 0 then Failure(NoDotAfterType)
        else
          var kind := ValueOf(s[i + 1..k]);
          if kind.Failure? then Failure(kind.error) else ParseDomain(s, k + 1, Unescape(s[..i]), kind.value)
  }

  /** The domain starts at `from`; subtypes after it replace those the type already has. */
  function ParseDomain(s: string, from: nat, name: string, kind: ServiceType): Result<ServiceName, ParseError>
    requires from <= |s|
  {
    var c := IndexFrom(s, ',', from);
    if c < 0 then Success(ServiceName(name, kind, s[from..]))
    else
      var subs := ParseSubtypes(s[c + 1..]);
      if subs.Failure? then Failure(subs.error)
      else Success(ServiceName(name, kind.(subtypes := subs.value), s[from..c]))
  }

  // ----- the round trip

  lemma {:induction false} UnescapeEscape(s: string)
    ensures Unescape(Escape(s)) == s
  {
    if s != "" {
      UnescapeEscape(s[1..]);
      var e := Escape(s);
      if s[0] == '\\' || s[0] == '.' {
        assert e[2..] == Escape(s[1..]);
      } else {
        assert e[1..] == Escape(s[1..]);
      }
    }
  }

  /** The first dot that is not escaped follows the escaped name. */
  lemma {:induction false} DotAfterEscape(before: string, s: string, rest: string)
    requires rest != "" && rest[0] == '.'
    ensures NonEscaped(before + Escape(s) + rest, '.', |before|) == |before| + |Escape(s)|
    decreases |s|
  {
    var t := before + Escape(s) + rest;
    if s != "" {
      var e := if s[0] == '\\' || s[0] == '.' then ['\\', s[0]] else [s[0]];
      DotAfterEscape(before + e, s[1..], rest);
      assert (before + e) + Escape(s[1..]) + rest == t;
      assert t[|before|] == e[0];
    } else {
      assert t[|before|] == '.';
    }
  }

  predicate PrintableName(n: ServiceName) {
    Printable(n.kind) && ',' !in n.domain
  }

  /** No dot in `e` is free, and `e` does not end in a backslash that would take a dot after it. */
  predicate EndsAtDot(e: string) { NonEscaped(e + ".", '.', 0) == |e| }

  lemma EscapeEndsAtDot(s: string)
    ensures EndsAtDot(Escape(s))
  {
    hide Escape, NonEscaped;
    DotAfterEscape("", s, ".");
    assert "" + Escape(s) + "." == Escape(s) + ".";
  }

  /** The name ends at the first free dot, whatever follows. */
  lemma NameOfWritten(s: string, e: string, tail: string)
    requires s == e + "." + tail && EndsAtDot(e)
    ensures NonEscaped(s, '.', 0) == |e| && s[..|e|] == e
  {
    hide NonEscaped;
    NonEscapedMeans(s, '.', 0);
    NonEscapedMeans(e + ".", '.', 0);
    forall i | 0 <= i <= |e|
      ensures FreeAt(s, '.', i) <==> FreeAt(e + ".", '.', i)
    {
      assert s[..i] == (e + ".")[..i] && s[i] == (e + ".")[i];
    }
    var r := NonEscaped(s, '.', 0);
    assert !(r == -1) && !(r < |e|) && !(r > |e|);
  }

  /** Where the parts of a dotted string lie. */
  lemma PartsOf(s: string, e: string, d: string, rest: string)
    requires s == e + "." + d + "." + rest
    ensures |s| == |e| + |d| + |rest| + 2
    ensures s[|e| + 1..|e| + 1 + |d|] == d && s[|e| + 1 + |d|] == '.'
    ensures s[|e| + 2 + |d|..] == rest
    ensures s == e + "." + (d + "." + rest)
  {
  }

  /** A name as it may be written by hand: any escapes, any letter case in the transport, and subtypes before the
      domain, after it, or both. */
  function Written(e: string, kind: string, written: string, early: seq<string>, domain: string, late: seq<string>): string {
    e + "." + (kind + "." + written + SubtypeSuffix(early)) + "." + (domain + SubtypeSuffix(late))
  }

  lemma PrintIsWritten(n: ServiceName)
    ensures Print(n) == Written(Escape(n.name), n.kind.kind, Label(n.kind.transport), [], n.domain, n.kind.subtypes)
  {
    hide Escape, SubtypeSuffix, Label;
    NoSuffix();
    var d := n.kind.kind + "." + Label(n.kind.transport);
    assert d + "" == d;
  }

  /** Parsing, once the three dots are found. */
  lemma ParseAt(s: string, i: nat, j: nat, k: nat, name: string, kind: ServiceType)
    requires NonEscaped(s, '.', 0) == i && IndexFrom(s, '.', i + 1) == j && IndexFrom(s, '.', j + 1) == k
    requires Unescape(s[..i]) == name && ValueOf(s[i + 1..k]) == Success(kind)
    ensures Parse(s) == ParseDomain(s, k + 1, name, kind)
  {
    hide NonEscaped, IndexFrom, Unescape, ValueOf, ParseDomain;
  }

  predicate NoDots(subs: seq<string>) { forall i :: 0 <= i < |subs| ==> '.' !in subs[i] }

  /** What is written by hand is accepted: the name without its escapes, the transport in any letter case, and the
      subtypes after the domain, or those before it if there are none after it. */
  lemma ParseWritten(e: string, t: ServiceType, written: string, domain: string, late: seq<string>)
    requires EndsAtDot(e) && Printable(t) && NoDots(t.subtypes) && Names(written, t.transport)
    requires ',' !in domain && PrintableSubtypes(late)
    ensures Parse(Written(e, t.kind, written, t.subtypes, domain, late))
         == Success(ServiceName(Unescape(e), t.(subtypes := if late == [] then t.subtypes else late), domain))
  {
    hide NonEscaped, IndexFrom, EndsAtDot, Unescape, ValueOf, SubtypeSuffix, ParseDomain, Printable, Names, Parse, NoDots;
    var s := Written(e, t.kind, written, t.subtypes, domain, late);
    var d, rest := t.kind + "." + written + SubtypeSuffix(t.subtypes), domain + SubtypeSuffix(late);
    PartsOf(s, e, d, rest);
    NameOfWritten(s, e, d + "." + rest);
    DotsOfType(s, |e|, t, written);
    ValueOfPrinted(t, written);
    ParseAt(s, |e|, |e| + 1 + |t.kind|, |e| + 1 + |d|, Unescape(e), t);
    ParseDomainOf(s, |e| + 2 + |d|, Unescape(e), t, domain, late);
  }

  lemma ParseDomainOf(s: string, from: nat, name: string, t: ServiceType, domain: string, late: seq<string>)
    requires ',' !in domain && PrintableSubtypes(late) && from <= |s| && s[from..] == domain + SubtypeSuffix(late)
    ensures ParseDomain(s, from, name, t)
         == Success(ServiceName(name, t.(subtypes := if late == [] then t.subtypes else late), domain))
  {
    hide IndexFrom, SubtypeSuffix, Join, ParseSubtypes;
    ParseTail(s, from, domain, late);
  }

  lemma TailParts(s: string, from: nat, domain: string, more: string)
    requires from <= |s| && s[from..] == domain + more
    ensures |s| == from + |domain| + |more|
    ensures forall m :: from <= m < from + |domain| ==> s[m] == domain[m - from]
    ensures s[from..from + |domain|] == domain && s[from + |domain|..] == more
  {
    assert forall m :: from <= m < |s| ==> s[m] == s[from..][m - from];
  }

  /** The domain ends at the first comma, and the subtypes follow it. */
  lemma ParseTail(s: string, from: nat, domain: string, subs: seq<string>)
    requires from <= |s| && s[from..] == domain + SubtypeSuffix(subs) && ',' !in domain && PrintableSubtypes(subs)
    ensures var c := IndexFrom(s, ',', from);
            if subs == [] then c == -1 && s[from..] == domain
            else c >= 0 && s[from..c] == domain && ParseSubtypes(s[c + 1..]) == Success(subs)
  {
    hide ParseSubtypes, IndexFrom, Join;
    TailParts(s, from, domain, SubtypeSuffix(subs));
    IndexFromAt(s, ',', from, from + |domain|);
    if subs != [] {
      TailParts(s, from + |domain|, ",", Join(subs, ','));
      ParseSubtypesOfJoin(subs);
    } else {
      assert domain + "" == domain;
    }
  }

  lemma {:induction false} JoinHasNoDot(subs: seq<string>)
    requires NoDots(subs)
    ensures '.' !in Join(subs, ',')
  {
    if |subs| > 1 { JoinHasNoDot(subs[1..]); }
  }

  /** Where the dots of a type stand that is written from position `i + 1` on. */
  lemma DotsOfType(s: string, i: nat, t: ServiceType, written: string)
    requires Printable(t) && NoDots(t.subtypes) && Names(written, t.transport)
    requires var d := t.kind + "." + written + SubtypeSuffix(t.subtypes);
             i + 1 + |d| < |s| && s[i + 1..i + 1 + |d|] == d && s[i + 1 + |d|] == '.'
    ensures IndexFrom(s, '.', i + 1) == i + 1 + |t.kind|
    ensures IndexFrom(s, '.', i + 2 + |t.kind|) == i + 2 + |t.kind| + |written| + |SubtypeSuffix(t.subtypes)|
  {
    hide Names, IndexFrom, SubtypeSuffix, NoDots;
    FromLabelOf(written, t.transport);
    SuffixHasNoDot(t.subtypes);
    var x := written + SubtypeSuffix(t.subtypes);
    assert t.kind + "." + written + SubtypeSuffix(t.subtypes) == t.kind + "." + x;
    DotsWithin(s, i, t.kind, x);
  }

  lemma SuffixHasNoDot(subs: seq<string>)
    requires NoDots(subs)
    ensures '.' !in SubtypeSuffix(subs)
  {
    hide Join, NoDots;
    JoinHasNoDot(subs);
  }

  lemma DotsWithin(s: string, i: nat, a: string, b: string)
    requires '.' !in a && '.' !in b
    requires var d := a + "." + b; i + 1 + |d| < |s| && s[i + 1..i + 1 + |d|] == d && s[i + 1 + |d|] == '.'
    ensures IndexFrom(s, '.', i + 1) == i + 1 + |a|
    ensures IndexFrom(s, '.', i + 2 + |a|) == i + 2 + |a| + |b|
  {
    hide IndexFrom;
    var d := a + "." + b;
    assert forall m :: 0 <= m < |d| ==> s[i + 1 + m] == d[m];
    assert forall m :: i + 1 <= m < i + 1 + |d| ==> s[m] == d[m - i - 1];
    IndexFromAt(s, '.', i + 1, i + 1 + |a|);
    IndexFromAt(s, '.', i + 2 + |a|, i + 1 + |d|);
  }

  // ----- exactly what is accepted

  predicate OneDot(d: string) { exists m :: 0 <= m < |d| && d[m] == '.' && '.' !in d[..m] && '.' !in d[m + 1..] }

  /** The domain, and perhaps subtypes after it, which then replace those of the type. */
  predicate DomainFollows(rest: string, t: ServiceType, n: ServiceName) {
    && n.kind.kind == t.kind && n.kind.transport == t.transport && ',' !in n.domain
    && n.domain <= rest && SubtypesFollow(rest[|n.domain|..], t.subtypes, n.kind.subtypes)
  }

  /** An escaped name, a type with one dot, and a domain, with dots between them. */
  ghost predicate SpellsName(s: string, n: ServiceName) {
    exists e, d, rest, t ::
      && s == e + "." + d + "." + rest && EndsAtDot(e) && OneDot(d)
      && n.name == Unescape(e) && SpellsType(d, t) && DomainFollows(rest, t, n)
  }

  /** What comes before the first comma, if there is one. */
  predicate IsDomain(rest: string, b: string) { b <= rest && ',' !in b && (b == rest || rest[|b|] == ',') }

  lemma OneDomain(rest: string, a: string, b: string)
    requires IsDomain(rest, a) && IsDomain(rest, b)
    ensures a == b
  {
    assert a == rest[..|a|] && b == rest[..|b|];
    assert |a| == |b|;
  }

  lemma FollowsDomain(rest: string, t: ServiceType, n: ServiceName)
    requires DomainFollows(rest, t, n)
    ensures IsDomain(rest, n.domain)
  {
    hide ParseSubtypes;
    var after := rest[|n.domain|..];
    if after != "" { assert after[0] == rest[|n.domain|]; } else { assert n.domain == rest; }
  }

  lemma DomainBefore(s: string, from: nat)
    requires from <= |s|
    ensures var c := IndexFrom(s, ',', from); IsDomain(s[from..], if c < 0 then s[from..] else s[from..c])
  {
    hide IndexFrom;
    var c := IndexFrom(s, ',', from);
    if c >= 0 { assert s[from..c] <= s[from..] && s[from..][c - from] == ','; }
  }

  lemma ParseDomainMeans(s: string, from: nat, name: string, t: ServiceType, n: ServiceName)
    requires from <= |s|
    ensures ParseDomain(s, from, name, t) == Success(n) <==> n.name == name && DomainFollows(s[from..], t, n)
  {
    hide IndexFrom, ParseSubtypes, IsDomain;
    var rest, c := s[from..], IndexFrom(s, ',', from);
    var b := if c < 0 then rest else s[from..c];
    DomainBefore(s, from);
    assert IsDomain(rest, b);
    DomainFits(rest, b);
    if DomainFollows(rest, t, n) {
      FollowsDomain(rest, t, n);
      OneDomain(rest, n.domain, b);
    }
    if c < 0 { assert rest[|b|..] == ""; } else { assert rest[|b|..] == [','] + s[c + 1..]; }
  }

  lemma DomainFits(rest: string, b: string)
    requires IsDomain(rest, b)
    ensures ',' !in b && b <= rest
  {
  }

  lemma CutEndsAtDot(s: string, i: nat)
    requires i < |s| && NonEscaped(s, '.', 0) == i
    ensures EndsAtDot(s[..i])
  {
    hide NonEscaped;
    var e := s[..i];
    NonEscapedMeans(s, '.', 0);
    NonEscapedMeans(e + ".", '.', 0);
    forall m | 0 <= m <= i
      ensures FreeAt(s, '.', m) <==> FreeAt(e + ".", '.', m)
    {
      assert s[..m] == (e + ".")[..m] && s[m] == (e + ".")[m];
    }
    var r := NonEscaped(e + ".", '.', 0);
    assert !(r == -1) && !(r < i) && !(r > i);
  }

  lemma CutParts(s: string, i: nat, j: nat, k: nat)
    requires i < j < k < |s| && s[i] == '.' && s[j] == '.' && s[k] == '.'
    requires (forall m :: i < m < j ==> s[m] != '.') && forall m :: j < m < k ==> s[m] != '.'
    ensures s == s[..i] + "." + s[i + 1..k] + "." + s[k + 1..]
    ensures OneDot(s[i + 1..k])
  {
    var d, m := s[i + 1..k], j - i - 1;
    assert d[m] == '.' && d[..m] == s[i + 1..j] && d[m + 1..] == s[j + 1..k];
  }

  lemma ParsedIsSpelled(s: string)
    requires Parse(s).Success?
    ensures SpellsName(s, Parse(s).value)
  {
    hide NonEscaped, IndexFrom, EndsAtDot, Unescape, ValueOf, ParseDomain, DomainFollows, SpellsType, OneDot, SpellsName;
    var i := NonEscaped(s, '.', 0);
    var j := IndexFrom(s, '.', i + 1);
    var k := IndexFrom(s, '.', j + 1);
    FreeIsDot(s);
    CutEndsAtDot(s, i);
    CutParts(s, i, j, k);
    ValueOfMeans(s[i + 1..k], ValueOf(s[i + 1..k]).value);
    ParseDomainMeans(s, k + 1, Unescape(s[..i]), ValueOf(s[i + 1..k]).value, Parse(s).value);
    SpelledBy(s, s[..i], s[i + 1..k], s[k + 1..], ValueOf(s[i + 1..k]).value, Parse(s).value);
  }

  lemma SpelledBy(s: string, e: string, d: string, rest: string, t: ServiceType, n: ServiceName)
    requires s == e + "." + d + "." + rest && EndsAtDot(e) && OneDot(d)
    requires n.name == Unescape(e) && SpellsType(d, t) && DomainFollows(rest, t, n)
    ensures SpellsName(s, n)
  {
    hide EndsAtDot, OneDot, Unescape, SpellsType, DomainFollows;
  }

  lemma FreeIsDot(s: string)
    ensures NonEscaped(s, '.', 0) >= 0 ==> s[NonEscaped(s, '.', 0)] == '.'
  {
    hide NonEscaped;
    NonEscapedMeans(s, '.', 0);
  }

  lemma OneDotWithin(s: string, i: nat, d: string) returns (m: nat)
    requires OneDot(d) && i + 1 + |d| < |s| && s[i + 1..i + 1 + |d|] == d && s[i + 1 + |d|] == '.'
    ensures IndexFrom(s, '.', i + 1) == i + 1 + m && IndexFrom(s, '.', i + 2 + m) == i + 1 + |d|
  {
    hide IndexFrom;
    m :| m < |d| && d[m] == '.' && '.' !in d[..m] && '.' !in d[m + 1..];
    assert d == d[..m] + "." + d[m + 1..];
    DotsWithin(s, i, d[..m], d[m + 1..]);
  }

  lemma SpelledIsParsed(e: string, d: string, rest: string, t: ServiceType, n: ServiceName)
    requires EndsAtDot(e) && OneDot(d) && n.name == Unescape(e) && SpellsType(d, t) && DomainFollows(rest, t, n)
    ensures Parse(e + "." + d + "." + rest) == Success(n)
  {
    hide NonEscaped, IndexFrom, EndsAtDot, Unescape, ValueOf, ParseDomain, DomainFollows, SpellsType, Parse, OneDot;
    var s := e + "." + d + "." + rest;
    PartsOf(s, e, d, rest);
    NameOfWritten(s, e, d + "." + rest);
    ValueOfMeans(d, t);
    var m := OneDotWithin(s, |e|, d);
    ParseAt(s, |e|, |e| + 1 + m, |e| + 1 + |d|, n.name, t);
    ParseDomainMeans(s, |e| + 2 + |d|, n.name, t, n);
  }

  /** A string is accepted, and denotes a name, exactly if it spells the name. */
  lemma ParseMeans(s: string, n: ServiceName)
    ensures Parse(s) == Success(n) <==> SpellsName(s, n)
  {
    hide Parse, EndsAtDot, OneDot, Unescape, SpellsType, DomainFollows;
    if Parse(s) == Success(n) { ParsedIsSpelled(s); }
    if SpellsName(s, n) {
      var e, d, rest, t :|
        && s == e + "." + d + "." + rest && EndsAtDot(e) && OneDot(d)
        && n.name == Unescape(e) && SpellsType(d, t) && DomainFollows(rest, t, n);
      SpelledIsParsed(e, d, rest, t, n);
    }
  }

  /** Every accepted string denotes a name that can be printed. */
  lemma ParsedNamePrintable(s: string)
    ensures Parse(s).Success? ==> PrintableName(Parse(s).value)
  {
    hide NonEscaped, IndexFrom, Unescape, ValueOf, ParseSubtypes;
    if Parse(s).Success? {
      var i := NonEscaped(s, '.', 0);
      var k := IndexFrom(s, '.', IndexFrom(s, '.', i + 1) + 1);
      ParsedPrintable(s[i + 1..k]);
      var c := IndexFrom(s, ',', k + 1);
      if c >= 0 { ParsedSubtypesPrintable(s[c + 1..]); }
    }
  }

  /** Parsing undoes printing, for every instance name, exactly when the type has no dot or comma, the domain no
      comma, and no subtype is empty or holds a comma. */
  lemma NameRoundTrip(n: ServiceName)
    ensures Parse(Print(n)) == Success(n) <==> PrintableName(n)
  {
    ParsedNamePrintable(Print(n));
    if PrintableName(n) {
      LabelNames(n.kind.transport);
      PrintIsWritten(n);
      EscapeEndsAtDot(n.name);
      UnescapeEscape(n.name);
      ParseWritten(Escape(n.name), n.kind.(subtypes := []), Label(n.kind.transport), n.domain, n.kind.subtypes);
    }
  }

  /** Printing what was parsed, whatever its escapes, letter case, early subtypes or trailing commas, and parsing
      again gives the same value. */
  lemma ParseIsIdempotent(s: string)
    requires Parse(s).Success?
    ensures Parse(Print(Parse(s).value)) == Parse(s)
  {
    ParsedNamePrintable(s);
    NameRoundTrip(Parse(s).value);
  }
}
