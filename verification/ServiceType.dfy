/** Service types: a protocol name, a transport and an ordered list of subtypes. */
module ServiceTypes {
  import opened Options
  import opened Strings

  datatype Transport = TCP | UDP

  function Label(t: Transport): string { if t.TCP? then "_tcp" else "_udp" }

  datatype ServiceType = ServiceType(kind: string, transport: Transport, subtypes: seq<string>)

  datatype ParseError = NoDotInName | NoDotInType | NoDotAfterType | BadTransport | EmptySubtype

  /** Transport labels compare without regard to case. */
  function FromLabel(l: string): Result<Transport, ParseError> {
    if Lower(l) == "_tcp" then Success(TCP)
    else if Lower(l) == "_udp" then Success(UDP)
    else Failure(BadTransport)
  }

  /** `l` names the transport, in any letter case. */
  predicate Names(l: string, t: Transport) { Lower(l) == Label(t) }

  lemma FromLabelOf(l: string, t: Transport)
    ensures FromLabel(l) == Success(t) <==> Names(l, t)
    ensures Names(l, t) ==> '.' !in l && ',' !in l
  {
    if Names(l, t) {
      assert forall i :: 0 <= i < |l| ==> LowerChar(l[i]) == Label(t)[i];
    }
  }

  lemma LabelNames(t: Transport)
    ensures Names(Label(t), t)
  {
  }

  function ToDnsString(t: ServiceType): string { t.kind + "." + Label(t.transport) }

  /** `,a,b,...` */
  function SubtypeSuffix(subs: seq<string>): string {
    if subs == [] then "" else "," + Join(subs, ',')
  }

  function ToString(t: ServiceType): string { ToDnsString(t) + SubtypeSuffix(t.subtypes) }

  predicate HasEmpty(subs: seq<string>) { exists i :: 0 <= i < |subs| && subs[i] == "" }

  function ParseSubtypes(sublist: string): Result<seq<string>, ParseError> {
    var subs := Split(sublist, ',');
    if HasEmpty(subs) then Failure(EmptySubtype) else Success(subs)
  }

  /** The protocol and transport of a type, before any subtypes. */
  function BaseOf(domain: string): Result<ServiceType, ParseError> {
    var dot := IndexFrom(domain, '.', 0);
    if dot < 0 then Failure(NoDotInType)
    else
      var transport := FromLabel(domain[dot + 1..]);
      if transport.Failure? then Failure(transport.error)
      else Success(ServiceType(domain[..dot], transport.value, []))
  }

  function ValueOf(s: string): Result<ServiceType, ParseError> {
    var i := IndexFrom(s, ',', 0);
    if i < 0 then BaseOf(s)
    else
      var base := BaseOf(s[..i]);
      if base.Failure? then base
      else
        var subs := ParseSubtypes(s[i + 1..]);
        if subs.Failure? then Failure(subs.error) else Success(base.value.(subtypes := subs.value))
  }

  // ----- what can be printed and parsed back

  predicate PrintableSubtypes(subs: seq<string>) {
    forall i :: 0 <= i < |subs| ==> subs[i] != "" && ',' !in subs[i]
  }

  predicate Printable(t: ServiceType) {
    '.' !in t.kind && ',' !in t.kind && PrintableSubtypes(t.subtypes)
  }

  lemma ParseSubtypesOfJoin(subs: seq<string>)
    requires subs != [] && PrintableSubtypes(subs)
    ensures ParseSubtypes(Join(subs, ',')) == Success(subs)
  {
    SplitOfJoin(subs, ',');
  }

  /** What subtypes a list of pieces gives: none of them may be empty but those at the end, which are left out. */
  lemma ParseSubtypesMeans(ps: seq<string>, subs: seq<string>)
    requires ps != [] && forall i :: 0 <= i < |ps| ==> ',' !in ps[i]
    ensures ParseSubtypes(Join(ps, ',')) == Success(subs) <==>
              (if |ps| == 1 then subs == ps else Trimmed(subs, ps)) && "" !in subs
  {
    hide Split, Trimmed;
    SplitMeans(ps, ',', subs);
  }

  /** A list of subtypes may follow a text after a comma. */
  predicate SubtypesFollow(rest: string, none: seq<string>, subs: seq<string>) {
    if rest == "" then subs == none else rest[0] == ',' && ParseSubtypes(rest[1..]) == Success(subs)
  }

  /** Exactly what is accepted as a type: a protocol without dot or comma, a dot, a transport in any letter case, and
      perhaps a list of subtypes after a comma. */
  ghost predicate SpellsType(s: string, t: ServiceType) {
    exists l, rest :: s == t.kind + "." + l + rest && '.' !in t.kind && ',' !in t.kind && Names(l, t.transport)
                      && SubtypesFollow(rest, [], t.subtypes)
  }

  lemma BaseOfMeans(domain: string, t: ServiceType)
    ensures BaseOf(domain) == Success(t) <==>
              t.subtypes == [] && '.' !in t.kind && exists l :: domain == t.kind + "." + l && Names(l, t.transport)
  {
    hide FromLabel, IndexFrom, Names;
    var dot := IndexFrom(domain, '.', 0);
    if BaseOf(domain) == Success(t) {
      var l := domain[dot + 1..];
      FromLabelOf(l, t.transport);
      assert domain == t.kind + "." + l;
    }
    if l :| domain == t.kind + "." + l && Names(l, t.transport) && '.' !in t.kind && t.subtypes == [] {
      FromLabelOf(l, t.transport);
      IndexFromAt(domain, '.', 0, |t.kind|);
      assert domain[..|t.kind|] == t.kind && domain[|t.kind| + 1..] == l;
    }
  }

  lemma ValueOfSpelled(t: ServiceType, l: string, rest: string)
    requires '.' !in t.kind && ',' !in t.kind && Names(l, t.transport) && SubtypesFollow(rest, [], t.subtypes)
    ensures ValueOf(t.kind + "." + l + rest) == Success(t)
  {
    hide ParseSubtypes, BaseOf, IndexFrom, Names;
    var d := t.kind + "." + l;
    var s := d + rest;
    FromLabelOf(l, t.transport);
    IndexFromAt(s, ',', 0, |d|);
    BaseOfMeans(d, t.(subtypes := []));
    assert s[..|d|] == d;
    if rest == "" { assert s == d; } else { assert s[|d| + 1..] == rest[1..]; }
  }

  lemma ValueIsSpelled(s: string)
    requires ValueOf(s).Success?
    ensures SpellsType(s, ValueOf(s).value)
  {
    hide ParseSubtypes, BaseOf, IndexFrom, Names, SpellsType;
    var t := ValueOf(s).value;
    var i := IndexFrom(s, ',', 0);
    var domain := if i < 0 then s else s[..i];
    BaseOfMeans(domain, BaseOf(domain).value);
    var l :| domain == t.kind + "." + l && Names(l, t.transport);
    if i < 0 {
      SpelledBy(s, t, l, "");
    } else {
      assert s == domain + ([','] + s[i + 1..]);
      SpelledBy(s, t, l, [','] + s[i + 1..]);
    }
  }

  lemma SpelledBy(s: string, t: ServiceType, l: string, rest: string)
    requires var domain := t.kind + "." + l; s == domain + rest && ',' !in domain
    requires '.' !in t.kind && Names(l, t.transport) && SubtypesFollow(rest, [], t.subtypes)
    ensures SpellsType(s, t)
  {
    hide Names, SubtypesFollow;
    assert forall m :: 0 <= m < |t.kind| ==> t.kind[m] == (t.kind + "." + l)[m];
  }

  lemma ValueOfMeans(s: string, t: ServiceType)
    ensures ValueOf(s) == Success(t) <==> SpellsType(s, t)
  {
    hide ValueOf, SubtypesFollow, Names;
    if ValueOf(s) == Success(t) { ValueIsSpelled(s); }
    if SpellsType(s, t) {
      var l, rest :| s == t.kind + "." + l + rest && '.' !in t.kind && ',' !in t.kind && Names(l, t.transport)
                     && SubtypesFollow(rest, [], t.subtypes);
      ValueOfSpelled(t, l, rest);
    }
  }

  lemma ParsedSubtypesPrintable(sublist: string)
    ensures ParseSubtypes(sublist).Success? ==> PrintableSubtypes(ParseSubtypes(sublist).value)
  {
    SplitLacksSeparator(sublist, ',');
  }

  /** Every parsed type can be printed. */
  lemma ParsedPrintable(s: string)
    ensures ValueOf(s).Success? ==> Printable(ValueOf(s).value)
  {
    hide ParseSubtypes, FromLabel, IndexFrom;
    var i := IndexFrom(s, ',', 0);
    if i >= 0 { ParsedSubtypesPrintable(s[i + 1..]); }
  }

  /** Parsing undoes printing, whatever the letter case of the transport. */
  lemma ValueOfPrinted(t: ServiceType, written: string)
    requires Printable(t) && Names(written, t.transport)
    ensures ValueOf(t.kind + "." + written + SubtypeSuffix(t.subtypes)) == Success(t)
  {
    hide ParseSubtypes, Join, Names, ValueOf;
    var rest := SubtypeSuffix(t.subtypes);
    if t.subtypes != [] {
      ParseSubtypesOfJoin(t.subtypes);
      assert rest[1..] == Join(t.subtypes, ',');
    }
    ValueOfSpelled(t, written, rest);
  }

  /** Parsing undoes printing exactly for the types that have no dot or comma in their name and no empty or
      comma-carrying subtype. */
  lemma TypeRoundTrip(t: ServiceType)
    ensures ValueOf(ToString(t)) == Success(t) <==> Printable(t)
  {
    ParsedPrintable(ToString(t));
    if Printable(t) {
      LabelNames(t.transport);
      ValueOfPrinted(t, Label(t.transport));
    }
  }
}
