/** Browsing finds what was registered, in every run. */
module Discovery {
  import opened Options
  import opened Strings
  import opened ServiceTypes
  import opened TxtRecord
  import opened DnsZone
  import opened Registrators
  import opened Registries
  import opened DnsRuns
  import opened DnsLaws
  import opened Browsers

  lemma DnsNameFound(domain: Name, s: Service)
    ensures FromDnsName(DnsName(domain, s)) == Some(Found(s, domain))
  {
    hide FromLabel;
    LabelNames(s.base.transport);
    FromLabelOf(Label(s.base.transport), s.base.transport);
  }

  lemma TypeNameFound(domain: Name, b: BaseType)
    ensures TypeFromName(TypeName(domain, b)) == Some(b)
  {
    hide FromLabel;
    LabelNames(b.transport);
    FromLabelOf(Label(b.transport), b.transport);
  }

  // ----- the pointers at a name

  lemma PtrsAtType(domain: Name, base: Zone, reg: Registry, b: BaseType)
    requires Foreign(domain, base) && Sound(reg)
    ensures PtrsAt(Encode(domain, base, reg), TypeName(domain, b)) == set s | s in reg.live && s.base == b :: InstancePtr(domain, s)
  {
    hide Below, ServicesName, TypeName, DnsName, TxtStrings, TypePtrs, PointerRecords, SrvRecords, TxtRecords;
    ServiceNamesBelow(domain, Service("", b), []);
    Owners(domain, reg);
    forall r | r in SrvRecords(domain, reg) + TxtRecords(domain, reg)
      ensures r.owner != TypeName(domain, b)
    {
      OwnersOfData(domain, reg, r);
    }
    forall s | s in reg.live
      ensures TypeName(domain, s.base) == TypeName(domain, b) <==> s.base == b
    {
      TypeNameInjective(domain, s.base, b);
    }
  }

  lemma SubtypeNameInjective(domain: Name, sub: Name, b: BaseType, other: Name, c: BaseType)
    ensures SubtypeName(domain, sub, b) == SubtypeName(domain, other, c) ==> sub == other && b == c
  {
    var n, m := SubtypeName(domain, sub, b), SubtypeName(domain, other, c);
    if n == m {
      assert n[..|sub|] == sub && m[..|other|] == other;
      LabelInjective(b.transport, c.transport);
    }
  }

  lemma PtrsAtSubtype(domain: Name, base: Zone, reg: Registry, sub: Name, b: BaseType)
    requires Foreign(domain, base) && Sound(reg) && sub != []
    ensures PtrsAt(Encode(domain, base, reg), SubtypeName(domain, sub, b))
         == set p | p in reg.pointers && p.sub == sub && p.service.base == b :: SubtypePtr(domain, sub, p.service)
  {
    hide Below, ServicesName, SubtypeName, DnsName, TxtStrings, TypePtrs, InstancePtrs, SrvRecords, TxtRecords;
    ServiceNamesBelow(domain, Service("", b), sub);
    Owners(domain, reg);
    forall r | r in SrvRecords(domain, reg) + TxtRecords(domain, reg)
      ensures r.owner != SubtypeName(domain, sub, b)
    {
      OwnersOfData(domain, reg, r);
    }
    forall p | p in reg.pointers
      ensures SubtypeName(domain, p.sub, p.service.base) == SubtypeName(domain, sub, b) <==> p.sub == sub && p.service.base == b
    {
      SubtypeNameInjective(domain, p.sub, p.service.base, sub, b);
    }
  }

  lemma PtrsAtServices(domain: Name, base: Zone, reg: Registry)
    requires Foreign(domain, base) && Sound(reg)
    ensures PtrsAt(Encode(domain, base, reg), ServicesName(domain)) == TypePtrs(domain, reg)
  {
    hide Below, ServicesName, TypeName, DnsName, TxtStrings, InstancePtrs, PointerRecords;
    ServiceNamesBelow(domain, Service("", BaseType("", TCP)), []);
    Owners(domain, reg);
  }

  // ----- what browsing finds

  lemma FoundByType(domain: Name, reg: Registry, b: BaseType)
    ensures FoundIn(set s | s in reg.live && s.base == b :: InstancePtr(domain, s)) == set s | s in reg.live && s.base == b :: Found(s, domain)
  {
    hide FromDnsName, DnsName, TypeName;
    var records := set s | s in reg.live && s.base == b :: InstancePtr(domain, s);
    forall s | s in reg.live && s.base == b
      ensures Found(s, domain) in FoundIn(records)
    {
      DnsNameFound(domain, s);
      assert InstancePtr(domain, s) in records;
    }
    forall f | f in FoundIn(records)
      ensures f.service in reg.live && f.service.base == b && f.domain == domain
    {
      var r :| r in records && r.Ptr? && FromDnsName(r.target) == Some(f);
      var s :| s in reg.live && s.base == b && r == InstancePtr(domain, s);
      DnsNameFound(domain, s);
    }
  }

  /** In every interleaving, browsing for a type finds exactly its registered services. */
  lemma TypeFindsInstances(domain: Name, base: Zone, run: seq<Event>, b: BaseType)
    requires Foreign(domain, base) && IsRun(domain, base, run)
    ensures InstancesAt(After(domain, base, run).zone, BrowseNames(domain, b, []))
         == set s | s in RegistryAfter(run).live && s.base == b :: Found(s, domain)
  {
    hide Foreign, Sound, IsRun, After, RegistryAfter, Encode, FoundIn, PtrsAt, InstancePtr, TypeName;
    RunEncodes(domain, base, run);
    PtrsAtType(domain, base, RegistryAfter(run), b);
    FoundByType(domain, RegistryAfter(run), b);
  }

  /** In every interleaving, the pointers at a type are in canonical form. */
  lemma RunNamedOnce(domain: Name, base: Zone, run: seq<Event>, b: BaseType, subs: seq<Name>)
    requires Foreign(domain, base) && IsRun(domain, base, run)
    ensures NamedOnce(After(domain, base, run).zone, domain, b, subs)
  {
    hide Foreign, Sound, IsRun, After, RegistryAfter, Encode, PtrsAt, TypeName, DnsName;
    RunEncodes(domain, base, run);
    var reg := RegistryAfter(run);
    PtrsAtType(domain, base, reg, b);
    forall s | s in reg.live && s.base == b
      ensures IsLower(InstancePtr(domain, s).target[2])
    {
      LabelNames(b.transport);
    }
  }

  /** In every interleaving, browsing lists each registered service of the type once, and no other. */
  lemma BrowseListsOnce(domain: Name, base: Zone, run: seq<Event>, b: BaseType, f: Found)
    requires Foreign(domain, base) && IsRun(domain, base, run)
    ensures Times(After(domain, base, run).zone, [domain], b, [], f) ==
            if f.domain == domain && f.service in RegistryAfter(run).live && f.service.base == b then 1 else 0
  {
    hide Foreign, IsRun, After, RegistryAfter, InstancesAt, BrowseNames, NamedOnce, Occurrences;
    var zone := After(domain, base, run).zone;
    RunNamedOnce(domain, base, run, b, []);
    ListedOnce(zone, domain, b, [], f);
    TypeFindsInstances(domain, base, run, b);
    assert [domain][..0] == [];
    assert Times(zone, [], b, [], f) == 0;
  }

  /** With subtypes, each registered service that has one of them is listed once. */
  lemma BrowseSubtypesListsOnce(domain: Name, base: Zone, run: seq<Event>, b: BaseType, subs: seq<Name>, f: Found)
    requires Foreign(domain, base) && IsRun(domain, base, run) && Faithful(run)
    requires subs != [] && NonEmpty(subs)
    ensures Times(After(domain, base, run).zone, [domain], b, subs, f) ==
            if f.domain == domain && f.service in RegistryAfter(run).live && f.service.base == b
               && HasOneOf(RegistryAfter(run).live[f.service], subs) then 1 else 0
  {
    hide Foreign, IsRun, After, RegistryAfter, InstancesAt, BrowseNames, NamedOnce, Occurrences, Faithful, HasOneOf;
    var zone := After(domain, base, run).zone;
    RunNamedOnce(domain, base, run, b, subs);
    ListedOnce(zone, domain, b, subs, f);
    SubtypesFindInstances(domain, base, run, b, subs);
    assert [domain][..0] == [];
    assert Times(zone, [], b, subs, f) == 0;
  }

  lemma FoundBySubtype(domain: Name, reg: Registry, sub: Name, b: BaseType)
    ensures FoundIn(set p | p in reg.pointers && p.sub == sub && p.service.base == b :: SubtypePtr(domain, sub, p.service))
         == set p | p in reg.pointers && p.sub == sub && p.service.base == b :: Found(p.service, domain)
  {
    hide FromDnsName, DnsName, SubtypeName;
    var records := set p | p in reg.pointers && p.sub == sub && p.service.base == b :: SubtypePtr(domain, sub, p.service);
    forall p | p in reg.pointers && p.sub == sub && p.service.base == b
      ensures Found(p.service, domain) in FoundIn(records)
    {
      DnsNameFound(domain, p.service);
      assert SubtypePtr(domain, sub, p.service) in records;
    }
    forall f | f in FoundIn(records)
      ensures Pointer(sub, f.service) in reg.pointers && f.service.base == b && f.domain == domain
    {
      var r :| r in records && r.Ptr? && FromDnsName(r.target) == Some(f);
      var p :| p in reg.pointers && p.sub == sub && p.service.base == b && r == SubtypePtr(domain, sub, p.service);
      DnsNameFound(domain, p.service);
    }
  }

  lemma InstancesBySubtype(domain: Name, base: Zone, reg: Registry, b: BaseType, sub: Name, f: Found)
    requires Foreign(domain, base) && Sound(reg) && sub != []
    ensures f in FoundIn(PtrsAt(Encode(domain, base, reg), SubtypeName(domain, sub, b))) <==>
            Pointer(sub, f.service) in reg.pointers && f.service.base == b && f.domain == domain
  {
    hide Foreign, Sound, Encode, FoundIn, PtrsAt, SubtypePtr, SubtypeName;
    PtrsAtSubtype(domain, base, reg, sub, b);
    FoundBySubtype(domain, reg, sub, b);
  }

  predicate HasOneOf(d: ServiceData, subs: seq<Name>) { exists sub :: sub in subs && sub in d.subtypes }

  /** While every service is unregistered as it was registered, browsing for a type with subtypes finds exactly the
      registered services of the type that have one of them. */
  lemma SubtypesFindInstances(domain: Name, base: Zone, run: seq<Event>, b: BaseType, subs: seq<Name>)
    requires Foreign(domain, base) && IsRun(domain, base, run) && Faithful(run)
    requires subs != [] && NonEmpty(subs)
    ensures InstancesAt(After(domain, base, run).zone, BrowseNames(domain, b, subs))
         == set s | s in RegistryAfter(run).live && s.base == b && HasOneOf(RegistryAfter(run).live[s], subs) :: Found(s, domain)
  {
    hide Foreign, Sound, IsRun, After, RegistryAfter, Encode, FoundIn, PtrsAt, SubtypeName, Faithful;
    RunEncodes(domain, base, run);
    RunExact(domain, base, run);
    var zone, reg := After(domain, base, run).zone, RegistryAfter(run);
    forall f: Found
      ensures f in InstancesAt(zone, BrowseNames(domain, b, subs)) <==>
              f.domain == domain && f.service in reg.live && f.service.base == b
              && HasOneOf(reg.live[f.service], subs)
    {
      forall sub | sub in subs
        ensures f in FoundIn(PtrsAt(zone, SubtypeName(domain, sub, b))) <==>
                f.domain == domain && f.service in reg.live && f.service.base == b && sub in reg.live[f.service].subtypes
      {
        InstancesBySubtype(domain, base, reg, b, sub, f);
        assert Pointer(sub, f.service) in reg.pointers <==> f.service in reg.live && sub in reg.live[f.service].subtypes;
      }
      if f in InstancesAt(zone, BrowseNames(domain, b, subs)) {
        var n :| n in BrowseNames(domain, b, subs) && f in FoundIn(PtrsAt(zone, n));
        var sub :| sub in subs && n == SubtypeName(domain, sub, b);
      }
      if sub :| sub in subs && f in FoundIn(PtrsAt(zone, SubtypeName(domain, sub, b))) {
        assert SubtypeName(domain, sub, b) in BrowseNames(domain, b, subs);
      }
    }
  }

  lemma TypesOfPtrs(domain: Name, reg: Registry)
    ensures TypesIn(TypePtrs(domain, reg)) == reg.types
  {
    hide TypeFromName, ServicesName, TypeName;
    forall b | b in reg.types
      ensures b in TypesIn(TypePtrs(domain, reg))
    {
      TypeNameFound(domain, b);
      assert TypePtr(domain, b) in TypePtrs(domain, reg);
    }
    forall b | b in TypesIn(TypePtrs(domain, reg))
      ensures b in reg.types
    {
      var r :| r in TypePtrs(domain, reg) && r.Ptr? && TypeFromName(r.target) == Some(b);
      var c :| c in reg.types && r == TypePtr(domain, c);
      TypeNameFound(domain, c);
    }
  }

  /** Browsing for types finds every type that has a registered service, and finds another only while its removal is
      pending or after that has failed. */
  lemma TypesFound(domain: Name, base: Zone, run: seq<Event>, b: BaseType)
    requires Foreign(domain, base) && IsRun(domain, base, run)
    ensures var sys := After(domain, base, run);
            var found := TypesIn(PtrsAt(sys.zone, ServicesName(domain)));
            && (HasInstance(RegistryAfter(run), b) ==> b in found)
            && (b in found ==> HasInstance(RegistryAfter(run), b) || b in sys.pending || b in sys.failed)
  {
    hide Foreign, Sound, IsRun, After, RegistryAfter, Encode, TypesIn, PtrsAt, TypePtrs;
    RunEncodes(domain, base, run);
    PtrsAtServices(domain, base, RegistryAfter(run));
    TypesOfPtrs(domain, RegistryAfter(run));
  }

  /** Looking up a service finds one SRV and one TXT record, those of its registration, or nothing. */
  lemma DataFound(domain: Name, base: Zone, run: seq<Event>, s: Service)
    requires Foreign(domain, base) && IsRun(domain, base, run) && !Clashes(s)
    ensures var zone, live := After(domain, base, run).zone, RegistryAfter(run).live;
            && SrvsAt(zone, DnsName(domain, s)) == (if s in live then {SrvOf(domain, live[s])} else {})
            && TxtsAt(zone, DnsName(domain, s)) == (if s in live then {TxtOf(domain, live[s])} else {})
  {
    hide Foreign, Sound, IsRun, After, RegistryAfter, Encode, TxtStrings, DnsName, Clashes;
    RunEncodes(domain, base, run);
    var reg := RegistryAfter(run);
    forall r: Record | r.owner == DnsName(domain, s)
      ensures r in Encode(domain, base, reg) <==>
              s in reg.live && (r == SrvOf(domain, reg.live[s]) || r == TxtOf(domain, reg.live[s]))
    {
      DataMeans(domain, base, reg, s, r);
    }
    if s in reg.live {
      LiveNamesItself(reg, s);
      assert SrvOf(domain, reg.live[s]).owner == DnsName(domain, s) && TxtOf(domain, reg.live[s]).owner == DnsName(domain, s);
    }
  }

  lemma LiveNamesItself(reg: Registry, s: Service)
    requires Sound(reg) && s in reg.live
    ensures reg.live[s].service == s
  {
  }

  /** A lookup gives back the host, the port and the properties of a registered service, the properties exactly when
      all of them can be read, and finds nothing for any other. */
  lemma LookupFindsRegistration(lower: CaseMap, domain: Name, base: Zone, run: seq<Event>, s: Service, r: Option<Facts>)
    requires Foreign(domain, base) && IsRun(domain, base, run) && !Clashes(s)
    requires Lawful(lower) && MayAnswer(lower, After(domain, base, run).zone, Found(s, domain), r)
    ensures r.Some? <==> s in RegistryAfter(run).live
    ensures r.Some? ==> r.value.host == RegistryAfter(run).live[s].host && r.value.port == RegistryAfter(run).live[s].port
    ensures r.Some? && DistinctKeys(RegistryAfter(run).live[s].properties) ==>
              (r.value.properties == Properties(RegistryAfter(run).live[s].properties) <==>
               forall p :: p in RegistryAfter(run).live[s].properties ==> Readable(lower, p.key, p.value))
  {
    hide Foreign, IsRun, After, RegistryAfter, TxtStrings, DnsName, ReadStrings, Properties, Readable, DistinctKeys, Lawful;
    DataFound(domain, base, run, s);
    if r.Some? {
      var d := RegistryAfter(run).live[s];
      if DistinctKeys(d.properties) { TxtRoundTrip(lower, d.properties); }
    }
  }

  /** A registered property whose key has capitals is found under the key in lower case, and with its own value unless
      an earlier property is read with that key. */
  lemma LookupFindsProperty(lower: CaseMap, domain: Name, base: Zone, run: seq<Event>, s: Service, r: Option<Facts>, i: nat)
    requires Foreign(domain, base) && IsRun(domain, base, run) && !Clashes(s)
    requires MayAnswer(lower, After(domain, base, run).zone, Found(s, domain), r) && r.Some?
    requires s in RegistryAfter(run).live && i < |RegistryAfter(run).live[s].properties|
    requires var p := RegistryAfter(run).live[s].properties[i]; p.key != "" && '=' !in p.key
    ensures var ps := RegistryAfter(run).live[s].properties;
            var k := if ps[i].value.Some? then lower(ps[i].key) else ps[i].key;
            && k in r.value.properties
            && ((forall j :: 0 <= j < i ==> !Mentions(lower, EntryString(ps[j]), k)) ==>
                  r.value.properties[k] == ps[i].value)
  {
    hide Foreign, IsRun, After, RegistryAfter, TxtStrings, DnsName, ReadStrings, Mentions, EntryString, Spells;
    DataFound(domain, base, run, s);
    var ps := RegistryAfter(run).live[s].properties;
    var strings, k := TxtStrings(ps), ReadKey(lower, ps[i]);
    EntrySpells(lower, ps[i]);
    SpelledIsMentioned(lower, strings[i], k, ps[i].value);
    ReadIfMentioned(lower, strings, k);
    if forall j :: 0 <= j < i ==> !Mentions(lower, EntryString(ps[j]), k) { ReadFromFirst(lower, strings, k, i); }
  }

  /** Nothing else is found: every property found is one that was registered and reads so. */
  lemma PropertiesWereRegistered(lower: CaseMap, domain: Name, base: Zone, run: seq<Event>, s: Service, r: Option<Facts>,
                                 k: string)
    requires Foreign(domain, base) && IsRun(domain, base, run) && !Clashes(s)
    requires MayAnswer(lower, After(domain, base, run).zone, Found(s, domain), r) && r.Some?
    requires s in RegistryAfter(run).live && k in r.value.properties
    ensures exists p :: p in RegistryAfter(run).live[s].properties && Mentions(lower, EntryString(p), k)
  {
    hide Foreign, IsRun, After, RegistryAfter, TxtStrings, DnsName, ReadStrings, Mentions, EntryString, Spells;
    DataFound(domain, base, run, s);
    var ps := RegistryAfter(run).live[s].properties;
    ReadIfMentioned(lower, TxtStrings(ps), k);
    var i :| 0 <= i < |TxtStrings(ps)| && Mentions(lower, TxtStrings(ps)[i], k);
    if ps == [] { EmptyMentionsNothing(lower, k); } else { assert ps[i] in ps; }
  }
}
