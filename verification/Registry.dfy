/** What the clients of a domain have registered, and the zone that says so. */
module Registries {
  import opened Sequences
  import opened ServiceTypes
  import opened TxtRecord
  import opened DnsZone
  import opened Registrators

  datatype Pointer = Pointer(sub: Name, service: Service)

  /** The registered services, the types listed for browsing, and the subtypes that point at services. */
  datatype Registry = Registry(live: map<Service, ServiceData>, types: set<BaseType>, pointers: set<Pointer>)

  const EMPTY := Registry(map[], {}, {})

  predicate HasInstance(reg: Registry, b: BaseType) { exists s :: s in reg.live && s.base == b }

  predicate NonEmpty(subs: seq<Name>) { [] !in subs }

  ghost predicate Sound(reg: Registry) {
    && (forall s :: s in reg.live ==> reg.live[s].service == s && !Clashes(s))
    && (forall p :: p in reg.pointers ==> p.sub != [])
  }

  // ----- what clients do to the registry

  function PointersOf(subs: seq<Name>, s: Service): set<Pointer> { set sub | sub in subs :: Pointer(sub, s) }

  function Joined(reg: Registry, d: ServiceData): Registry {
    Registry(reg.live[d.service := d], reg.types + {d.service.base},
             reg.pointers + PointersOf(d.subtypes, d.service))
  }

  function Departed(reg: Registry, s: Service, subs: seq<Name>): Registry {
    Registry(reg.live - {s}, reg.types, reg.pointers - PointersOf(subs, s))
  }

  function Untyped(reg: Registry, b: BaseType): Registry {
    if HasInstance(reg, b) then reg else reg.(types := reg.types - {b})
  }

  // ----- the zone of a registry

  function InstancePtrs(domain: Name, reg: Registry): Zone { set s | s in reg.live :: InstancePtr(domain, s) }

  function SrvRecords(domain: Name, reg: Registry): Zone { set s | s in reg.live :: SrvOf(domain, reg.live[s]) }

  function TxtRecords(domain: Name, reg: Registry): Zone { set s | s in reg.live :: TxtOf(domain, reg.live[s]) }

  function TypePtrs(domain: Name, reg: Registry): Zone { set b | b in reg.types :: TypePtr(domain, b) }

  function PointerRecords(domain: Name, reg: Registry): Zone {
    set p | p in reg.pointers :: SubtypePtr(domain, p.sub, p.service)
  }

  /** `base` holds the records that have nothing to do with services. */
  function Encode(domain: Name, base: Zone, reg: Registry): Zone {
    base + InstancePtrs(domain, reg) + SrvRecords(domain, reg) + TxtRecords(domain, reg) + TypePtrs(domain, reg)
    + PointerRecords(domain, reg)
  }

  /** Names below `_tcp` or `_udp` in the domain are the ones that services use. */
  predicate Below(domain: Name, n: Name) {
    |n| > |domain| && n[|n| - |domain|..] == domain && exists t :: n[|n| - |domain| - 1] == Label(t)
  }

  ghost predicate Foreign(domain: Name, base: Zone) { forall r :: r in base ==> !Below(domain, r.owner) }

  lemma ServiceNamesBelow(domain: Name, s: Service, sub: Name)
    ensures Below(domain, ServicesName(domain)) && Below(domain, TypeName(domain, s.base))
    ensures Below(domain, DnsName(domain, s)) && Below(domain, SubtypeName(domain, sub, s.base))
  {
    var names := [ServicesName(domain), TypeName(domain, s.base), DnsName(domain, s), SubtypeName(domain, sub, s.base)];
    forall i | 0 <= i < |names|
      ensures Below(domain, names[i])
    {
      var n := names[i];
      assert n[|n| - |domain| - 1] == Label(if i == 0 then UDP else s.base.transport);
    }
    assert Below(domain, names[0]) && Below(domain, names[1]) && Below(domain, names[2]) && Below(domain, names[3]);
  }

  // ----- whose records are whose

  /** Pointers at instances, at types and from subtypes are told apart by their owners. */
  lemma Owners(domain: Name, reg: Registry)
    requires Sound(reg)
    ensures forall r :: r in InstancePtrs(domain, reg) ==> |r.owner| == |domain| + 2
    ensures forall r :: r in TypePtrs(domain, reg) ==> r.owner == ServicesName(domain)
    ensures forall r :: r in PointerRecords(domain, reg) ==> |r.owner| > |domain| + 3
  {
    hide ServicesName, TypeName, DnsName, SubtypeName;
  }

  lemma OwnersOfData(domain: Name, reg: Registry, r: Record)
    requires Sound(reg) && r in SrvRecords(domain, reg) + TxtRecords(domain, reg)
    ensures exists s :: s in reg.live && r.owner == DnsName(domain, s)
  {
    hide DnsName, TxtStrings;
  }

  /** The name of a service is in use exactly while the service is registered. */
  lemma OwnsDnsName(domain: Name, base: Zone, reg: Registry, s: Service)
    requires Foreign(domain, base) && Sound(reg) && !Clashes(s)
    ensures Owns(Encode(domain, base, reg), DnsName(domain, s)) <==> s in reg.live
  {
    hide Below, ServicesName, TypeName, DnsName, SubtypeName, Sound, InstancePtrs, TypePtrs, PointerRecords, SrvRecords,
         TxtRecords;
    ServiceNamesBelow(domain, s, []);
    Owners(domain, reg);
    DnsNameInjective(domain, s, s);
    if s in reg.live { SrvPresent(domain, reg, s); }
    if Owns(Encode(domain, base, reg), DnsName(domain, s)) {
      var r :| r in Encode(domain, base, reg) && r.owner == DnsName(domain, s);
      OwnersOfData(domain, reg, r);
      var t :| t in reg.live && r.owner == DnsName(domain, t);
      DnsNameInjective(domain, s, t);
    }
  }

  lemma SrvPresent(domain: Name, reg: Registry, s: Service)
    requires s in reg.live && Sound(reg)
    ensures SrvOf(domain, reg.live[s]) in SrvRecords(domain, reg)
    ensures SrvOf(domain, reg.live[s]).owner == DnsName(domain, s)
  {
  }

  /** The name of a type is in use exactly while the type has a registered instance. */
  lemma OwnsTypeName(domain: Name, base: Zone, reg: Registry, b: BaseType)
    requires Foreign(domain, base) && Sound(reg)
    ensures Owns(Encode(domain, base, reg), TypeName(domain, b)) <==> HasInstance(reg, b)
  {
    hide Below, ServicesName, TypeName, DnsName, SubtypeName, Sound, TypePtrs, PointerRecords, SrvRecords, TxtRecords;
    ServiceNamesBelow(domain, Service("", b), []);
    Owners(domain, reg);
    if HasInstance(reg, b) {
      var s :| s in reg.live && s.base == b;
      assert InstancePtr(domain, s) in InstancePtrs(domain, reg);
    }
    if Owns(Encode(domain, base, reg), TypeName(domain, b)) {
      var r :| r in Encode(domain, base, reg) && r.owner == TypeName(domain, b);
      if r in SrvRecords(domain, reg) + TxtRecords(domain, reg) { OwnersOfData(domain, reg, r); }
      var s :| s in reg.live && r == InstancePtr(domain, s);
      TypeNameInjective(domain, b, s.base);
    }
  }

  // ----- how changes to the registry change the zone

  lemma EncodeJoined(domain: Name, base: Zone, reg: Registry, d: ServiceData)
    requires d.service !in reg.live
    ensures Encode(domain, base, Joined(reg, d)) == Encode(domain, base, reg) + Registered(domain, d)
  {
    hide InstancePtr, TypePtr, SubtypePtr, SrvOf, TxtOf;
    var s, after := d.service, Joined(reg, d);
    assert InstancePtrs(domain, after) == InstancePtrs(domain, reg) + {InstancePtr(domain, s)};
    assert SrvRecords(domain, after) == SrvRecords(domain, reg) + {SrvOf(domain, d)} by { SrvsJoined(domain, reg, d); }
    assert TxtRecords(domain, after) == TxtRecords(domain, reg) + {TxtOf(domain, d)} by { TxtsJoined(domain, reg, d); }
    assert TypePtrs(domain, after) == TypePtrs(domain, reg) + {TypePtr(domain, s.base)};
    PointersJoined(domain, reg, d);
  }

  lemma SrvsJoined(domain: Name, reg: Registry, d: ServiceData)
    requires d.service !in reg.live
    ensures SrvRecords(domain, Joined(reg, d)) == SrvRecords(domain, reg) + {SrvOf(domain, d)}
  {
    hide SrvOf;
    var after := Joined(reg, d);
    forall s | s in reg.live
      ensures SrvOf(domain, reg.live[s]) in SrvRecords(domain, after)
    {
      assert s in after.live && after.live[s] == reg.live[s];
    }
    assert d.service in after.live;
  }

  lemma TxtsJoined(domain: Name, reg: Registry, d: ServiceData)
    requires d.service !in reg.live
    ensures TxtRecords(domain, Joined(reg, d)) == TxtRecords(domain, reg) + {TxtOf(domain, d)}
  {
    hide TxtOf;
    var after := Joined(reg, d);
    forall s | s in reg.live
      ensures TxtOf(domain, reg.live[s]) in TxtRecords(domain, after)
    {
      assert s in after.live && after.live[s] == reg.live[s];
    }
    assert d.service in after.live;
  }

  lemma PointersJoined(domain: Name, reg: Registry, d: ServiceData)
    ensures PointerRecords(domain, Joined(reg, d))
         == PointerRecords(domain, reg) + ToSet(SubtypePtrs(domain, d.subtypes, d.service))
  {
    hide SubtypePtr;
    var after, ptrs := Joined(reg, d), SubtypePtrs(domain, d.subtypes, d.service);
    forall r | r in ToSet(ptrs)
      ensures r in PointerRecords(domain, after)
    {
      var i :| 0 <= i < |ptrs| && ptrs[i] == r;
      assert Pointer(d.subtypes[i], d.service) in after.pointers;
    }
    forall r | r in PointerRecords(domain, after)
      ensures r in PointerRecords(domain, reg) + ToSet(ptrs)
    {
      var p :| p in after.pointers && r == SubtypePtr(domain, p.sub, p.service);
      if p !in reg.pointers {
        var i :| 0 <= i < |d.subtypes| && d.subtypes[i] == p.sub;
        assert ptrs[i] == r;
      }
    }
  }

  lemma SubtypePtrShape(domain: Name, subs: seq<Name>, s: Service, r: Record)
    requires NonEmpty(subs) && r in SubtypePtrs(domain, subs, s)
    ensures r.Ptr? && |r.owner| > |domain| + 3 && r.target == DnsName(domain, s) && Below(domain, r.owner)
  {
    hide DnsName, SubtypeName, Below;
    var i :| 0 <= i < |subs| && r == SubtypePtr(domain, subs[i], s);
    ServiceNamesBelow(domain, s, subs[i]);
  }

  /** What leaves, told by the shape of its owner. */
  lemma LeavesByOwner(domain: Name, s: Service, subs: seq<Name>, r: Record)
    requires NonEmpty(subs)
    ensures |r.owner| == |domain| + 2 ==> (Leaves(domain, s, subs, r) <==> r == InstancePtr(domain, s))
    ensures |r.owner| == |domain| + 3 ==> (Leaves(domain, s, subs, r) <==> r.owner == DnsName(domain, s))
    ensures |r.owner| > |domain| + 3 ==> (Leaves(domain, s, subs, r) <==> r in SubtypePtrs(domain, subs, s))
    ensures !Below(domain, r.owner) ==> !Leaves(domain, s, subs, r)
  {
    hide TypeName, DnsName, Below, SubtypePtrs;
    ServiceNamesBelow(domain, s, []);
    if r in SubtypePtrs(domain, subs, s) { SubtypePtrShape(domain, subs, s, r); }
  }

  lemma InstancePtrLeaves(domain: Name, s: Service, subs: seq<Name>, t: Service)
    requires NonEmpty(subs)
    ensures Leaves(domain, s, subs, InstancePtr(domain, t)) <==> t == s
  {
    hide TypeName, DnsName, Leaves;
    LeavesByOwner(domain, s, subs, InstancePtr(domain, t));
    DnsNameInjective(domain, s, t);
  }

  lemma DataLeaves(domain: Name, s: Service, subs: seq<Name>, d: ServiceData)
    requires NonEmpty(subs)
    ensures Leaves(domain, s, subs, SrvOf(domain, d)) <==> d.service == s
    ensures Leaves(domain, s, subs, TxtOf(domain, d)) <==> d.service == s
  {
    hide DnsName, Leaves, TxtStrings;
    LeavesByOwner(domain, s, subs, SrvOf(domain, d));
    LeavesByOwner(domain, s, subs, TxtOf(domain, d));
    DnsNameInjective(domain, s, d.service);
  }

  lemma TypePtrStays(domain: Name, s: Service, subs: seq<Name>, b: BaseType)
    requires NonEmpty(subs) && !Clashes(s)
    ensures !Leaves(domain, s, subs, TypePtr(domain, b))
  {
    hide DnsName, Leaves, TypeName, ServicesName;
    LeavesByOwner(domain, s, subs, TypePtr(domain, b));
    DnsNameInjective(domain, s, s);
  }

  lemma PointerLeaves(domain: Name, s: Service, subs: seq<Name>, p: Pointer)
    requires NonEmpty(subs) && p.sub != []
    ensures Leaves(domain, s, subs, SubtypePtr(domain, p.sub, p.service)) <==> p in PointersOf(subs, s)
  {
    hide DnsName, SubtypeName, Leaves;
    var r := SubtypePtr(domain, p.sub, p.service);
    LeavesByOwner(domain, s, subs, r);
    if r in SubtypePtrs(domain, subs, s) {
      var i :| 0 <= i < |subs| && r == SubtypePtr(domain, subs[i], s);
      DnsNameInjective(domain, s, p.service);
      assert r.owner[..|subs[i]|] == subs[i] && r.owner[..|p.sub|] == p.sub;
    }
    if p in PointersOf(subs, s) {
      var i :| 0 <= i < |subs| && subs[i] == p.sub;
      assert SubtypePtrs(domain, subs, s)[i] == r;
    }
  }

  lemma BaseStays(domain: Name, base: Zone, s: Service, subs: seq<Name>)
    requires Foreign(domain, base) && NonEmpty(subs)
    ensures Unregistered(domain, base, s, subs) == base
  {
    hide Leaves, Below;
    forall r | r in base
      ensures !Leaves(domain, s, subs, r)
    {
      LeavesByOwner(domain, s, subs, r);
    }
  }

  lemma InstancePtrsDeparted(domain: Name, reg: Registry, s: Service, subs: seq<Name>)
    requires NonEmpty(subs)
    ensures Unregistered(domain, InstancePtrs(domain, reg), s, subs) == InstancePtrs(domain, Departed(reg, s, subs))
  {
    hide Leaves, InstancePtr;
    forall t | t in reg.live
      ensures Leaves(domain, s, subs, InstancePtr(domain, t)) <==> t == s
    {
      InstancePtrLeaves(domain, s, subs, t);
    }
  }

  lemma SrvsDeparted(domain: Name, reg: Registry, s: Service, subs: seq<Name>)
    requires NonEmpty(subs) && Sound(reg)
    ensures Unregistered(domain, SrvRecords(domain, reg), s, subs) == SrvRecords(domain, Departed(reg, s, subs))
  {
    hide Leaves, SrvOf;
    forall t | t in reg.live
      ensures Leaves(domain, s, subs, SrvOf(domain, reg.live[t])) <==> t == s
      ensures t != s ==> SrvOf(domain, reg.live[t]) in SrvRecords(domain, Departed(reg, s, subs))
    {
      DataLeaves(domain, s, subs, reg.live[t]);
      if t != s { assert t in Departed(reg, s, subs).live; }
    }
  }

  lemma TxtsDeparted(domain: Name, reg: Registry, s: Service, subs: seq<Name>)
    requires NonEmpty(subs) && Sound(reg)
    ensures Unregistered(domain, TxtRecords(domain, reg), s, subs) == TxtRecords(domain, Departed(reg, s, subs))
  {
    hide Leaves, TxtOf;
    forall t | t in reg.live
      ensures Leaves(domain, s, subs, TxtOf(domain, reg.live[t])) <==> t == s
      ensures t != s ==> TxtOf(domain, reg.live[t]) in TxtRecords(domain, Departed(reg, s, subs))
    {
      DataLeaves(domain, s, subs, reg.live[t]);
      if t != s { assert t in Departed(reg, s, subs).live; }
    }
  }

  lemma TypePtrsDeparted(domain: Name, reg: Registry, s: Service, subs: seq<Name>)
    requires NonEmpty(subs) && !Clashes(s)
    ensures Unregistered(domain, TypePtrs(domain, reg), s, subs) == TypePtrs(domain, Departed(reg, s, subs))
  {
    hide Leaves, TypePtr;
    forall b | b in reg.types
      ensures !Leaves(domain, s, subs, TypePtr(domain, b))
    {
      TypePtrStays(domain, s, subs, b);
    }
  }

  lemma PointersDeparted(domain: Name, reg: Registry, s: Service, subs: seq<Name>)
    requires NonEmpty(subs) && Sound(reg)
    ensures Unregistered(domain, PointerRecords(domain, reg), s, subs) == PointerRecords(domain, Departed(reg, s, subs))
  {
    hide Leaves, SubtypePtr, PointersOf;
    forall p | p in reg.pointers
      ensures Leaves(domain, s, subs, SubtypePtr(domain, p.sub, p.service)) <==> p in PointersOf(subs, s)
    {
      PointerLeaves(domain, s, subs, p);
    }
  }

  /** Each record of a registry leaves the zone exactly when it leaves the registry. */
  lemma EncodeDeparted(domain: Name, base: Zone, reg: Registry, s: Service, subs: seq<Name>)
    requires Foreign(domain, base) && Sound(reg) && !Clashes(s) && NonEmpty(subs)
    ensures Unregistered(domain, Encode(domain, base, reg), s, subs) == Encode(domain, base, Departed(reg, s, subs))
  {
    hide Leaves, InstancePtrs, SrvRecords, TxtRecords, TypePtrs, PointerRecords, Departed, Below, Clashes;
    BaseStays(domain, base, s, subs);
    InstancePtrsDeparted(domain, reg, s, subs);
    SrvsDeparted(domain, reg, s, subs);
    TxtsDeparted(domain, reg, s, subs);
    TypePtrsDeparted(domain, reg, s, subs);
    PointersDeparted(domain, reg, s, subs);
  }

  /** The zone loses the pointer at a type exactly when the registry drops the type. */
  lemma EncodeUntyped(domain: Name, base: Zone, reg: Registry, b: BaseType)
    requires Foreign(domain, base) && Sound(reg)
    ensures Tidied(domain, Encode(domain, base, reg), b) == Encode(domain, base, Untyped(reg, b))
  {
    hide InstancePtrs, SrvRecords, TxtRecords, PointerRecords, Below, HasInstance, Owns;
    OwnsTypeName(domain, base, reg, b);
    if !HasInstance(reg, b) {
      OnlyTypesPoint(domain, base, reg, b);
      TypePtrsWithout(domain, reg, b);
      TypesApart(domain, reg, reg.types - {b});
    }
  }

  ghost predicate SameData(domain: Name, reg: Registry, other: Registry) {
    && InstancePtrs(domain, reg) == InstancePtrs(domain, other)
    && SrvRecords(domain, reg) == SrvRecords(domain, other)
    && TxtRecords(domain, reg) == TxtRecords(domain, other)
    && PointerRecords(domain, reg) == PointerRecords(domain, other)
  }

  lemma TypesApart(domain: Name, reg: Registry, types: set<BaseType>)
    ensures SameData(domain, reg, reg.(types := types))
  {
    hide InstancePtr, SrvOf, TxtOf, SubtypePtr;
  }

  lemma OnlyTypesPoint(domain: Name, base: Zone, reg: Registry, b: BaseType)
    requires Foreign(domain, base) && Sound(reg)
    ensures TypePtr(domain, b) !in base + InstancePtrs(domain, reg) + SrvRecords(domain, reg) + TxtRecords(domain, reg)
                                  + PointerRecords(domain, reg)
  {
    hide Below, ServicesName, TypeName, DnsName, TxtStrings, InstancePtrs, PointerRecords;
    ServiceNamesBelow(domain, Service("", b), []);
    Owners(domain, reg);
    assert forall r :: r in SrvRecords(domain, reg) + TxtRecords(domain, reg) ==> !r.Ptr?;
  }

  lemma TypePtrsWithout(domain: Name, reg: Registry, b: BaseType)
    ensures TypePtrs(domain, reg) - {TypePtr(domain, b)} == TypePtrs(domain, reg.(types := reg.types - {b}))
  {
    hide TypeName, ServicesName;
    forall c | c in reg.types
      ensures TypePtr(domain, b) == TypePtr(domain, c) ==> b == c
    {
      TypeNameInjective(domain, b, c);
    }
  }

  // ----- reading the registry off the zone

  lemma TypePtrMeans(domain: Name, base: Zone, reg: Registry, b: BaseType)
    requires Foreign(domain, base) && Sound(reg)
    ensures TypePtr(domain, b) in Encode(domain, base, reg) <==> b in reg.types
  {
    hide Below, ServicesName, TypeName, InstancePtrs, SrvRecords, TxtRecords, PointerRecords, Sound, Foreign;
    OnlyTypesPoint(domain, base, reg, b);
    if TypePtr(domain, b) in TypePtrs(domain, reg) {
      var c :| c in reg.types && TypePtr(domain, c) == TypePtr(domain, b);
      TypeNameInjective(domain, b, c);
    }
  }

  lemma InstancePtrMeans(domain: Name, base: Zone, reg: Registry, s: Service)
    requires Foreign(domain, base) && Sound(reg)
    ensures InstancePtr(domain, s) in Encode(domain, base, reg) <==> s in reg.live
  {
    hide Below, ServicesName, TypeName, DnsName, TxtStrings, InstancePtrs, PointerRecords, TypePtrs, SrvRecords, TxtRecords;
    var r := InstancePtr(domain, s);
    ServiceNamesBelow(domain, s, []);
    Owners(domain, reg);
    if r in SrvRecords(domain, reg) + TxtRecords(domain, reg) { OwnersOfData(domain, reg, r); }
    InstancePtrAmong(domain, reg, s);
  }

  lemma InstancePtrAmong(domain: Name, reg: Registry, s: Service)
    ensures InstancePtr(domain, s) in InstancePtrs(domain, reg) <==> s in reg.live
  {
    hide TypeName, DnsName;
    if InstancePtr(domain, s) in InstancePtrs(domain, reg) {
      var t :| t in reg.live && InstancePtr(domain, t) == InstancePtr(domain, s);
      DnsNameInjective(domain, s, t);
    }
  }

  lemma SubtypePtrMeans(domain: Name, base: Zone, reg: Registry, p: Pointer)
    requires Foreign(domain, base) && Sound(reg) && p.sub != []
    ensures SubtypePtr(domain, p.sub, p.service) in Encode(domain, base, reg) <==> p in reg.pointers
  {
    hide Below, ServicesName, TypeName, DnsName, TxtStrings, InstancePtrs, TypePtrs;
    var r := SubtypePtr(domain, p.sub, p.service);
    ServiceNamesBelow(domain, p.service, p.sub);
    Owners(domain, reg);
    if r in Encode(domain, base, reg) {
      assert r in PointerRecords(domain, reg);
      var q :| q in reg.pointers && SubtypePtr(domain, q.sub, q.service) == r;
      DnsNameInjective(domain, p.service, q.service);
      assert |q.sub| == |p.sub| && r.owner[..|q.sub|] == q.sub && r.owner[..|p.sub|] == p.sub;
    }
  }

  /** The service and text records at the name of a service are the ones it was registered with. */
  lemma DataMeans(domain: Name, base: Zone, reg: Registry, s: Service, r: Record)
    requires Foreign(domain, base) && Sound(reg) && !Clashes(s) && r.owner == DnsName(domain, s)
    ensures r in Encode(domain, base, reg) <==>
            s in reg.live && (r == SrvOf(domain, reg.live[s]) || r == TxtOf(domain, reg.live[s]))
  {
    hide Below, ServicesName, TypeName, DnsName, TxtStrings, InstancePtrs, TypePtrs, PointerRecords;
    ServiceNamesBelow(domain, s, []);
    Owners(domain, reg);
    DnsNameInjective(domain, s, s);
    forall t | t in reg.live && (r == SrvOf(domain, reg.live[t]) || r == TxtOf(domain, reg.live[t]))
      ensures t == s
    {
      DnsNameInjective(domain, s, t);
    }
  }
}
