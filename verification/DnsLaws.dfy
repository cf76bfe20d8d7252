/** What holds of the zone in every run. */
module DnsLaws {
  import opened ServiceTypes
  import opened TxtRecord
  import opened DnsZone
  import opened Registrators
  import opened Registries
  import opened DnsRuns

  // ----- the zone, record by record

  /** The transport as a label. */
  function Protocol(t: Transport): string { if t == TCP then "_tcp" else "_udp" }

  /** One of the records of a registered service. */
  predicate IsDataOf(domain: Name, d: ServiceData, r: Record) {
    var kind, protocol := d.service.base.kind, Protocol(d.service.base.transport);
    || r == Ptr([kind, protocol] + domain, [d.service.instance, kind, protocol] + domain)
    || r == Srv([d.service.instance, kind, protocol] + domain, 0, 0, d.port, d.host)
    || (r.Txt? && r.owner == [d.service.instance, kind, protocol] + domain && IsTextOf(d.properties, r.strings))
  }

  /** One string for each property, and one empty string for none. */
  predicate IsTextOf(ps: seq<Property>, strings: seq<string>) {
    if ps == [] then strings == [""]
    else |strings| == |ps| && forall i :: 0 <= i < |ps| ==>
           strings[i] == ps[i].key + if ps[i].value.Some? then "=" + ps[i].value.value else ""
  }

  predicate IsTypeOf(domain: Name, b: BaseType, r: Record) {
    r == Ptr(["_services", "_dns-sd", "_udp"] + domain, [b.kind, Protocol(b.transport)] + domain)
  }

  predicate IsPointerOf(domain: Name, p: Pointer, r: Record) {
    var kind, protocol := p.service.base.kind, Protocol(p.service.base.transport);
    r == Ptr(p.sub + ["_sub", kind, protocol] + domain, [p.service.instance, kind, protocol] + domain)
  }

  lemma TextMeans(ps: seq<Property>, strings: seq<string>)
    ensures IsTextOf(ps, strings) <==> strings == TxtStrings(ps)
  {
    hide TxtStrings;
    if ps != [] {
      forall i | 0 <= i < |ps|
        ensures TxtStrings(ps)[i] == ps[i].key + if ps[i].value.Some? then "=" + ps[i].value.value else ""
      {
        assert ps[i].value.Some? ==> ps[i].key + "=" + ps[i].value.value == ps[i].key + ("=" + ps[i].value.value);
        assert ps[i].key + "" == ps[i].key;
      }
    }
  }

  lemma DataIsItsRecords(domain: Name, d: ServiceData, r: Record)
    ensures IsDataOf(domain, d, r) <==> r == InstancePtr(domain, d.service) || r == SrvOf(domain, d) || r == TxtOf(domain, d)
  {
    hide TxtStrings, IsTextOf;
    if r.Txt? { TextMeans(d.properties, r.strings); }
  }

  lemma PointerIsItsRecord(domain: Name, p: Pointer, r: Record)
    ensures IsPointerOf(domain, p, r) <==> r == SubtypePtr(domain, p.sub, p.service)
  {
  }

  lemma TypeIsItsRecord(domain: Name, b: BaseType, r: Record)
    ensures IsTypeOf(domain, b, r) <==> r == TypePtr(domain, b)
  {
  }

  /** In every interleaving the zone holds these records and no others: what was there before, the three records of each
      registered service, one for each listed type, and one for each subtype that points at a service. */
  lemma ZoneOfRun(domain: Name, base: Zone, run: seq<Event>, r: Record)
    requires Foreign(domain, base) && IsRun(domain, base, run)
    ensures var reg := RegistryAfter(run);
            r in After(domain, base, run).zone <==>
              || r in base
              || (exists s :: s in reg.live && IsDataOf(domain, reg.live[s], r))
              || (exists b :: b in reg.types && IsTypeOf(domain, b, r))
              || (exists p :: p in reg.pointers && IsPointerOf(domain, p, r))
  {
    hide Foreign, IsRun, After, RegistryAfter, IsDataOf, IsTypeOf, IsPointerOf, InstancePtr, SrvOf, TxtOf, TypePtr,
         SubtypePtr;
    RunEncodes(domain, base, run);
    var reg := RegistryAfter(run);
    forall s | s in reg.live
      ensures reg.live[s].service == s
      ensures IsDataOf(domain, reg.live[s], r) <==>
              r == InstancePtr(domain, s) || r == SrvOf(domain, reg.live[s]) || r == TxtOf(domain, reg.live[s])
    {
      DataIsItsRecords(domain, reg.live[s], r);
    }
    forall b | b in reg.types
      ensures IsTypeOf(domain, b, r) <==> r == TypePtr(domain, b)
    {
      TypeIsItsRecord(domain, b, r);
    }
    forall p | p in reg.pointers
      ensures IsPointerOf(domain, p, r) <==> r == SubtypePtr(domain, p.sub, p.service)
    {
      PointerIsItsRecord(domain, p, r);
    }
  }

  // ----- what follows

  predicate HasSrv(zone: Zone, n: Name) { exists r :: r in zone && r.Srv? && r.owner == n }

  /** In every interleaving, a service has an SRV record exactly while the pointer of its type points at it. */
  lemma SrvIffPointed(domain: Name, base: Zone, run: seq<Event>, s: Service)
    requires Foreign(domain, base) && IsRun(domain, base, run) && !Clashes(s)
    ensures var zone := After(domain, base, run).zone;
            && (HasSrv(zone, DnsName(domain, s)) <==> InstancePtr(domain, s) in zone)
            && (InstancePtr(domain, s) in zone <==> s in RegistryAfter(run).live)
  {
    hide Foreign, IsRun, After, RegistryAfter, Encode, Sound, InstancePtr, DnsName, TxtStrings, Clashes;
    RunEncodes(domain, base, run);
    var zone, reg := After(domain, base, run).zone, RegistryAfter(run);
    InstancePtrMeans(domain, base, reg, s);
    if s in reg.live {
      assert SrvOf(domain, reg.live[s]).owner == DnsName(domain, s) by { SrvPresent(domain, reg, s); }
      DataMeans(domain, base, reg, s, SrvOf(domain, reg.live[s]));
    }
    if HasSrv(zone, DnsName(domain, s)) {
      var r :| r in zone && r.Srv? && r.owner == DnsName(domain, s);
      DataMeans(domain, base, reg, s, r);
    }
  }

  /** In every interleaving, a type in use is listed; and while no removal of it is pending or has failed, a type is
      listed only if it is in use. */
  lemma ListedIffInUse(domain: Name, base: Zone, run: seq<Event>, b: BaseType)
    requires Foreign(domain, base) && IsRun(domain, base, run)
    ensures var sys := After(domain, base, run);
            && (Owns(sys.zone, TypeName(domain, b)) ==> TypePtr(domain, b) in sys.zone)
            && (b !in sys.pending && b !in sys.failed && TypePtr(domain, b) in sys.zone
                ==> Owns(sys.zone, TypeName(domain, b)))
  {
    hide Foreign, IsRun, After, RegistryAfter, Encode, Sound, TypePtr, TypeName, Owns;
    RunEncodes(domain, base, run);
    OwnsTypeName(domain, base, RegistryAfter(run), b);
    TypePtrMeans(domain, base, RegistryAfter(run), b);
  }

  /** Nothing that other clients do hides a registered service: whatever second updates come after its registration,
      its type is listed and points at it, and its data is there until the service itself is unregistered. */
  lemma {:induction false} NothingHidesAService(domain: Name, base: Zone, before: seq<Event>, since: seq<Event>, d: ServiceData)
    requires Foreign(domain, base) && IsRun(domain, base, before + [Register(d)] + since)
    requires d.service !in RegistryAfter(before).live
    requires forall e :: e in since ==> !(e.Leave? && e.service == d.service)
    ensures var zone := After(domain, base, before + [Register(d)] + since).zone;
            {TypePtr(domain, d.service.base), InstancePtr(domain, d.service), SrvOf(domain, d), TxtOf(domain, d)} <= zone
  {
    hide Foreign, IsRun, After, Encode, Sound, TypePtr, InstancePtr, DnsName, TxtStrings, Clashes;
    var run := before + [Register(d)] + since;
    RunEncodes(domain, base, run);
    StaysLive(before, since, d);
    var reg := RegistryAfter(run);
    NoClash(reg, d.service);
    TypePtrMeans(domain, base, reg, d.service.base);
    InstancePtrMeans(domain, base, reg, d.service);
    DataMeans(domain, base, reg, d.service, SrvOf(domain, d));
    DataMeans(domain, base, reg, d.service, TxtOf(domain, d));
  }

  lemma NoClash(reg: Registry, s: Service)
    requires Sound(reg) && s in reg.live
    ensures !Clashes(s)
  {
  }

  lemma {:induction false} StaysLive(before: seq<Event>, since: seq<Event>, d: ServiceData)
    requires d.service !in RegistryAfter(before).live
    requires forall e :: e in since ==> !(e.Leave? && e.service == d.service)
    ensures var reg := RegistryAfter(before + [Register(d)] + since); d.service in reg.live && reg.live[d.service] == d
  {
    var run := before + [Register(d)] + since;
    if since == [] {
      assert run == before + [Register(d)] && run[..|run| - 1] == before;
    } else {
      var n := |since| - 1;
      assert run[..|run| - 1] == before + [Register(d)] + since[..n];
      StaysLive(before, since[..n], d);
      assert since[n] in since;
    }
  }

  // ----- registering and unregistering again

  function RegisteredAndLeft(reg: Registry, d: ServiceData): Registry {
    Untyped(Departed(Joined(reg, d), d.service, d.subtypes), d.service.base)
  }

  lemma RegistryRestored(reg: Registry, d: ServiceData)
    requires d.service !in reg.live
    ensures var after := RegisteredAndLeft(reg, d);
            && (d.service.base in after.types <==> HasInstance(reg, d.service.base))
            && (forall sub :: sub in d.subtypes ==> Pointer(sub, d.service) !in after.pointers)
            && ((d.service.base in reg.types <==> HasInstance(reg, d.service.base))
                && (forall sub :: sub in d.subtypes ==> Pointer(sub, d.service) !in reg.pointers)
                ==> after == reg)
  {
    var s, b := d.service, d.service.base;
    var left := Departed(Joined(reg, d), s, d.subtypes);
    assert left.live == reg.live;
    assert HasInstance(left, b) <==> HasInstance(reg, b) by {
      hide Departed, Joined;
    }
    if forall sub :: sub in d.subtypes ==> Pointer(sub, s) !in reg.pointers {
      assert left.pointers == reg.pointers;
    }
  }

  lemma ZoneOfRegisterAndLeave(domain: Name, base: Zone, reg: Registry, d: ServiceData)
    requires Foreign(domain, base) && Sound(reg) && Wellformed(Register(d)) && d.service !in reg.live
    ensures var there := Effect(Encode(domain, base, reg), RegisterUpdate(domain, d));
            var gone := Effect(there, LeaveUpdate(domain, d.service, d.subtypes));
            Effect(gone, TidyUpdate(domain, d.service.base)) == Encode(domain, base, RegisteredAndLeft(reg, d))
    ensures Sound(RegisteredAndLeft(reg, d))
  {
    hide Foreign, Sound, Encode, RegisterUpdate, LeaveUpdate, TidyUpdate, Answer, ChangeAll, Untyped, Departed;
    var s, b := d.service, d.service.base;
    var sys := System(Encode(domain, base, reg), multiset{}, {});
    StepEncodes(domain, base, sys, reg, Register(d));
    AdvanceSound(reg, Register(d));
    var sys1, reg1 := Step(domain, sys, Register(d)), Joined(reg, d);
    StepEncodes(domain, base, sys1, reg1, Leave(s, d.subtypes));
    AdvanceSound(reg1, Leave(s, d.subtypes));
    assert s in reg1.live;
    var sys2, reg2 := Step(domain, sys1, Leave(s, d.subtypes)), Departed(reg1, s, d.subtypes);
    StepEncodes(domain, base, sys2, reg2, Tidy(b));
    AdvanceSound(reg2, Tidy(b));
  }

  /** Registering a service, then unregistering it, gives back the zone exactly when the type was listed just if it was
      in use, and no pointer was left from an earlier registration of the name. */
  lemma RegisterThenUnregister(domain: Name, base: Zone, reg: Registry, d: ServiceData)
    requires Foreign(domain, base) && Sound(reg) && Wellformed(Register(d)) && d.service !in reg.live
    ensures var zone := Encode(domain, base, reg);
            var b := d.service.base;
            var there := Effect(zone, RegisterUpdate(domain, d));
            var gone := Effect(there, LeaveUpdate(domain, d.service, d.subtypes));
            Effect(gone, TidyUpdate(domain, b)) == zone <==>
              && (TypePtr(domain, b) in zone <==> Owns(zone, TypeName(domain, b)))
              && forall sub :: sub in d.subtypes ==> SubtypePtr(domain, sub, d.service) !in zone
  {
    hide Foreign, Sound, Encode, RegisterUpdate, LeaveUpdate, TidyUpdate, Effect, TypePtr, TypeName, SubtypePtr, Owns,
         RegisteredAndLeft, HasInstance, Clashes;
    var b, after := d.service.base, RegisteredAndLeft(reg, d);
    ZoneOfRegisterAndLeave(domain, base, reg, d);
    RegistryRestored(reg, d);
    OwnsTypeName(domain, base, reg, b);
    TypePtrMeans(domain, base, reg, b);
    TypePtrMeans(domain, base, after, b);
    forall sub | sub in d.subtypes
      ensures SubtypePtr(domain, sub, d.service) in Encode(domain, base, reg) <==> Pointer(sub, d.service) in reg.pointers
      ensures SubtypePtr(domain, sub, d.service) !in Encode(domain, base, after)
    {
      SubtypePtrMeans(domain, base, reg, Pointer(sub, d.service));
      SubtypePtrMeans(domain, base, after, Pointer(sub, d.service));
    }
  }

  // ----- subtypes

  /** The subtypes point at exactly the services that were registered with them. */
  ghost predicate Exact(reg: Registry) {
    forall p :: p in reg.pointers <==> p.service in reg.live && p.sub in reg.live[p.service].subtypes
  }

  /** Each service is unregistered with at least the subtypes it was registered with. */
  predicate Faithful(run: seq<Event>) {
    run == [] || (Faithful(run[..|run| - 1]) && PassesSubtypes(RegistryAfter(run[..|run| - 1]), run[|run| - 1]))
  }

  predicate PassesSubtypes(reg: Registry, e: Event) {
    e.Leave? && e.service in reg.live ==> forall sub :: sub in reg.live[e.service].subtypes ==> sub in e.subtypes
  }

  /** Unregistering keeps the subtypes exact exactly when all those of the registration are passed. */
  lemma DepartureExactIff(reg: Registry, s: Service, subs: seq<Name>)
    requires Exact(reg) && s in reg.live
    ensures Exact(Departed(reg, s, subs)) <==> forall sub :: sub in reg.live[s].subtypes ==> sub in subs
  {
    var after := Departed(reg, s, subs);
    forall p: Pointer
      ensures p in after.pointers <==> p in reg.pointers && !(p.service == s && p.sub in subs)
    {
    }
    forall sub | sub in reg.live[s].subtypes
      ensures Pointer(sub, s) in after.pointers <==> sub !in subs
    {
      assert Pointer(sub, s) in reg.pointers;
    }
  }

  lemma AdvanceExact(reg: Registry, e: Event)
    requires Exact(reg) && PassesSubtypes(reg, e) && Sound(reg)
    ensures Exact(Advance(reg, e))
  {
    if e.Leave? && e.service in reg.live {
      DepartureExactIff(reg, e.service, e.subtypes);
    } else if e.Register? && e.data.service !in reg.live {
      forall p: Pointer
        ensures p in PointersOf(e.data.subtypes, e.data.service) <==> p.service == e.data.service && p.sub in e.data.subtypes
      {
      }
    }
  }

  lemma {:induction false} RunExact(domain: Name, base: Zone, run: seq<Event>)
    requires Foreign(domain, base) && IsRun(domain, base, run) && Faithful(run)
    ensures Exact(RegistryAfter(run))
  {
    hide Foreign, Exact, Advance, PassesSubtypes, Enabled, After;
    if run == [] {
      EmptyExact();
    } else {
      var before := run[..|run| - 1];
      RunExact(domain, base, before);
      RunEncodes(domain, base, before);
      AdvanceExact(RegistryAfter(before), run[|run| - 1]);
    }
  }

  lemma EmptyExact()
    ensures Exact(EMPTY)
  {
  }
}
