/** Registering and unregistering a service by DNS updates. */
module Registrators {
  import opened Sequences
  import opened ServiceTypes
  import opened TxtRecord
  import opened DnsZone

  /** A service type without its subtypes. */
  datatype BaseType = BaseType(kind: string, transport: Transport)

  /** What a service name is compared by, in one domain. */
  datatype Service = Service(instance: string, base: BaseType)

  /** A subtype is a non-empty relative name, since the text of one may hold dots. */
  datatype ServiceData = ServiceData(
    service: Service, subtypes: seq<Name>, port: nat, host: Name, properties: seq<Property>)

  // ----- the names a service uses

  const SERVICES: Name := ["_services", "_dns-sd", "_udp"]

  function ServicesName(domain: Name): (n: Name)
    ensures |n| == |domain| + 3 && n[0] == "_services" && n[1] == "_dns-sd" && n[2] == "_udp"
  {
    SERVICES + domain
  }

  function TypeName(domain: Name, b: BaseType): (n: Name)
    ensures |n| == |domain| + 2 && n[0] == b.kind && n[1] == Label(b.transport) && n[2..] == domain
  {
    [b.kind, Label(b.transport)] + domain
  }

  function DnsName(domain: Name, s: Service): (n: Name)
    ensures |n| == |domain| + 3 && n[0] == s.instance && n[1] == s.base.kind && n[2] == Label(s.base.transport)
    ensures n[3..] == domain
  {
    [s.instance, s.base.kind, Label(s.base.transport)] + domain
  }

  function SubtypeName(domain: Name, sub: Name, b: BaseType): (n: Name)
    ensures |n| == |sub| + |domain| + 3 && n[..|sub|] == sub && n[|sub|] == "_sub" && n[|sub| + 1] == b.kind
    ensures n[|sub| + 2] == Label(b.transport) && n[|sub| + 3..] == domain
  {
    sub + ["_sub", b.kind, Label(b.transport)] + domain
  }

  lemma LabelInjective(t: Transport, u: Transport)
    ensures Label(t) == Label(u) ==> t == u
  {
    assert "_tcp"[1] != "_udp"[1];
  }

  /** The one service whose name is that of the list of service types. */
  predicate Clashes(s: Service) { s.instance == "_services" && s.base == BaseType("_dns-sd", UDP) }

  lemma DnsNameInjective(domain: Name, s: Service, t: Service)
    ensures DnsName(domain, s) == DnsName(domain, t) ==> s == t
    ensures DnsName(domain, s) == ServicesName(domain) <==> Clashes(s)
  {
    LabelInjective(s.base.transport, t.base.transport);
    LabelInjective(s.base.transport, UDP);
  }

  lemma TypeNameInjective(domain: Name, b: BaseType, c: BaseType)
    ensures TypeName(domain, b) == TypeName(domain, c) ==> b == c
  {
    LabelInjective(b.transport, c.transport);
  }

  // ----- the records of a service

  function TypePtr(domain: Name, b: BaseType): Record { Ptr(ServicesName(domain), TypeName(domain, b)) }

  function InstancePtr(domain: Name, s: Service): Record { Ptr(TypeName(domain, s.base), DnsName(domain, s)) }

  function SubtypePtr(domain: Name, sub: Name, s: Service): Record {
    Ptr(SubtypeName(domain, sub, s.base), DnsName(domain, s))
  }

  function SubtypePtrs(domain: Name, subs: seq<Name>, s: Service): (rs: seq<Record>)
    ensures |rs| == |subs| && forall i :: 0 <= i < |subs| ==> rs[i] == SubtypePtr(domain, subs[i], s)
  {
    seq(|subs|, i requires 0 <= i < |subs| => SubtypePtr(domain, subs[i], s))
  }

  function SrvOf(domain: Name, d: ServiceData): Record { Srv(DnsName(domain, d.service), 0, 0, d.port, d.host) }

  function TxtOf(domain: Name, d: ServiceData): Record {
    Txt(DnsName(domain, d.service), TxtStrings(d.properties))
  }

  // ----- the updates

  function RegisterUpdate(domain: Name, d: ServiceData): Update {
    Update([NotInUse(DnsName(domain, d.service))],
           Adds([TypePtr(domain, d.service.base), InstancePtr(domain, d.service)]
                + SubtypePtrs(domain, d.subtypes, d.service) + [SrvOf(domain, d), TxtOf(domain, d)]))
  }

  function LeaveUpdate(domain: Name, s: Service, subs: seq<Name>): Update {
    Update([InUse(DnsName(domain, s))],
           Deletes([InstancePtr(domain, s)] + SubtypePtrs(domain, subs, s)) + [DeleteName(DnsName(domain, s))])
  }

  function TidyUpdate(domain: Name, b: BaseType): Update {
    Update([NotInUse(TypeName(domain, b))], [DeleteRecord(TypePtr(domain, b))])
  }

  datatype Outcome = Done | NotDone | Failed(code: Rcode)

  class Registrator {
    const domain: Name

    constructor (domain: Name)
      ensures this.domain == domain
    {
      this.domain := domain;
    }

    /** Registers a service unless its name is already in use. */
    method RegisterService(server: Server, d: ServiceData, refuse: bool) returns (r: Outcome)
      modifies server
      ensures r == if refuse then Failed(Refused)
                   else if Owns(old(server.zone), DnsName(domain, d.service)) then NotDone else Done
      ensures r != Done ==> server.zone == old(server.zone)
      ensures r == Done ==> server.zone == old(server.zone) + Registered(domain, d)
    {
      var dnsName, typeName := DnsName(domain, d.service), TypeName(domain, d.service.base);
      var subtypes := SubtypeNames(d.service.base, d.subtypes);
      var strings := BuildTxt(d.properties);
      var records := [Ptr(ServicesName(domain), typeName), Ptr(typeName, dnsName)];
      for i := 0 to |subtypes|
        invariant records == [TypePtr(domain, d.service.base), InstancePtr(domain, d.service)]
                             + SubtypePtrs(domain, d.subtypes[..i], d.service)
      {
        records := records + [Ptr(subtypes[i], dnsName)];
        assert SubtypePtrs(domain, d.subtypes[..i + 1], d.service)
            == SubtypePtrs(domain, d.subtypes[..i], d.service) + [SubtypePtr(domain, d.subtypes[i], d.service)];
      }
      assert d.subtypes[..|subtypes|] == d.subtypes;
      records := records + [Srv(dnsName, 0, 0, d.port, d.host)];
      records := records + [Txt(dnsName, strings)];
      var update := Update([NotInUse(dnsName)], Adds(records));
      assert update == RegisterUpdate(domain, d) by {
        assert records == [TypePtr(domain, d.service.base), InstancePtr(domain, d.service)]
                          + SubtypePtrs(domain, d.subtypes, d.service) + [SrvOf(domain, d), TxtOf(domain, d)];
      }
      RegisterEffect(domain, server.zone, d);
      var code := server.Send(update, refuse);
      match code
      case NoError => r := Done;
      case YXDomain => r := NotDone;
      case _ => r := Failed(code);
    }

    method SubtypeNames(b: BaseType, subs: seq<Name>) returns (names: seq<Name>)
      ensures |names| == |subs| && forall i :: 0 <= i < |subs| ==> names[i] == SubtypeName(domain, subs[i], b)
    {
      names := [];
      for i := 0 to |subs|
        invariant |names| == i && forall j :: 0 <= j < i ==> names[j] == SubtypeName(domain, subs[j], b)
      {
        names := names + [SubtypeName(domain, subs[i], b)];
      }
    }

    /** Removes a service and then, in an update of its own, its type if no instance is left. The server may take
        updates of other clients between the two. */
    method UnregisterService(server: Server, s: Service, subs: seq<Name>, refuse: bool, others: seq<Update>,
                             refuseSecond: bool)
        returns (r: Outcome)
      modifies server
      ensures r == if refuse then Failed(Refused)
                   else if Owns(old(server.zone), DnsName(domain, s)) then Done else NotDone
      ensures r != Done ==> server.zone == old(server.zone)
      ensures r == Done ==>
                var meanwhile := Effects(Unregistered(domain, old(server.zone), s, subs), others);
                server.zone == if refuseSecond then meanwhile else Tidied(domain, meanwhile, s.base)
    {
      var dnsName, typeName := DnsName(domain, s), TypeName(domain, s.base);
      var subtypes := SubtypeNames(s.base, subs);
      var records := [Ptr(typeName, dnsName)];
      for i := 0 to |subtypes|
        invariant records == [InstancePtr(domain, s)] + SubtypePtrs(domain, subs[..i], s)
      {
        records := records + [Ptr(subtypes[i], dnsName)];
        assert SubtypePtrs(domain, subs[..i + 1], s)
            == SubtypePtrs(domain, subs[..i], s) + [SubtypePtr(domain, subs[i], s)];
      }
      assert subs[..|subtypes|] == subs;
      var update := Update([InUse(dnsName)], Deletes(records) + [DeleteName(dnsName)]);
      LeaveEffect(domain, server.zone, s, subs);
      var code := server.Send(update, refuse);
      match code {
        case NoError =>
        case NXDomain => return NotDone;
        case _ => return Failed(code);
      }
      server.SendAll(others);
      TidyEffect(domain, server.zone, s.base);
      update := Update([NotInUse(typeName)], [DeleteRecord(Ptr(ServicesName(domain), typeName))]);
      code := server.Send(update, refuseSecond);
      r := Done;
    }
  }

  // ----- what the updates do to a zone

  /** Everything that registering a service adds. */
  function Registered(domain: Name, d: ServiceData): Zone {
    {TypePtr(domain, d.service.base), InstancePtr(domain, d.service), SrvOf(domain, d), TxtOf(domain, d)}
    + ToSet(SubtypePtrs(domain, d.subtypes, d.service))
  }

  /** The records that unregistering a service takes out. */
  predicate Leaves(domain: Name, s: Service, subs: seq<Name>, r: Record) {
    r == InstancePtr(domain, s) || r in SubtypePtrs(domain, subs, s) || r.owner == DnsName(domain, s)
  }

  function Unregistered(domain: Name, zone: Zone, s: Service, subs: seq<Name>): Zone {
    set r | r in zone && !Leaves(domain, s, subs, r)
  }

  /** The zone without a type that has no instance. */
  function Tidied(domain: Name, zone: Zone, b: BaseType): Zone {
    if Owns(zone, TypeName(domain, b)) then zone else zone - {TypePtr(domain, b)}
  }

  lemma RegisterEffect(domain: Name, zone: Zone, d: ServiceData)
    ensures var u := RegisterUpdate(domain, d);
            Answer(zone, u.prerequisites) == if Owns(zone, DnsName(domain, d.service)) then YXDomain else NoError
    ensures var u := RegisterUpdate(domain, d); ChangeAll(zone, u.changes) == zone + Registered(domain, d)
  {
    hide TypePtr, InstancePtr, SrvOf, TxtOf, SubtypePtrs, ChangeAll, Owns;
    var head, subs := [TypePtr(domain, d.service.base), InstancePtr(domain, d.service)],
                      SubtypePtrs(domain, d.subtypes, d.service);
    var last := [SrvOf(domain, d), TxtOf(domain, d)];
    AddsAddAll(zone, head + subs + last);
    assert ToSet(head + subs + last) == Registered(domain, d);
  }

  lemma LeaveEffect(domain: Name, zone: Zone, s: Service, subs: seq<Name>)
    ensures var u := LeaveUpdate(domain, s, subs);
            Answer(zone, u.prerequisites) == if Owns(zone, DnsName(domain, s)) then NoError else NXDomain
    ensures var u := LeaveUpdate(domain, s, subs);
            ChangeAll(zone, u.changes) == Unregistered(domain, zone, s, subs)
  {
    hide InstancePtr, SubtypePtrs, DnsName, Owns;
    var rs, last := [InstancePtr(domain, s)] + SubtypePtrs(domain, subs, s), [DeleteName(DnsName(domain, s))];
    DeletesDeleteAll(zone, rs);
    ChangeMore(zone, Deletes(rs), last);
    assert last[..0] == [];
    assert ChangeAll(zone - ToSet(rs), last) == ChangeOne(zone - ToSet(rs), last[0]);
  }

  lemma TidyEffect(domain: Name, zone: Zone, b: BaseType)
    ensures Effect(zone, TidyUpdate(domain, b)) == Tidied(domain, zone, b)
  {
    hide TypePtr, TypeName, Owns;
    var u := TidyUpdate(domain, b);
    assert u.prerequisites[1..] == [] && u.changes[..0] == [];
    assert ChangeAll(zone, u.changes) == ChangeOne(zone, DeleteRecord(TypePtr(domain, b)));
    assert Answer(zone, u.prerequisites) == Check(zone, NotInUse(TypeName(domain, b)));
  }
}
