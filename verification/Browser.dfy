/** Browsing a domain: finding service instances, service types and the data of a service. */
module Browsers {
  import opened Options
  import opened Sequences
  import opened Strings
  import opened ServiceTypes
  import opened TxtRecord
  import opened DnsZone
  import opened Registrators

  /** A service and the domain it was found in. */
  datatype Found = Found(service: Service, domain: Name)

  /** What a lookup tells about a service. */
  datatype Facts = Facts(host: Name, port: nat, properties: map<string, Option<string>>)

  function FromDnsName(n: Name): Option<Found> {
    if |n| < 3 then None
    else
      var transport := FromLabel(n[2]);
      if transport.Failure? then None else Some(Found(Service(n[0], BaseType(n[1], transport.value)), n[3..]))
  }

  function TypeFromName(n: Name): Option<BaseType> {
    if |n| < 2 then None
    else
      var transport := FromLabel(n[1]);
      if transport.Failure? then None else Some(BaseType(n[0], transport.value))
  }

  // ----- lookups

  function PtrsAt(zone: Zone, n: Name): set<Record> { set r | r in zone && r.Ptr? && r.owner == n }

  function SrvsAt(zone: Zone, n: Name): set<Record> { set r | r in zone && r.Srv? && r.owner == n }

  function TxtsAt(zone: Zone, n: Name): set<Record> { set r | r in zone && r.Txt? && r.owner == n }

  /** The services that the records point at. */
  function FoundIn(records: set<Record>): set<Found> {
    set r | r in records && r.Ptr? && FromDnsName(r.target).Some? :: FromDnsName(r.target).value
  }

  function TypesIn(records: set<Record>): set<BaseType> {
    set r | r in records && r.Ptr? && TypeFromName(r.target).Some? :: TypeFromName(r.target).value
  }

  /** The names to look up: that of the type, or those of its subtypes. */
  function BrowseNames(domain: Name, b: BaseType, subs: seq<Name>): set<Name> {
    if subs == [] then {TypeName(domain, b)} else set sub | sub in subs :: SubtypeName(domain, sub, b)
  }

  function InstancesAt(zone: Zone, names: set<Name>): set<Found> {
    set n, f | n in names && f in FoundIn(PtrsAt(zone, n)) :: f
  }

  /** What may be answered about a service: nothing if it has no SRV record, else what one SRV record and, if there is
      any, one TXT record say. */
  predicate MayAnswer(lower: CaseMap, zone: Zone, f: Found, r: Option<Facts>) {
    var srvs, txts := SrvsAt(zone, DnsName(f.domain, f.service)), TxtsAt(zone, DnsName(f.domain, f.service));
    if r.None? then srvs == {}
    else
      && (exists srv :: srv in srvs && r.value.host == srv.host && r.value.port == srv.port)
      && if txts == {} then r.value.properties == map[]
         else exists txt :: txt in txts && r.value.properties == ReadStrings(lower, txt.strings)
  }

  /** The targets of the pointers write their transports in canonical letter case. */
  predicate Canonical(records: set<Record>) {
    forall r :: r in records && r.Ptr? && |r.target| >= 3 ==> IsLower(r.target[2])
  }

  // ----- what a name stands for

  /** A name stands for a service exactly if its third label is that of the transport, in any letter case. */
  lemma FromDnsNameMeans(n: Name, f: Found)
    ensures FromDnsName(n) == Some(f) <==>
              && |n| >= 3 && Names(n[2], f.service.base.transport)
              && n == [f.service.instance, f.service.base.kind, n[2]] + f.domain
  {
    hide FromLabel, Names;
    if |n| >= 3 {
      FromLabelOf(n[2], f.service.base.transport);
      assert n == n[..3] + n[3..] && n[..3] == [n[0], n[1], n[2]];
    }
  }

  lemma TypeFromNameMeans(n: Name, b: BaseType)
    ensures TypeFromName(n) == Some(b) <==> |n| >= 2 && n[0] == b.kind && Names(n[1], b.transport)
  {
    hide FromLabel, Names;
    if |n| >= 2 { FromLabelOf(n[1], b.transport); }
  }

  // ----- how often a service is listed

  /** The pointers that name a service. */
  function Naming(records: set<Record>, f: Found): set<Record> {
    set r | r in records && r.Ptr? && FromDnsName(r.target) == Some(f)
  }

  /** How often a service is listed for one domain: once for each pointer, or once if it is found under subtypes. */
  function Occurrences(zone: Zone, domain: Name, b: BaseType, subs: seq<Name>, f: Found): nat {
    if subs == [] then |Naming(PtrsAt(zone, TypeName(domain, b)), f)|
    else if f in InstancesAt(zone, BrowseNames(domain, b, subs)) then 1
    else 0
  }

  function Times(zone: Zone, domains: seq<Name>, b: BaseType, subs: seq<Name>, f: Found): nat {
    if domains == [] then 0
    else Times(zone, domains[..|domains| - 1], b, subs, f) + Occurrences(zone, domains[|domains| - 1], b, subs, f)
  }

  /** No two pointers at the name of the type stand for one service. */
  predicate NamedOnce(zone: Zone, domain: Name, b: BaseType, subs: seq<Name>) {
    subs != [] || Canonical(PtrsAt(zone, TypeName(domain, b)))
  }

  lemma NamingMore(done: set<Record>, r: Record, f: Found)
    requires r !in done && r.Ptr?
    ensures |Naming(done + {r}, f)| == |Naming(done, f)| + if FromDnsName(r.target) == Some(f) then 1 else 0
  {
    hide FromDnsName;
    assert Naming(done + {r}, f) == Naming(done, f) + if FromDnsName(r.target) == Some(f) then {r} else {};
  }

  lemma ListedOnce(zone: Zone, domain: Name, b: BaseType, subs: seq<Name>, f: Found)
    requires NamedOnce(zone, domain, b, subs)
    ensures Occurrences(zone, domain, b, subs, f) == if f in InstancesAt(zone, BrowseNames(domain, b, subs)) then 1 else 0
  {
    hide FromDnsName, TypeName, SubtypeName, IsLower;
    if subs == [] {
      var records := PtrsAt(zone, TypeName(domain, b));
      var naming := Naming(records, f);
      if r :| r in naming {
        forall q | q in naming
          ensures q == r
        {
          NameParts(q.target, f);
          NameParts(r.target, f);
          FromDnsNameInjective(q.target, r.target);
        }
        assert naming == {r} && f in FoundIn(records);
      } else {
        assert naming == {};
        assert forall r :: r in records && r.Ptr? ==> r !in naming;
      }
    }
  }

  lemma NameParts(n: Name, f: Found)
    requires FromDnsName(n) == Some(f)
    ensures |n| >= 3
  {
  }

  /** The positions of the domains in which a service is found. */
  function Positions(zone: Zone, domains: seq<Name>, b: BaseType, subs: seq<Name>, f: Found): set<nat> {
    set i: nat | i < |domains| && f in InstancesAt(zone, BrowseNames(domains[i], b, subs))
  }

  /** Then every service is listed once for each domain in which it is found. */
  lemma {:induction false} TimesByPositions(zone: Zone, domains: seq<Name>, b: BaseType, subs: seq<Name>, f: Found)
    requires forall d :: d in domains ==> NamedOnce(zone, d, b, subs)
    ensures Times(zone, domains, b, subs, f) == |Positions(zone, domains, b, subs, f)|
  {
    hide InstancesAt, BrowseNames, NamedOnce, Occurrences;
    if domains == [] {
      assert Positions(zone, domains, b, subs, f) == {};
    } else {
      var n := |domains| - 1;
      TimesByPositions(zone, domains[..n], b, subs, f);
      ListedOnce(zone, domains[n], b, subs, f);
      assert Positions(zone, domains, b, subs, f) == Positions(zone, domains[..n], b, subs, f)
             + if f in InstancesAt(zone, BrowseNames(domains[n], b, subs)) then {n} else {};
    }
  }

  lemma FromDnsNameInjective(n: Name, m: Name)
    requires FromDnsName(n).Some? && FromDnsName(n) == FromDnsName(m)
    requires IsLower(n[2]) && IsLower(m[2])
    ensures n == m
  {
    hide FromLabel, Lower;
    var t := FromDnsName(n).value.service.base.transport;
    FromLabelOf(n[2], t);
    FromLabelOf(m[2], t);
    assert n == n[..3] + n[3..] && m == m[..3] + m[3..];
  }

  class Browser {
    const domains: seq<Name>

    constructor (domains: seq<Name>)
      ensures this.domains == domains
    {
      this.domains := domains;
    }

    /** The services that the pointers at a name point at; invalid ones are skipped. */
    method Collect(zone: Zone, name: Name) returns (results: seq<Found>)
      ensures ToSet(results) == FoundIn(PtrsAt(zone, name))
      ensures Canonical(PtrsAt(zone, name)) ==> Distinct(results)
      ensures forall f :: multiset(results)[f] == |Naming(PtrsAt(zone, name), f)|
    {
      hide FromDnsName, FoundIn, Canonical, Distinct, ToSet, Naming;
      EmptyList<Found>();
      NothingNamed();
      assert FoundIn({}) == {} by { NothingFound(); }
      results := [];
      var records := PtrsAt(zone, name);
      ghost var done: set<Record> := {};
      while records != {}
        invariant records + done == PtrsAt(zone, name) && records !! done
        invariant ToSet(results) == FoundIn(done)
        invariant Canonical(PtrsAt(zone, name)) ==> Distinct(results)
        invariant forall f :: multiset(results)[f] == |Naming(done, f)|
        decreases |records|
      {
        var r :| r in records;
        var found := FromDnsName(r.target);
        CountOne(done, r, results);
        CollectOne(PtrsAt(zone, name), done, r, results);
        if found.Some? {
          results := results + [found.value];
        }
        records, done := records - {r}, done + {r};
      }
      assert done == PtrsAt(zone, name);
    }

    method InstancesInDomain(zone: Zone, domain: Name, b: BaseType, subs: seq<Name>) returns (results: seq<Found>)
      ensures ToSet(results) == InstancesAt(zone, BrowseNames(domain, b, subs))
      ensures NamedOnce(zone, domain, b, subs) ==> Distinct(results)
      ensures forall f :: multiset(results)[f] == Occurrences(zone, domain, b, subs, f)
    {
      hide FoundIn, TypeName, SubtypeName, Distinct, Canonical, Naming;
      if subs == [] {
        results := Collect(zone, TypeName(domain, b));
        return;
      }
      var found: set<Found> := {};
      for i := 0 to |subs|
        invariant found == InstancesAt(zone, set sub | sub in subs[..i] :: SubtypeName(domain, sub, b))
      {
        var some := Collect(zone, SubtypeName(domain, subs[i], b));
        found := found + ToSet(some);
        assert subs[..i + 1] == subs[..i] + [subs[i]];
      }
      assert subs[..|subs|] == subs;
      results := ListOf(found);
      DistinctCounts(results);
    }

    method GetServiceInstances(zone: Zone, b: BaseType, subs: seq<Name>) returns (results: seq<Found>)
      ensures ToSet(results) == set d, f | d in domains && f in InstancesAt(zone, BrowseNames(d, b, subs)) :: f
      ensures forall f :: multiset(results)[f] == Times(zone, domains, b, subs, f)
      ensures (forall d :: d in domains ==> NamedOnce(zone, d, b, subs)) ==>
                forall f :: multiset(results)[f] == |Positions(zone, domains, b, subs, f)|
      ensures |domains| == 1 && NamedOnce(zone, domains[0], b, subs) ==> Distinct(results)
    {
      hide InstancesAt, BrowseNames, Occurrences, NamedOnce, Positions, Distinct;
      results := [];
      for i := 0 to |domains|
        invariant forall f :: multiset(results)[f] == Times(zone, domains[..i], b, subs, f)
        invariant i == 0 ==> results == []
        invariant i == 1 && NamedOnce(zone, domains[0], b, subs) ==> Distinct(results)
        invariant ToSet(results) == set d, f | d in domains[..i] && f in InstancesAt(zone, BrowseNames(d, b, subs)) :: f
      {
        var some := InstancesInDomain(zone, domains[i], b, subs);
        assert ToSet(results + some) == ToSet(results) + ToSet(some);
        assert domains[..i + 1][..i] == domains[..i] && [] + some == some;
        results := results + some;
      }
      assert domains[..|domains|] == domains;
      if forall d :: d in domains ==> NamedOnce(zone, d, b, subs) {
        forall f
          ensures multiset(results)[f] == |Positions(zone, domains, b, subs, f)|
        {
          TimesByPositions(zone, domains, b, subs, f);
        }
      }
    }

    method GetServiceTypes(zone: Zone) returns (results: set<BaseType>)
      ensures results == set d, b | d in domains && b in TypesIn(PtrsAt(zone, ServicesName(d))) :: b
    {
      hide TypesIn, ServicesName;
      results := {};
      for i := 0 to |domains|
        invariant results == set d, b | d in domains[..i] && b in TypesIn(PtrsAt(zone, ServicesName(d))) :: b
      {
        var some := TypesInDomain(zone, domains[i]);
        results := results + some;
      }
      assert domains[..|domains|] == domains;
    }

    method TypesInDomain(zone: Zone, domain: Name) returns (results: set<BaseType>)
      ensures results == TypesIn(PtrsAt(zone, ServicesName(domain)))
    {
      hide TypeFromName;
      results := {};
      var records := PtrsAt(zone, ServicesName(domain));
      ghost var done: set<Record> := {};
      while records != {}
        invariant records + done == PtrsAt(zone, ServicesName(domain))
        invariant results == TypesIn(done)
        decreases |records|
      {
        var r :| r in records;
        var b := TypeFromName(r.target);
        if b.Some? {
          results := results + {b.value};
        }
        records, done := records - {r}, done + {r};
      }
    }

    /** The data of a service, from any one of its SRV records and any one of its TXT records. */
    method GetServiceData(lower: CaseMap, zone: Zone, f: Found) returns (r: Option<Facts>)
      ensures MayAnswer(lower, zone, f, r)
    {
      var name := DnsName(f.domain, f.service);
      var records := SrvsAt(zone, name);
      if records == {} {
        return None;
      }
      var srv :| srv in records;
      records := TxtsAt(zone, name);
      if records == {} {
        return Some(Facts(srv.host, srv.port, map[]));
      }
      var txt :| txt in records;
      var properties := ReadTxt(lower, txt.strings);
      r := Some(Facts(srv.host, srv.port, properties));
    }
  }

  method ListOf<T(==)>(s: set<T>) returns (xs: seq<T>)
    ensures ToSet(xs) == s && Distinct(xs)
  {
    hide Distinct, ToSet;
    xs := [];
    assert ToSet(xs) == {} && Distinct(xs) by { EmptyList<T>(); }
    var rest := s;
    while rest != {}
      invariant ToSet(xs) + rest == s && ToSet(xs) !! rest && Distinct(xs)
      decreases |rest|
    {
      var x :| x in rest;
      AppendOne(xs, x);
      xs := xs + [x];
      rest := rest - {x};
    }
  }

  lemma EmptyList<T>()
    ensures ToSet<T>([]) == {} && Distinct<T>([])
  {
  }

  lemma NothingNamed()
    ensures forall f :: |Naming({}, f)| == 0
  {
    assert forall f :: Naming({}, f) == {};
  }

  lemma CountOne(done: set<Record>, r: Record, results: seq<Found>)
    requires r !in done && r.Ptr? && forall f :: multiset(results)[f] == |Naming(done, f)|
    ensures var found := FromDnsName(r.target);
            var next := if found.Some? then results + [found.value] else results;
            forall f :: multiset(next)[f] == |Naming(done + {r}, f)|
  {
    hide FromDnsName, Naming;
    forall f
      ensures |Naming(done + {r}, f)| == |Naming(done, f)| + if FromDnsName(r.target) == Some(f) then 1 else 0
    {
      NamingMore(done, r, f);
    }
  }

  lemma {:induction false} DistinctCounts<T>(xs: seq<T>)
    requires Distinct(xs)
    ensures forall x :: multiset(xs)[x] == if x in ToSet(xs) then 1 else 0
  {
    if xs != [] {
      var n := |xs| - 1;
      DistinctCounts(xs[..n]);
      assert xs == xs[..n] + [xs[n]];
      assert xs[n] !in xs[..n];
    }
  }

  lemma NothingFound()
    ensures FoundIn({}) == {}
  {
  }

  lemma FoundInMore(done: set<Record>, r: Record)
    requires r.Ptr?
    ensures FoundIn(done + {r}) == FoundIn(done) + if FromDnsName(r.target).Some? then {FromDnsName(r.target).value} else {}
  {
    hide FromDnsName;
  }

  lemma AppendOne<T>(xs: seq<T>, x: T)
    ensures ToSet(xs + [x]) == ToSet(xs) + {x}
    ensures Distinct(xs) && x !in ToSet(xs) ==> Distinct(xs + [x])
  {
  }

  lemma CollectOne(all: set<Record>, done: set<Record>, r: Record, results: seq<Found>)
    requires r in all && r !in done && done <= all && ToSet(results) == FoundIn(done)
    requires forall q :: q in all ==> q.Ptr? && q.owner == r.owner
    ensures var found := FromDnsName(r.target);
            var next := if found.Some? then results + [found.value] else results;
            ToSet(next) == FoundIn(done + {r}) && (Canonical(all) && Distinct(results) ==> Distinct(next))
  {
    hide FromDnsName, FoundIn, Canonical, Distinct, ToSet;
    FoundInMore(done, r);
    var found := FromDnsName(r.target);
    if found.Some? {
      AppendOne(results, found.value);
      if Canonical(all) { NotYetFound(all, done, r); }
    }
  }

  lemma NotYetFound(all: set<Record>, done: set<Record>, r: Record)
    requires forall q :: q in all ==> q.Ptr? && q.owner == r.owner
    requires r in all && r !in done && done <= all && Canonical(all) && FromDnsName(r.target).Some?
    ensures FromDnsName(r.target).value !in FoundIn(done)
  {
    hide IsLower;
    forall q | q in done && FromDnsName(q.target) == FromDnsName(r.target)
      ensures false
    {
      FromDnsNameInjective(q.target, r.target);
    }
  }
}
