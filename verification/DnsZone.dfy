/** A DNS zone that changes by guarded atomic updates (sections 2.4, 2.5, 3.2 and 3.4 of RFC 2136). */
module DnsZone {
  import opened Sequences

  /** The labels of a name in canonical letter case, leftmost first, without the root. */
  type Name = seq<string>

  datatype Record =
    | Ptr(owner: Name, target: Name)
    | Srv(owner: Name, priority: nat, weight: nat, port: nat, host: Name)
    | Txt(owner: Name, strings: seq<string>)
    | Other(owner: Name, kind: nat, data: string)

  type Zone = set<Record>

  datatype Prerequisite = InUse(name: Name) | NotInUse(name: Name)

  datatype Change = Add(record: Record) | DeleteRecord(record: Record) | DeleteName(name: Name)

  datatype Update = Update(prerequisites: seq<Prerequisite>, changes: seq<Change>)

  datatype Rcode = NoError | YXDomain | NXDomain | Refused

  // ----- what an update means

  /** A name is in use when it owns a record; one that is only the ending of other names is not. */
  predicate Owns(zone: Zone, name: Name) { exists r :: r in zone && r.owner == name }

  function Check(zone: Zone, p: Prerequisite): Rcode {
    match p
    case InUse(n) => if Owns(zone, n) then NoError else NXDomain
    case NotInUse(n) => if Owns(zone, n) then YXDomain else NoError
  }

  /** The first prerequisite that fails decides the answer. */
  function Answer(zone: Zone, ps: seq<Prerequisite>): Rcode {
    if ps == [] then NoError
    else if Check(zone, ps[0]) != NoError then Check(zone, ps[0])
    else Answer(zone, ps[1..])
  }

  function ChangeOne(zone: Zone, c: Change): Zone {
    match c
    case Add(r) => zone + {r}
    case DeleteRecord(r) => zone - {r}
    case DeleteName(n) => set r | r in zone && r.owner != n
  }

  function ChangeAll(zone: Zone, cs: seq<Change>): Zone {
    if cs == [] then zone else ChangeOne(ChangeAll(zone, cs[..|cs| - 1]), cs[|cs| - 1])
  }

  /** All changes of an accepted update happen at once; a rejected one changes nothing. */
  function Effect(zone: Zone, u: Update): Zone {
    if Answer(zone, u.prerequisites) == NoError then ChangeAll(zone, u.changes) else zone
  }

  class Server {
    var zone: Zone

    constructor (zone: Zone)
      ensures this.zone == zone
    {
      this.zone := zone;
    }

    /** Answers one update. A server that refuses, for whatever reason, changes nothing. */
    method Send(u: Update, refuse: bool) returns (code: Rcode)
      modifies this
      ensures code == if refuse then Refused else Answer(old(zone), u.prerequisites)
      ensures zone == if refuse then old(zone) else Effect(old(zone), u)
    {
      if refuse {
        return Refused;
      }
      for i := 0 to |u.prerequisites|
        invariant zone == old(zone)
        invariant Answer(zone, u.prerequisites[i..]) == Answer(zone, u.prerequisites)
      {
        assert u.prerequisites[i..][1..] == u.prerequisites[i + 1..];
        code := Check(zone, u.prerequisites[i]);
        if code != NoError {
          return;
        }
      }
      for i := 0 to |u.changes|
        invariant zone == ChangeAll(old(zone), u.changes[..i])
      {
        zone := ChangeOne(zone, u.changes[i]);
        assert u.changes[..i + 1][..i] == u.changes[..i];
      }
      assert u.changes[..|u.changes|] == u.changes;
      code := NoError;
    }

    /** Updates that other clients send, in the order in which the server takes them. */
    method SendAll(us: seq<Update>)
      modifies this
      ensures zone == Effects(old(zone), us)
    {
      for i := 0 to |us|
        invariant zone == Effects(old(zone), us[..i])
      {
        var _ := Send(us[i], false);
        assert us[..i + 1][..i] == us[..i];
      }
      assert us[..|us|] == us;
    }
  }

  function Effects(zone: Zone, us: seq<Update>): Zone {
    if us == [] then zone else Effect(Effects(zone, us[..|us| - 1]), us[|us| - 1])
  }

  // ----- many changes as one set operation

  lemma {:induction false} ChangeMore(zone: Zone, cs: seq<Change>, more: seq<Change>)
    ensures ChangeAll(zone, cs + more) == ChangeAll(ChangeAll(zone, cs), more)
  {
    if more == [] {
      assert cs + more == cs;
    } else {
      assert (cs + more)[..|cs + more| - 1] == cs + more[..|more| - 1];
      ChangeMore(zone, cs, more[..|more| - 1]);
    }
  }

  function Adds(rs: seq<Record>): (cs: seq<Change>)
    ensures |cs| == |rs| && forall i :: 0 <= i < |rs| ==> cs[i] == Add(rs[i])
  {
    seq(|rs|, i requires 0 <= i < |rs| => Add(rs[i]))
  }

  function Deletes(rs: seq<Record>): (cs: seq<Change>)
    ensures |cs| == |rs| && forall i :: 0 <= i < |rs| ==> cs[i] == DeleteRecord(rs[i])
  {
    seq(|rs|, i requires 0 <= i < |rs| => DeleteRecord(rs[i]))
  }

  lemma {:induction false} AddsAddAll(zone: Zone, rs: seq<Record>)
    ensures ChangeAll(zone, Adds(rs)) == zone + ToSet(rs)
  {
    if rs != [] {
      var n := |rs| - 1;
      AddsAddAll(zone, rs[..n]);
      assert Adds(rs)[..n] == Adds(rs[..n]);
      assert rs == rs[..n] + [rs[n]];
    }
  }

  lemma {:induction false} DeletesDeleteAll(zone: Zone, rs: seq<Record>)
    ensures ChangeAll(zone, Deletes(rs)) == zone - ToSet(rs)
  {
    if rs != [] {
      var n := |rs| - 1;
      DeletesDeleteAll(zone, rs[..n]);
      assert Deletes(rs)[..n] == Deletes(rs[..n]);
      assert rs == rs[..n] + [rs[n]];
    }
  }
}
