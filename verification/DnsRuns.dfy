/** Every interleaving of the updates that registering and unregistering clients send. */
module DnsRuns {
  import opened DnsZone
  import opened Registrators
  import opened Registries

  /** Unregistering is two events: the service leaves, and later its type is tidied away, or the client gives up on
      that after an error. A refused first update changes nothing and is no event. */
  datatype Event =
    | Register(data: ServiceData)
    | Leave(service: Service, subtypes: seq<Name>)
    | Tidy(base: BaseType)
    | GiveUp(base: BaseType)

  /** `pending`: types whose second update is still to come. `failed`: types whose last second update failed. */
  datatype System = System(zone: Zone, pending: multiset<BaseType>, failed: set<BaseType>)

  predicate Wellformed(e: Event) {
    match e
    case Register(d) => !Clashes(d.service) && NonEmpty(d.subtypes)
    case Leave(s, subs) => !Clashes(s) && NonEmpty(subs)
    case _ => true
  }

  predicate Enabled(sys: System, e: Event) {
    Wellformed(e) && (e.Tidy? || e.GiveUp? ==> e.base in sys.pending)
  }

  // ----- the zone during a run

  function Step(domain: Name, sys: System, e: Event): System {
    match e
    case Register(d) => sys.(zone := Effect(sys.zone, RegisterUpdate(domain, d)))
    case Leave(s, subs) =>
      var u := LeaveUpdate(domain, s, subs);
      if Answer(sys.zone, u.prerequisites) == NoError
      then sys.(zone := Effect(sys.zone, u), pending := sys.pending + multiset{s.base})
      else sys
    case Tidy(b) =>
      System(Effect(sys.zone, TidyUpdate(domain, b)), sys.pending - multiset{b}, sys.failed - {b})
    case GiveUp(b) => System(sys.zone, sys.pending - multiset{b}, sys.failed + {b})
  }

  function After(domain: Name, base: Zone, run: seq<Event>): System {
    if run == [] then System(base, multiset{}, {})
    else Step(domain, After(domain, base, run[..|run| - 1]), run[|run| - 1])
  }

  predicate IsRun(domain: Name, base: Zone, run: seq<Event>) {
    run == [] || (IsRun(domain, base, run[..|run| - 1])
                  && Enabled(After(domain, base, run[..|run| - 1]), run[|run| - 1]))
  }

  // ----- the registry during a run

  function Advance(reg: Registry, e: Event): Registry {
    match e
    case Register(d) => if d.service in reg.live then reg else Joined(reg, d)
    case Leave(s, subs) => if s in reg.live then Departed(reg, s, subs) else reg
    case Tidy(b) => Untyped(reg, b)
    case GiveUp(_) => reg
  }

  function RegistryAfter(run: seq<Event>): Registry {
    if run == [] then EMPTY else Advance(RegistryAfter(run[..|run| - 1]), run[|run| - 1])
  }

  /** Every type of a registered service is listed. */
  ghost predicate Covered(reg: Registry) { forall s :: s in reg.live ==> s.base in reg.types }

  /** A listed type without instances is one whose removal is pending or has failed. */
  ghost predicate Tight(reg: Registry, sys: System) {
    forall b :: b in reg.types ==> HasInstance(reg, b) || b in sys.pending || b in sys.failed
  }

  // ----- one step

  lemma AdvanceSound(reg: Registry, e: Event)
    requires Sound(reg) && Wellformed(e)
    ensures Sound(Advance(reg, e))
  {
  }

  lemma AdvanceCovered(reg: Registry, e: Event)
    requires Covered(reg)
    ensures Covered(Advance(reg, e))
  {
    if e.Tidy? {
      var after := Advance(reg, e);
      forall s | s in after.live
        ensures s.base in after.types
      {
        assert HasInstance(reg, s.base);
      }
    }
  }

  /** The zone keeps saying what the registry says. */
  lemma StepEncodes(domain: Name, base: Zone, sys: System, reg: Registry, e: Event)
    requires Foreign(domain, base) && Sound(reg) && Wellformed(e) && sys.zone == Encode(domain, base, reg)
    ensures Step(domain, sys, e).zone == Encode(domain, base, Advance(reg, e))
  {
    hide Encode, Joined, Departed, Untyped, Registered, Unregistered, Tidied, RegisterUpdate, LeaveUpdate, TidyUpdate,
         Owns, Clashes, Foreign, Sound, ChangeAll;
    match e
    case Register(d) =>
      RegisterEffect(domain, sys.zone, d);
      OwnsDnsName(domain, base, reg, d.service);
      if d.service !in reg.live { EncodeJoined(domain, base, reg, d); }
    case Leave(s, subs) =>
      LeaveEffect(domain, sys.zone, s, subs);
      OwnsDnsName(domain, base, reg, s);
      EncodeDeparted(domain, base, reg, s, subs);
    case Tidy(b) =>
      TidyEffect(domain, sys.zone, b);
      EncodeUntyped(domain, base, reg, b);
    case GiveUp(_) =>
  }

  /** Only a departure that succeeds leaves a second update pending. */
  lemma StepPending(domain: Name, base: Zone, sys: System, reg: Registry, e: Event)
    requires Foreign(domain, base) && Sound(reg) && Wellformed(e) && sys.zone == Encode(domain, base, reg)
    ensures e.Leave? && e.service in reg.live ==> Step(domain, sys, e).pending == sys.pending + multiset{e.service.base}
    ensures e.Leave? && e.service !in reg.live ==> Step(domain, sys, e).pending == sys.pending
  {
    hide Encode, LeaveUpdate, Owns, Clashes, Foreign, Sound, ChangeAll;
    if e.Leave? {
      LeaveEffect(domain, sys.zone, e.service, e.subtypes);
      OwnsDnsName(domain, base, reg, e.service);
    }
  }

  lemma StepTight(domain: Name, base: Zone, sys: System, reg: Registry, e: Event)
    requires Foreign(domain, base) && Sound(reg) && Wellformed(e) && sys.zone == Encode(domain, base, reg)
    requires Tight(reg, sys)
    ensures Tight(Advance(reg, e), Step(domain, sys, e))
  {
    hide Encode, Effect, LeaveUpdate, Answer, Foreign, Sound;
    StepPending(domain, base, sys, reg, e);
    var after, next := Advance(reg, e), Step(domain, sys, e);
    forall b | b in after.types
      ensures HasInstance(after, b) || b in next.pending || b in next.failed
    {
      if HasInstance(reg, b) {
        var s :| s in reg.live && s.base == b;
        assert s in after.live || b in next.pending;
      } else if e.Register? && e.data.service.base == b {
        assert e.data.service in after.live;
      }
    }
  }

  // ----- all runs

  /** In every interleaving the zone is exactly the encoding of the registry, which lists every type that has an
      instance, and no other except while a second update is pending or after one has failed. */
  lemma {:induction false} RunEncodes(domain: Name, base: Zone, run: seq<Event>)
    requires Foreign(domain, base) && IsRun(domain, base, run)
    ensures After(domain, base, run).zone == Encode(domain, base, RegistryAfter(run))
    ensures Sound(RegistryAfter(run)) && Covered(RegistryAfter(run))
    ensures Tight(RegistryAfter(run), After(domain, base, run))
  {
    hide Foreign, Sound, Covered, Tight, Step, Advance, Encode, Wellformed;
    if run == [] {
      EmptyEncodes(domain, base);
    } else {
      var before, e := run[..|run| - 1], run[|run| - 1];
      RunEncodes(domain, base, before);
      var sys, reg := After(domain, base, before), RegistryAfter(before);
      StepEncodes(domain, base, sys, reg, e);
      StepTight(domain, base, sys, reg, e);
      AdvanceSound(reg, e);
      AdvanceCovered(reg, e);
    }
  }

  lemma EmptyEncodes(domain: Name, base: Zone)
    ensures Encode(domain, base, EMPTY) == base && Sound(EMPTY) && Covered(EMPTY)
    ensures Tight(EMPTY, System(base, multiset{}, {}))
  {
  }

  // ----- runs and the methods of the registrator

  /** The update that an event sends; giving up sends none. */
  function UpdateOf(domain: Name, e: Event): Update {
    match e
    case Register(d) => RegisterUpdate(domain, d)
    case Leave(s, subs) => LeaveUpdate(domain, s, subs)
    case Tidy(b) => TidyUpdate(domain, b)
    case GiveUp(_) => Update([], [])
  }

  function UpdatesOf(domain: Name, run: seq<Event>): (us: seq<Update>)
    ensures |us| == |run| && forall i :: 0 <= i < |run| ==> us[i] == UpdateOf(domain, run[i])
  {
    seq(|run|, i requires 0 <= i < |run| => UpdateOf(domain, run[i]))
  }

  lemma StepIsUpdate(domain: Name, sys: System, e: Event)
    ensures Step(domain, sys, e).zone == Effect(sys.zone, UpdateOf(domain, e))
  {
    hide RegisterUpdate, LeaveUpdate, TidyUpdate;
  }

  /** The zone of a run is what the server makes of its updates. */
  lemma {:induction false} RunIsUpdates(domain: Name, base: Zone, run: seq<Event>)
    ensures After(domain, base, run).zone == Effects(base, UpdatesOf(domain, run))
  {
    hide Step, UpdateOf;
    if run != [] {
      var before := run[..|run| - 1];
      RunIsUpdates(domain, base, before);
      StepIsUpdate(domain, After(domain, base, before), run[|run| - 1]);
      assert UpdatesOf(domain, run)[..|run| - 1] == UpdatesOf(domain, before);
    }
  }

  lemma {:induction false} EffectsMore(zone: Zone, us: seq<Update>, more: seq<Update>)
    ensures Effects(zone, us + more) == Effects(Effects(zone, us), more)
  {
    if more == [] {
      assert us + more == us;
    } else {
      assert (us + more)[..|us + more| - 1] == us + more[..|more| - 1];
      EffectsMore(zone, us, more[..|more| - 1]);
    }
  }

  lemma EffectsOne(zone: Zone, u: Update)
    ensures Effects(zone, [u]) == Effect(zone, u)
  {
    assert [u][..0] == [];
  }

  /** The zone that unregistering leaves, while other clients act in between, is that of the events in their order. */
  lemma UnregisterIsRun(domain: Name, zone: Zone, s: Service, subs: seq<Name>, between: seq<Event>)
    requires Owns(zone, DnsName(domain, s))
    ensures Tidied(domain, Effects(Unregistered(domain, zone, s, subs), UpdatesOf(domain, between)), s.base)
         == Effects(zone, UpdatesOf(domain, [Leave(s, subs)] + between + [Tidy(s.base)]))
  {
    hide Owns, LeaveUpdate, TidyUpdate, Tidied, Unregistered, ChangeAll, Effects;
    var left := UpdateOf(domain, Leave(s, subs));
    var tidied := UpdateOf(domain, Tidy(s.base));
    LeaveEffect(domain, zone, s, subs);
    EffectsOne(zone, left);
    EffectsMore(zone, [left], UpdatesOf(domain, between));
    var meanwhile := Effects(Unregistered(domain, zone, s, subs), UpdatesOf(domain, between));
    TidyEffect(domain, meanwhile, s.base);
    EffectsOne(meanwhile, tidied);
    EffectsMore(zone, [left] + UpdatesOf(domain, between), [tidied]);
    assert UpdatesOf(domain, [Leave(s, subs)] + between + [Tidy(s.base)]) == [left] + UpdatesOf(domain, between) + [tidied];
  }
}
