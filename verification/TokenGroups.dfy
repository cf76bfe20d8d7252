/** Grouping orchestration forms by service for token generation, and handing the tokens back. */
module TokenGroups {
  import opened Options

  datatype ArrowheadSystem = ArrowheadSystem(name: string, address: string, port: int, authenticationInfo: Option<string>)

  predicate SameSystem(a: ArrowheadSystem, b: ArrowheadSystem) {
    a.name == b.name && a.address == b.address && a.port == b.port
  }

  /** Services are objects: two with the same contents need not be equal. */
  class ArrowheadService {
    const definition: string
    const interfaces: Option<set<string>>
    const metadata: map<string, string>

    constructor (definition: string, interfaces: Option<set<string>>, metadata: map<string, string>)
      ensures this.definition == definition && this.interfaces == interfaces && this.metadata == metadata
    {
      this.definition, this.interfaces, this.metadata := definition, interfaces, metadata;
    }
  }

  class OrchestrationForm {
    const service: ArrowheadService
    const provider: ArrowheadSystem
    var token: Option<string>
    var signature: Option<string>

    constructor (service: ArrowheadService, provider: ArrowheadSystem)
      ensures this.service == service && this.provider == provider && token == None && signature == None
    {
      this.service, this.provider, token, signature := service, provider, None, None;
    }
  }

  /** The same object, or the same definition and, if both have interfaces, a common one. */
  predicate Equal(a: ArrowheadService, b: ArrowheadService) {
    a == b ||
    (a.definition == b.definition &&
     (a.interfaces.None? || b.interfaces.None? || a.interfaces.value * b.interfaces.value != {}))
  }

  lemma EqualSymmetric(a: ArrowheadService, b: ArrowheadService)
    ensures Equal(a, b) <==> Equal(b, a)
  {
    if a.interfaces.Some? && b.interfaces.Some? {
      assert a.interfaces.value * b.interfaces.value == b.interfaces.value * a.interfaces.value;
    }
  }

  /** A service with interfaces in common with two others that have none in common. */
  lemma EqualNotTransitive(a: ArrowheadService, b: ArrowheadService, c: ArrowheadService)
    requires a.definition == b.definition == c.definition
    requires a.interfaces == Some({"JSON"}) && b.interfaces == Some({"JSON", "XML"}) && c.interfaces == Some({"XML"})
    ensures Equal(a, b) && Equal(b, c) && !Equal(a, c)
  {
    assert "JSON" in a.interfaces.value * b.interfaces.value && "XML" in b.interfaces.value * c.interfaces.value;
    assert a.interfaces.value * c.interfaces.value == {};
    assert "JSON" in a.interfaces.value && "JSON" !in c.interfaces.value;
  }

  predicate Secured(s: ArrowheadService) { "security" in s.metadata && s.metadata["security"] == "token" }

  // ----- the services chosen for the groups

  /** A hash set of services takes one that is equal to none that it holds. */
  predicate Holds(chosen: set<ArrowheadService>, s: ArrowheadService) { exists c :: c in chosen && Equal(s, c) }

  function Chosen(forms: seq<OrchestrationForm>): set<ArrowheadService> {
    if forms == [] then {}
    else
      var before := Chosen(forms[..|forms| - 1]);
      var s := forms[|forms| - 1].service;
      if Secured(s) && !Holds(before, s) then before + {s} else before
  }

  /** The providers of the secured forms whose service is equal to `s`, in order. */
  function Providers(forms: seq<OrchestrationForm>, s: ArrowheadService): seq<ArrowheadSystem> {
    if forms == [] then []
    else
      var before := Providers(forms[..|forms| - 1], s);
      var f := forms[|forms| - 1];
      if Equal(f.service, s) && Secured(f.service) then before + [f.provider] else before
  }

  datatype TokenGenHelper = TokenGenHelper(service: ArrowheadService, providers: seq<ArrowheadSystem>)

  function ServicesOf(groups: seq<TokenGenHelper>): set<ArrowheadService> {
    set i | 0 <= i < |groups| :: groups[i].service
  }

  predicate OneEach(groups: seq<TokenGenHelper>) {
    forall i, j :: 0 <= i < j < |groups| ==> groups[i].service != groups[j].service
  }

  /** The services of the groups, as a hash set takes them. */
  method UniqueServices(forms: seq<OrchestrationForm>) returns (unique: set<ArrowheadService>)
    ensures unique == Chosen(forms)
  {
    unique := {};
    for n := 0 to |forms|
      invariant unique == Chosen(forms[..n])
    {
      assert forms[..n + 1][..n] == forms[..n];
      var s := forms[n].service;
      if Secured(s) && !Holds(unique, s) {
        unique := unique + {s};
      }
    }
    assert forms[..|forms|] == forms;
  }

  /** One group for each chosen service, in no particular order. */
  method ConvertOfList(forms: seq<OrchestrationForm>) returns (groups: seq<TokenGenHelper>)
    ensures ServicesOf(groups) == Chosen(forms) && OneEach(groups)
    ensures forall i :: 0 <= i < |groups| ==>
              groups[i].providers == Providers(forms, groups[i].service) && IsGroup(forms, groups[i])
  {
    hide ServicesOf, OneEach, Providers, IsGroup, Chosen;
    var unique := UniqueServices(forms);
    groups := [];
    NoGroups();
    var rest := unique;
    while rest != {}
      invariant rest <= unique && ServicesOf(groups) == unique - rest && OneEach(groups)
      invariant forall i :: 0 <= i < |groups| ==>
                  groups[i].providers == Providers(forms, groups[i].service) && IsGroup(forms, groups[i])
      decreases |rest|
    {
      var s :| s in rest;
      var providers := ProvidersOf(forms, s);
      ProvidersMeans(forms, s);
      NewGroup(groups, TokenGenHelper(s, providers));
      groups := groups + [TokenGenHelper(s, providers)];
      rest := rest - {s};
    }
  }

  method ProvidersOf(forms: seq<OrchestrationForm>, s: ArrowheadService) returns (providers: seq<ArrowheadSystem>)
    ensures providers == Providers(forms, s)
  {
    providers := [];
    for n := 0 to |forms|
      invariant providers == Providers(forms[..n], s)
    {
      assert forms[..n + 1][..n] == forms[..n];
      if Equal(forms[n].service, s) && Secured(forms[n].service) {
        providers := providers + [forms[n].provider];
      }
    }
    assert forms[..|forms|] == forms;
  }

  lemma NoGroups()
    ensures ServicesOf([]) == {} && OneEach([])
  {
  }

  lemma NewGroup(groups: seq<TokenGenHelper>, g: TokenGenHelper)
    requires g.service !in ServicesOf(groups) && OneEach(groups)
    ensures ServicesOf(groups + [g]) == ServicesOf(groups) + {g.service} && OneEach(groups + [g])
  {
    var more := groups + [g];
    forall s | s in ServicesOf(groups) + {g.service}
      ensures s in ServicesOf(more)
    {
      if s == g.service {
        assert more[|groups|].service == s;
      } else {
        var i :| 0 <= i < |groups| && groups[i].service == s;
        assert more[i].service == s;
      }
    }
    forall i | 0 <= i < |groups|
      ensures groups[i].service in ServicesOf(groups) && groups[i].service != g.service
    {
    }
  }

  // ----- what the groups are

  /** No two chosen services are equal. */
  lemma {:induction false} ChosenUnequal(forms: seq<OrchestrationForm>)
    ensures forall a, b :: a in Chosen(forms) && b in Chosen(forms) && a != b ==> !Equal(a, b)
  {
    if forms != [] {
      var before := forms[..|forms| - 1];
      ChosenUnequal(before);
      var s := forms[|forms| - 1].service;
      forall c | c in Chosen(before)
        ensures Equal(s, c) <==> Equal(c, s)
      {
        EqualSymmetric(s, c);
      }
    }
  }

  /** Every chosen service is that of a secured form. */
  lemma {:induction false} ChosenFromForms(forms: seq<OrchestrationForm>, s: ArrowheadService)
    requires s in Chosen(forms)
    ensures exists f :: f in forms && Secured(f.service) && f.service == s
  {
    var before, last := forms[..|forms| - 1], forms[|forms| - 1];
    if s in Chosen(before) {
      ChosenFromForms(before, s);
      var f :| f in before && Secured(f.service) && f.service == s;
      assert f in forms;
    } else {
      assert last in forms;
    }
  }

  /** Every secured form is in a group. */
  lemma {:induction false} ChosenCovers(forms: seq<OrchestrationForm>, f: OrchestrationForm)
    requires f in forms && Secured(f.service)
    ensures Holds(Chosen(forms), f.service)
  {
    var before, last := forms[..|forms| - 1], forms[|forms| - 1];
    if f in before {
      ChosenCovers(before, f);
      var c :| c in Chosen(before) && Equal(f.service, c);
      assert c in Chosen(forms);
    } else {
      assert f == last && Equal(f.service, f.service);
      if Holds(Chosen(before), f.service) {
        var c :| c in Chosen(before) && Equal(f.service, c);
        assert c in Chosen(forms);
      } else {
        assert f.service in Chosen(forms);
      }
    }
  }

  /** Equality is transitive on the services of the secured forms. */
  ghost predicate Transitive(forms: seq<OrchestrationForm>) {
    forall f, g, h :: f in forms && g in forms && h in forms
                      && Secured(f.service) && Secured(g.service) && Secured(h.service)
                      && Equal(f.service, g.service) && Equal(g.service, h.service)
                      ==> Equal(f.service, h.service)
  }

  /** Where equality is transitive, every secured form is in exactly one group. */
  lemma GroupsPartition(forms: seq<OrchestrationForm>, f: OrchestrationForm)
    requires Transitive(forms) && f in forms && Secured(f.service)
    ensures exists c :: c in Chosen(forms) && Equal(f.service, c)
                        && forall d :: d in Chosen(forms) && Equal(f.service, d) ==> d == c
  {
    ChosenCovers(forms, f);
    var c :| c in Chosen(forms) && Equal(f.service, c);
    forall d | d in Chosen(forms) && Equal(f.service, d)
      ensures d == c
    {
      ChosenFromForms(forms, c);
      ChosenFromForms(forms, d);
      var g :| g in forms && Secured(g.service) && g.service == c;
      var h :| h in forms && Secured(h.service) && h.service == d;
      EqualSymmetric(f.service, c);
      assert Equal(g.service, f.service) && Equal(f.service, h.service);
      ChosenUnequal(forms);
    }
  }

  // ----- what makes services equal

  /** Two services with one definition have an interface in common, or one of them has none given. */
  predicate ShareInterface(a: ArrowheadService, b: ArrowheadService) {
    a.interfaces.None? || b.interfaces.None? || exists i :: i in a.interfaces.value && i in b.interfaces.value
  }

  lemma EqualMeans(a: ArrowheadService, b: ArrowheadService)
    ensures Equal(a, b) <==> a == b || (a.definition == b.definition && ShareInterface(a, b))
  {
    if a.interfaces.Some? && b.interfaces.Some? {
      var common := a.interfaces.value * b.interfaces.value;
      if i :| i in a.interfaces.value && i in b.interfaces.value { assert i in common; }
      if i :| i in common {
        assert i in a.interfaces.value && i in b.interfaces.value;
      } else {
        assert common == {};
      }
    }
  }

  /** The providers of a group are those at some places of the list, in order, and the places are those of the forms
      that ask for token security and whose service is that of the group, or has its definition and an interface in
      common with it. */
  ghost predicate PickedAt(forms: seq<OrchestrationForm>, s: ArrowheadService, providers: seq<ArrowheadSystem>, at: seq<nat>) {
    && |providers| == |at|
    && (forall i, j :: 0 <= i < j < |at| ==> at[i] < at[j])
    && (forall k :: 0 <= k < |at| ==> at[k] < |forms| && providers[k] == forms[at[k]].provider)
    && (forall i :: 0 <= i < |forms| ==> (i in at <==> IsInGroup(forms[i].service, s)))
  }

  ghost predicate IsGroup(forms: seq<OrchestrationForm>, g: TokenGenHelper) {
    exists at :: PickedAt(forms, g.service, g.providers, at)
  }

  /** One more form that is picked. */
  lemma PickOne(forms: seq<OrchestrationForm>, f: OrchestrationForm, s: ArrowheadService,
                providers: seq<ArrowheadSystem>, at: seq<nat>)
    requires PickedAt(forms, s, providers, at) && IsInGroup(f.service, s)
    ensures PickedAt(forms + [f], s, providers + [f.provider], at + [|forms|])
  {
    hide IsInGroup;
  }

  /** One more form that is not. */
  lemma SkipOne(forms: seq<OrchestrationForm>, f: OrchestrationForm, s: ArrowheadService,
                providers: seq<ArrowheadSystem>, at: seq<nat>)
    requires PickedAt(forms, s, providers, at) && !IsInGroup(f.service, s)
    ensures PickedAt(forms + [f], s, providers, at)
  {
    hide IsInGroup;
    assert forall i :: 0 <= i < |forms| ==> (forms + [f])[i] == forms[i];
    assert |forms| !in at;
  }

  lemma {:induction false} ProvidersMeans(forms: seq<OrchestrationForm>, s: ArrowheadService)
    ensures IsGroup(forms, TokenGenHelper(s, Providers(forms, s)))
  {
    hide IsInGroup, Equal, Secured, PickedAt;
    if forms == [] {
      NonePicked(s);
    } else {
      var n := |forms| - 1;
      ProvidersMeans(forms[..n], s);
      var at :| PickedAt(forms[..n], s, Providers(forms[..n], s), at);
      InGroupMeans(forms[n].service, s);
      assert forms == forms[..n] + [forms[n]];
      if IsInGroup(forms[n].service, s) {
        PickOne(forms[..n], forms[n], s, Providers(forms[..n], s), at);
      } else {
        SkipOne(forms[..n], forms[n], s, Providers(forms[..n], s), at);
      }
    }
  }

  lemma NonePicked(s: ArrowheadService)
    ensures PickedAt([], s, [], [])
  {
  }

  predicate IsInGroup(a: ArrowheadService, s: ArrowheadService) {
    && "security" in a.metadata && a.metadata["security"] == "token"
    && (a == s || (a.definition == s.definition && ShareInterface(a, s)))
  }

  lemma InGroupMeans(a: ArrowheadService, s: ArrowheadService)
    ensures IsInGroup(a, s) <==> Equal(a, s) && Secured(a)
  {
    EqualMeans(a, s);
  }

  /** Secured forms with different definitions share no group. */
  lemma DefinitionsPart(forms: seq<OrchestrationForm>, f: OrchestrationForm, g: OrchestrationForm, s: ArrowheadService)
    requires s in Chosen(forms) && f.service.definition != g.service.definition
    ensures !(Equal(f.service, s) && Equal(g.service, s))
    ensures exists c :: c in forms && c.service == s && "security" in s.metadata && s.metadata["security"] == "token"
  {
    EqualMeans(f.service, s);
    EqualMeans(g.service, s);
    ChosenFromForms(forms, s);
  }

  /** Where equality is transitive, two secured forms are in one group exactly if their services are one object, or have
      one definition and an interface in common or one without any. */
  lemma TogetherIff(forms: seq<OrchestrationForm>, f: OrchestrationForm, g: OrchestrationForm)
    requires Transitive(forms) && f in forms && g in forms && Secured(f.service) && Secured(g.service)
    ensures (exists c :: c in Chosen(forms) && Equal(f.service, c) && Equal(g.service, c)) <==>
              f.service == g.service
              || (f.service.definition == g.service.definition && ShareInterface(f.service, g.service))
  {
    hide Equal, Secured, ShareInterface;
    EqualMeans(f.service, g.service);
    if c :| c in Chosen(forms) && Equal(f.service, c) && Equal(g.service, c) {
      EqualSymmetric(g.service, c);
      ChosenFromForms(forms, c);
      var h :| h in forms && Secured(h.service) && h.service == c;
      assert Equal(f.service, h.service) && Equal(h.service, g.service);
    }
    if Equal(f.service, g.service) {
      ChosenCovers(forms, g);
      var c :| c in Chosen(forms) && Equal(g.service, c);
      ChosenFromForms(forms, c);
      var h :| h in forms && Secured(h.service) && h.service == c;
      assert Equal(f.service, g.service) && Equal(g.service, h.service);
    }
  }

  /** Two secured forms alone make one group if so, and else two. */
  lemma TwoForms(f: OrchestrationForm, g: OrchestrationForm)
    requires Secured(f.service) && Secured(g.service)
    ensures Chosen([f, g]) == if g.service == f.service || (g.service.definition == f.service.definition
                                                             && ShareInterface(g.service, f.service))
                              then {f.service} else {f.service, g.service}
  {
    hide ShareInterface;
    EqualMeans(g.service, f.service);
    assert [f, g][..1] == [f] && [f][..0] == [];
    assert Chosen([]) == {} && Chosen([f]) == {f.service};
  }

  lemma {:induction false} ChosenStays(forms: seq<OrchestrationForm>, rest: seq<OrchestrationForm>)
    ensures Chosen(forms) <= Chosen(forms + rest)
  {
    if rest == [] {
      assert forms + rest == forms;
    } else {
      assert (forms + rest)[..|forms + rest| - 1] == forms + rest[..|rest| - 1];
      ChosenStays(forms, rest[..|rest| - 1]);
    }
  }

  lemma {:induction false} ProviderListed(forms: seq<OrchestrationForm>, f: OrchestrationForm, s: ArrowheadService)
    requires f in forms && Equal(f.service, s) && Secured(f.service)
    ensures f.provider in Providers(forms, s)
  {
    if f in forms[..|forms| - 1] { ProviderListed(forms[..|forms| - 1], f, s); }
  }

  /** Where it is not, so that `b` is equal to both of two unequal services, an order that has those two first puts
      `b` in both groups. */
  lemma FormInTwoGroups(a: OrchestrationForm, c: OrchestrationForm, rest: seq<OrchestrationForm>, b: OrchestrationForm)
    requires b in rest && Secured(a.service) && Secured(b.service) && Secured(c.service)
    requires Equal(a.service, b.service) && Equal(b.service, c.service) && !Equal(a.service, c.service)
    ensures var forms := [a, c] + rest;
            && a.service in Chosen(forms) && c.service in Chosen(forms) && a.service != c.service
            && b.provider in Providers(forms, a.service) && b.provider in Providers(forms, c.service)
  {
    EqualSymmetric(a.service, b.service);
    EqualSymmetric(a.service, c.service);
    assert [a, c][..1] == [a] && [a][..0] == [];
    assert Chosen([a]) == {a.service};
    assert !Holds(Chosen([a]), c.service);
    assert Chosen([a, c]) == {a.service, c.service};
    ChosenStays([a, c], rest);
    assert Equal(c.service, c.service);
    ProviderListed([a, c] + rest, b, a.service);
    ProviderListed([a, c] + rest, b, c.service);
  }

  // ----- handing the tokens back

  datatype TokenData = TokenData(system: ArrowheadSystem, service: ArrowheadService, token: string, signature: string)

  predicate IsFor(data: TokenData, service: ArrowheadService, provider: ArrowheadSystem) {
    Equal(data.service, service) && SameSystem(data.system, provider)
  }

  /** The last token data for a form, if any. */
  function LastFor(tokenData: seq<TokenData>, service: ArrowheadService, provider: ArrowheadSystem): (r: Option<TokenData>)
    ensures r.Some? ==> r.value in tokenData && IsFor(r.value, service, provider)
    ensures r.None? <==> forall d :: d in tokenData ==> !IsFor(d, service, provider)
  {
    if tokenData == [] then None
    else
      var last := tokenData[|tokenData| - 1];
      if IsFor(last, service, provider) then Some(last)
      else LastFor(tokenData[..|tokenData| - 1], service, provider)
  }

  /** The token data names the system by its name, address and port, and the service is the same or counts as the same. */
  predicate IsMeantFor(d: TokenData, service: ArrowheadService, provider: ArrowheadSystem) {
    && d.system.name == provider.name && d.system.address == provider.address && d.system.port == provider.port
    && (d.service == service || (d.service.definition == service.definition && ShareInterface(d.service, service)))
  }

  lemma IsForMeans(d: TokenData, service: ArrowheadService, provider: ArrowheadSystem)
    ensures IsFor(d, service, provider) <==> IsMeantFor(d, service, provider)
  {
    EqualMeans(d.service, service);
  }

  /** The last token data that is meant for a form. */
  predicate LastMeant(tokenData: seq<TokenData>, service: ArrowheadService, provider: ArrowheadSystem, i: nat)
    requires i < |tokenData|
  {
    && IsMeantFor(tokenData[i], service, provider)
    && forall j :: i < j < |tokenData| ==> !IsMeantFor(tokenData[j], service, provider)
  }

  lemma {:induction false} LastForAt(tokenData: seq<TokenData>, service: ArrowheadService, provider: ArrowheadSystem, i: nat)
    requires i < |tokenData| && LastMeant(tokenData, service, provider, i)
    ensures LastFor(tokenData, service, provider) == Some(tokenData[i])
  {
    hide IsFor, IsMeantFor;
    var n := |tokenData| - 1;
    IsForMeans(tokenData[n], service, provider);
    if i < n {
      assert forall j :: 0 <= j < n ==> tokenData[..n][j] == tokenData[j];
      LastForAt(tokenData[..n], service, provider, i);
    }
  }

  lemma LastForNone(tokenData: seq<TokenData>, service: ArrowheadService, provider: ArrowheadSystem)
    requires forall i :: 0 <= i < |tokenData| ==> !IsMeantFor(tokenData[i], service, provider)
    ensures LastFor(tokenData, service, provider) == None
  {
    hide IsFor, IsMeantFor;
    forall d | d in tokenData
      ensures !IsFor(d, service, provider)
    {
      IsForMeans(d, service, provider);
    }
  }

  lemma LastForMore(tokenData: seq<TokenData>, n: nat, service: ArrowheadService, provider: ArrowheadSystem)
    requires n < |tokenData|
    ensures LastFor(tokenData[..n + 1], service, provider)
         == if IsFor(tokenData[n], service, provider) then Some(tokenData[n]) else LastFor(tokenData[..n], service, provider)
  {
    assert tokenData[..n + 1][..n] == tokenData[..n];
  }

  ghost predicate Updated(f: OrchestrationForm, token: Option<string>, signature: Option<string>, d: Option<TokenData>)
    reads f
  {
    if d.Some? then f.token == Some(d.value.token) && f.signature == Some(d.value.signature)
    else f.token == token && f.signature == signature
  }

  /** Gives one token to every form that it is for; a form listed twice gets it once. */
  method HandOut(forms: seq<OrchestrationForm>, data: TokenData)
    modifies forms
    ensures forall f :: f in forms ==>
              Updated(f, old(f.token), old(f.signature), if IsFor(data, f.service, f.provider) then Some(data) else None)
  {
    for m := 0 to |forms|
      invariant forall f :: f in forms ==>
                  f.token == (if f in forms[..m] && IsFor(data, f.service, f.provider) then Some(data.token) else old(f.token))
      invariant forall f :: f in forms ==>
                  f.signature == if f in forms[..m] && IsFor(data, f.service, f.provider) then Some(data.signature)
                                 else old(f.signature)
    {
      var form := forms[m];
      assert forms[..m + 1] == forms[..m] + [form];
      if IsFor(data, form.service, form.provider) {
        form.token := Some(data.token);
        form.signature := Some(data.signature);
      }
    }
    assert forms[..|forms|] == forms;
  }

  /** Every form gets the last token that is for it, and keeps what it has if none is. */
  method UpdateFormsWithTokens(forms: seq<OrchestrationForm>, tokenData: seq<TokenData>)
    modifies forms
    ensures forall f :: f in forms ==>
              Updated(f, old(f.token), old(f.signature), LastFor(tokenData, f.service, f.provider))
    ensures forall f, i :: f in forms && 0 <= i < |tokenData| && LastMeant(tokenData, f.service, f.provider, i) ==>
              f.token == Some(tokenData[i].token) && f.signature == Some(tokenData[i].signature)
    ensures forall f :: f in forms && (forall i :: 0 <= i < |tokenData| ==> !IsMeantFor(tokenData[i], f.service, f.provider))
              ==> f.token == old(f.token) && f.signature == old(f.signature)
  {
    hide LastFor, IsFor, IsMeantFor, LastMeant;
    for n := 0 to |tokenData|
      invariant forall f :: f in forms ==>
                  Updated(f, old(f.token), old(f.signature), LastFor(tokenData[..n], f.service, f.provider))
    {
      forall f | f in forms
        ensures LastFor(tokenData[..n + 1], f.service, f.provider)
             == if IsFor(tokenData[n], f.service, f.provider) then Some(tokenData[n])
                else LastFor(tokenData[..n], f.service, f.provider)
      {
        LastForMore(tokenData, n, f.service, f.provider);
      }
      HandOut(forms, tokenData[n]);
    }
    assert tokenData[..|tokenData|] == tokenData;
    forall f, i | f in forms && 0 <= i < |tokenData| && LastMeant(tokenData, f.service, f.provider, i)
      ensures LastFor(tokenData, f.service, f.provider) == Some(tokenData[i])
    {
      LastForAt(tokenData, f.service, f.provider, i);
    }
    forall f | f in forms && forall i :: 0 <= i < |tokenData| ==> !IsMeantFor(tokenData[i], f.service, f.provider)
      ensures LastFor(tokenData, f.service, f.provider) == None
    {
      LastForNone(tokenData, f.service, f.provider);
    }
  }
}
