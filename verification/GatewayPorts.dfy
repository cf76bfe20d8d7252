/** The gateway's port range: which ports are free, which caller was given which, and which sessions are recorded. */
module GatewayPorts {
  import opened Options

  datatype Error = NoPort | NoChannel

  /** What a caller was given: a port, and the session recorded under the name of its queue. */
  datatype Grant = Grant(port: int, queue: string)

  /** `given` remembers all grants and `closed` the callers that have closed; both are history. */
  datatype State = State(ports: map<int, bool>, sessions: map<string, int>, given: map<nat, Grant>, closed: set<nat>)

  /** A connection that is given some free port or, if there is none, fails; and a close, which a caller may repeat. */
  datatype Event = Connect(who: nat, queue: string, port: Option<int>) | Close(who: nat)

  function PortRange(low: int, high: int): (r: set<int>)
    ensures forall p :: p in r <==> low <= p <= high
    decreases high - low
  {
    if low > high then {} else PortRange(low, high - 1) + {high}
  }

  function Free(ports: map<int, bool>): set<int> { set p | p in ports && ports[p] }

  /** A caller holds its port until it closes for the first time. */
  predicate Holds(st: State, w: nat) { w in st.given && w !in st.closed }

  predicate HoldsPort(st: State, w: nat, p: int) { Holds(st, w) && st.given[w].port == p }

  function Holdings(st: State): map<nat, int> { map w | w in st.given && Holds(st, w) :: st.given[w].port }

  // ----- runs

  function Start(low: int, high: int): State { State(map p | p in PortRange(low, high) :: true, map[], map[], {}) }

  predicate Enabled(st: State, e: Event) {
    match e
    case Connect(w, _, p) => w !in st.given && if p.Some? then p.value in Free(st.ports) else Free(st.ports) == {}
    case Close(w) => w in st.given
  }

  function Step(st: State, e: Event): State {
    match e
    case Connect(w, q, p) =>
      if p.None? then st
      else State(st.ports[p.value := false], st.sessions[q := p.value], st.given[w := Grant(p.value, q)], st.closed)
    case Close(w) =>
      if w !in st.given then st
      else
        var g := st.given[w];
        State(st.ports[g.port := true], st.sessions - {g.queue}, st.given, st.closed + {w})
  }

  function After(low: int, high: int, run: seq<Event>): State {
    if run == [] then Start(low, high) else Step(After(low, high, run[..|run| - 1]), run[|run| - 1])
  }

  predicate IsRun(low: int, high: int, run: seq<Event>) {
    forall n :: 0 <= n < |run| ==> Enabled(At(low, high, run, n), run[n])
  }

  /** The state before event `n`. */
  function At(low: int, high: int, run: seq<Event>, n: nat): State
    requires n <= |run|
  {
    After(low, high, run[..n])
  }

  lemma NextState(low: int, high: int, run: seq<Event>, n: nat)
    requires n < |run|
    ensures At(low, high, run, n + 1) == Step(At(low, high, run, n), run[n])
  {
    assert run[..n + 1][..n] == run[..n];
  }

  // ----- exclusive and conserved

  /** No two callers hold one port. */
  ghost predicate Exclusive(st: State) {
    forall v, w :: Holds(st, v) && Holds(st, w) && st.given[v].port == st.given[w].port ==> v == w
  }

  /** The ports are those of the range, all grants are of such ports, and only callers with a grant have closed. */
  ghost predicate InRange(low: int, high: int, st: State) {
    && st.ports.Keys == PortRange(low, high)
    && (forall w :: w in st.given ==> st.given[w].port in st.ports)
    && (forall w :: w in st.closed ==> w in st.given)
  }

  /** A port is free exactly while nobody holds it, and no two callers hold one. */
  ghost predicate Proper(st: State) {
    && Exclusive(st)
    && (forall w :: Holds(st, w) ==> st.given[w].port !in Free(st.ports))
    && (forall p :: p in st.ports && !st.ports[p] ==> exists w :: HoldsPort(st, w, p))
  }

  lemma {:induction false} RunInRange(low: int, high: int, run: seq<Event>, n: nat)
    requires IsRun(low, high, run) && n <= |run|
    ensures InRange(low, high, At(low, high, run, n))
  {
    if n > 0 {
      RunInRange(low, high, run, n - 1);
      NextState(low, high, run, n - 1);
    }
  }

  lemma HeldMeans(low: int, high: int, st: State, p: int)
    requires InRange(low, high, st) && Proper(st)
    ensures p in Holdings(st).Values <==> p in st.ports && !st.ports[p]
  {
    var m := Holdings(st);
    if p in m.Values {
      var w :| w in m && m[w] == p;
      assert Holds(st, w);
    }
    if p in st.ports && !st.ports[p] {
      var w :| HoldsPort(st, w, p);
      assert m[w] == p;
    }
  }

  lemma HoldingsInjective(st: State)
    requires Exclusive(st)
    ensures forall v, w :: v in Holdings(st) && w in Holdings(st) && Holdings(st)[v] == Holdings(st)[w] ==> v == w
  {
  }

  lemma FreeOrHeld(low: int, high: int, st: State)
    requires InRange(low, high, st) && Proper(st)
    ensures Free(st.ports) + Holdings(st).Values == PortRange(low, high) && Free(st.ports) !! Holdings(st).Values
  {
    hide Holdings, Proper, PortRange;
    forall p: int
      ensures p in Holdings(st).Values <==> p in st.ports && !st.ports[p]
    {
      HeldMeans(low, high, st, p);
    }
  }

  /** Every port of the range is free or held, never both: together they are as many as the range has. */
  lemma PortsConserved(low: int, high: int, st: State)
    requires InRange(low, high, st) && Proper(st)
    ensures |Free(st.ports)| + |Holdings(st)| == if low <= high then high - low + 1 else 0
    ensures Free(st.ports) == {} <==> Holdings(st).Values == PortRange(low, high)
  {
    hide Holdings, Proper, PortRange, Free, InRange, Exclusive;
    FreeOrHeld(low, high, st);
    ProperIsSafe(st);
    HoldingsInjective(st);
    ValuesCount(Holdings(st));
    RangeCount(low, high);
  }

  lemma {:induction false} ValuesCount(m: map<nat, int>)
    requires forall v, w :: v in m && w in m && m[v] == m[w] ==> v == w
    ensures |m.Values| == |m|
    decreases |m|
  {
    if m == map[] {
      assert m.Values == {};
    } else {
      var w :| w in m;
      var rest := m - {w};
      assert rest.Keys == m.Keys - {w} && |m| == |m.Keys| && |rest| == |rest.Keys|;
      ValuesCount(rest);
      assert m.Values == rest.Values + {m[w]} by {
        forall p | p in m.Values
          ensures p in rest.Values + {m[w]}
        {
          var v :| v in m && m[v] == p;
          if v != w { assert rest[v] == p; }
        }
      }
      assert m[w] !in rest.Values;
    }
  }

  lemma {:induction false} RangeCount(low: int, high: int)
    ensures |PortRange(low, high)| == if low <= high then high - low + 1 else 0
    decreases high - low
  {
    if low <= high {
      RangeCount(low, high - 1);
      assert high !in PortRange(low, high - 1);
    }
  }

  // ----- repeated closes

  /** A caller closes again, while another holds the port that it was given. */
  predicate Harms(st: State, e: Event, w: nat) {
    e.Close? && e.who in st.given && e.who in st.closed && HoldsPort(st, w, st.given[e.who].port)
  }

  ghost predicate HarmAt(low: int, high: int, run: seq<Event>, i: nat)
    requires i < |run|
  {
    exists w :: Harms(At(low, high, run, i), run[i], w)
  }

  lemma ConnectProper(low: int, high: int, st: State, u: nat, q: string, port: int)
    requires InRange(low, high, st) && Proper(st) && Enabled(st, Connect(u, q, Some(port)))
    ensures Proper(Step(st, Connect(u, q, Some(port))))
  {
    var next := Step(st, Connect(u, q, Some(port)));
    assert forall w :: Holds(next, w) ==> w == u || Holds(st, w);
    forall p | p in next.ports && !next.ports[p]
      ensures exists w :: HoldsPort(next, w, p)
    {
      if p == port {
        assert HoldsPort(next, u, p);
      } else {
        var w :| HoldsPort(st, w, p);
        assert HoldsPort(next, w, p);
      }
    }
  }

  lemma CloseProper(low: int, high: int, st: State, u: nat)
    requires InRange(low, high, st) && Proper(st) && Enabled(st, Close(u)) && !(exists w :: Harms(st, Close(u), w))
    ensures Proper(Step(st, Close(u)))
  {
    var next := Step(st, Close(u));
    forall w | Holds(next, w)
      ensures Holds(st, w) && next.given[w].port !in Free(next.ports)
    {
      assert Holds(st, w);
      assert !Harms(st, Close(u), w);
    }
    forall p | p in next.ports && !next.ports[p]
      ensures exists w :: HoldsPort(next, w, p)
    {
      var w :| HoldsPort(st, w, p);
      assert HoldsPort(next, w, p);
    }
  }

  lemma StepProper(low: int, high: int, st: State, e: Event)
    requires InRange(low, high, st) && Proper(st) && Enabled(st, e) && !(exists w :: Harms(st, e, w))
    ensures Proper(Step(st, e))
  {
    hide Proper, InRange, Harms;
    match e
    case Connect(u, q, port) =>
      if port.Some? { ConnectProper(low, high, st, u, q, port.value); }
    case Close(u) =>
      CloseProper(low, high, st, u);
  }

  lemma {:induction false} UnharmedProper(low: int, high: int, run: seq<Event>, n: nat)
    requires IsRun(low, high, run) && n <= |run| && forall i :: 0 <= i < n ==> !HarmAt(low, high, run, i)
    ensures Proper(At(low, high, run, n))
  {
    hide Step, Enabled, Proper, InRange, After;
    if n == 0 {
      StartProper(low, high, run);
    } else {
      UnharmedProper(low, high, run, n - 1);
      RunInRange(low, high, run, n - 1);
      assert !HarmAt(low, high, run, n - 1);
      StepProper(low, high, At(low, high, run, n - 1), run[n - 1]);
      NextState(low, high, run, n - 1);
    }
  }

  /** While no repeated close does harm, free and held ports together are always the whole range, and a connection
      fails exactly when every port is held. */
  lemma UnharmedConserved(low: int, high: int, run: seq<Event>, n: nat)
    requires IsRun(low, high, run) && n <= |run| && forall i :: 0 <= i < n ==> !HarmAt(low, high, run, i)
    ensures var st := At(low, high, run, n);
            && |Free(st.ports)| + |Holdings(st)| == (if low <= high then high - low + 1 else 0)
            && (Free(st.ports) == {} <==> Holdings(st).Values == PortRange(low, high))
            && Exclusive(st)
  {
    hide At, Exclusive, InRange, HarmAt, Holdings, Free, PortRange;
    UnharmedProper(low, high, run, n);
    RunInRange(low, high, run, n);
    PortsConserved(low, high, At(low, high, run, n));
  }

  lemma StartProper(low: int, high: int, run: seq<Event>)
    ensures Proper(At(low, high, run, 0))
  {
  }

  /** Whatever free port the next connection is given, nobody holds it. */
  ghost predicate SafeToConnect(st: State) { forall w :: Holds(st, w) ==> st.given[w].port !in Free(st.ports) }

  /** No two callers ever hold one port, and no next connection could make two, exactly when no caller closes again
      while another holds the port that it was given. */
  lemma SafeIffNoHarm(low: int, high: int, run: seq<Event>)
    requires IsRun(low, high, run)
    ensures (forall n :: 0 <= n <= |run| ==> Exclusive(At(low, high, run, n)) && SafeToConnect(At(low, high, run, n)))
       <==> (forall i :: 0 <= i < |run| ==> !HarmAt(low, high, run, i))
  {
    hide At, Step, Exclusive, SafeToConnect;
    if i :| 0 <= i < |run| && HarmAt(low, high, run, i) {
      NextState(low, high, run, i);
      HarmFrees(low, high, run, i);
    }
    if forall i :: 0 <= i < |run| ==> !HarmAt(low, high, run, i) {
      forall n | 0 <= n <= |run|
        ensures Exclusive(At(low, high, run, n)) && SafeToConnect(At(low, high, run, n))
      {
        UnharmedProper(low, high, run, n);
        ProperIsSafe(At(low, high, run, n));
      }
    }
  }

  lemma ProperIsSafe(st: State)
    requires Proper(st)
    ensures Exclusive(st) && SafeToConnect(st)
  {
  }

  lemma HarmFrees(low: int, high: int, run: seq<Event>, i: nat)
    requires i < |run| && HarmAt(low, high, run, i)
    ensures !SafeToConnect(At(low, high, run, i + 1))
  {
    var st := At(low, high, run, i);
    var w :| Harms(st, run[i], w);
    NextState(low, high, run, i);
    var next := At(low, high, run, i + 1);
    assert Holds(next, w) && next.given[w].port in Free(next.ports);
  }

  // ----- who ends up with the same port

  lemma {:induction false} Lasts(low: int, high: int, run: seq<Event>, i: nat, j: nat, w: nat)
    requires IsRun(low, high, run) && i <= j <= |run|
    ensures w in At(low, high, run, i).given ==>
              w in At(low, high, run, j).given && At(low, high, run, j).given[w] == At(low, high, run, i).given[w]
    ensures w in At(low, high, run, i).closed ==> w in At(low, high, run, j).closed
  {
    hide At;
    if i < j {
      Lasts(low, high, run, i, j - 1, w);
      NextState(low, high, run, j - 1);
    }
  }

  /** Event `i` is a caller's repeated close, `w` holds the port that the caller was given, and still does when event `j`
      gives that port to yet another caller. */
  ghost predicate StolenAt(low: int, high: int, run: seq<Event>, i: nat, j: nat, w: nat)
    requires i < j < |run|
  {
    && Harms(At(low, high, run, i), run[i], w)
    && Holds(At(low, high, run, j), w)
    && run[j].Connect? && run[j].port == Some(At(low, high, run, i).given[w].port)
  }

  ghost predicate Stolen(low: int, high: int, run: seq<Event>) {
    exists i, j, w :: 0 <= i < j < |run| && StolenAt(low, high, run, i, j, w)
  }

  lemma StolenShared(low: int, high: int, run: seq<Event>, i: nat, j: nat, w: nat)
    requires IsRun(low, high, run) && i < j < |run| && StolenAt(low, high, run, i, j, w)
    ensures !Exclusive(At(low, high, run, j + 1))
  {
    hide At, Harms;
    HarmHolds(At(low, high, run, i), run[i], w);
    Lasts(low, high, run, i, j, w);
    NextState(low, high, run, j);
    var next, u := At(low, high, run, j + 1), run[j].who;
    RunInRange(low, high, run, j);
    assert Holds(next, w) && Holds(next, u) && u != w;
  }

  lemma HarmHolds(st: State, e: Event, w: nat)
    requires Harms(st, e, w)
    ensures e.Close? && Holds(st, w)
  {
  }

  /** A port that is free although `w` holds it was freed by a repeated close of another caller. */
  lemma {:induction false} FreedByOther(low: int, high: int, run: seq<Event>, n: nat, w: nat) returns (i: nat)
    requires IsRun(low, high, run) && n <= |run|
    requires forall m :: 0 <= m <= n ==> Exclusive(At(low, high, run, m))
    requires Holds(At(low, high, run, n), w)
    requires At(low, high, run, n).given[w].port in Free(At(low, high, run, n).ports)
    ensures i < n && Harms(At(low, high, run, i), run[i], w)
  {
    hide At, Exclusive;
    if n == 0 {
      NobodyAtStart(low, high, run, w);
    }
    var st, e := At(low, high, run, n - 1), run[n - 1];
    NextState(low, high, run, n - 1);
    assert Exclusive(st);
    if Holds(st, w) && st.given[w].port in Free(st.ports) {
      i := FreedByOther(low, high, run, n - 1, w);
    } else {
      i := n - 1;
      RunInRange(low, high, run, n - 1);
      FreedHere(st, e, w);
    }
  }

  lemma NobodyAtStart(low: int, high: int, run: seq<Event>, w: nat)
    ensures !Holds(At(low, high, run, 0), w)
  {
  }

  lemma FreedHere(st: State, e: Event, w: nat)
    requires Exclusive(st) && Enabled(st, e) && Holds(Step(st, e), w)
    requires Step(st, e).given[w].port in Free(Step(st, e).ports)
    requires !(Holds(st, w) && st.given[w].port in Free(st.ports))
    requires forall v :: v in st.given ==> st.given[v].port in st.ports
    ensures Harms(st, e, w)
  {
  }

  lemma StepShares(st: State, e: Event) returns (w: nat)
    requires Exclusive(st) && Enabled(st, e) && !Exclusive(Step(st, e))
    ensures Holds(st, w) && e.Connect? && e.port == Some(st.given[w].port)
  {
    var next := Step(st, e);
    var u: nat, v: nat :| Holds(next, u) && Holds(next, v) && next.given[u].port == next.given[v].port && u != v;
    w := if e.Connect? && e.who == u then v else u;
  }

  lemma {:induction false} SharedStolen(low: int, high: int, run: seq<Event>, n: nat)
    requires IsRun(low, high, run) && n <= |run| && !Exclusive(At(low, high, run, n))
    ensures Stolen(low, high, run)
  {
    hide At, Exclusive, Harms, Enabled;
    if m: nat :| m < n && !Exclusive(At(low, high, run, m)) {
      SharedStolen(low, high, run, m);
    } else {
      if n == 0 { StartExclusive(low, high, run); }
      NextState(low, high, run, n - 1);
      var w := StepShares(At(low, high, run, n - 1), run[n - 1]);
      ConnectsToFree(At(low, high, run, n - 1), run[n - 1]);
      var i := FreedByOther(low, high, run, n - 1, w);
      HarmHolds(At(low, high, run, i), run[i], w);
      Lasts(low, high, run, i, n - 1, w);
      assert StolenAt(low, high, run, i, n - 1, w);
    }
  }

  lemma ConnectsToFree(st: State, e: Event)
    requires Enabled(st, e) && e.Connect? && e.port.Some?
    ensures e.port.value in Free(st.ports)
  {
  }

  lemma StartExclusive(low: int, high: int, run: seq<Event>)
    ensures Exclusive(At(low, high, run, 0))
  {
  }

  /** In a run, no two callers ever hold one port exactly when no port is stolen: freed by a repeated close while
      another caller holds it, and given away before that one closes. */
  lemma ExclusiveIffNotStolen(low: int, high: int, run: seq<Event>)
    requires IsRun(low, high, run)
    ensures (forall n :: 0 <= n <= |run| ==> Exclusive(At(low, high, run, n))) <==> !Stolen(low, high, run)
  {
    hide At, Exclusive, StolenAt;
    if i, j, w :| 0 <= i < j < |run| && StolenAt(low, high, run, i, j, w) {
      StolenShared(low, high, run, i, j, w);
      assert !Exclusive(At(low, high, run, j + 1));
    }
    if n :| 0 <= n <= |run| && !Exclusive(At(low, high, run, n)) {
      SharedStolen(low, high, run, n);
    }
  }

  lemma OneMore(low: int, high: int, run: seq<Event>, e: Event)
    requires IsRun(low, high, run) && Enabled(After(low, high, run), e)
    ensures IsRun(low, high, run + [e]) && After(low, high, run + [e]) == Step(After(low, high, run), e)
  {
    hide After, Enabled, Step;
    var more := run + [e];
    assert more[..|run|] == run;
    forall n | 0 <= n < |more|
      ensures Enabled(At(low, high, more, n), more[n])
    {
      if n < |run| {
        assert more[..n] == run[..n];
        assert Enabled(At(low, high, run, n), run[n]);
      }
    }
    LastStep(low, high, run, e);
  }

  lemma LastStep(low: int, high: int, run: seq<Event>, e: Event)
    ensures After(low, high, run + [e]) == Step(After(low, high, run), e)
  {
    assert (run + [e])[..|run|] == run;
  }

  /** On a range of one port: a second close by caller 0 lets callers 1 and 2 hold the port. */
  lemma TwoHolders(a: string, b: string, c: string)
    ensures var run := [Connect(0, a, Some(7)), Close(0), Connect(1, b, Some(7)), Close(0), Connect(2, c, Some(7))];
            IsRun(7, 7, run) && HoldsPort(After(7, 7, run), 1, 7) && HoldsPort(After(7, 7, run), 2, 7)
  {
    hide IsRun;
    NoEvents();
    assert 7 in PortRange(7, 7);
    OneMore(7, 7, [], Connect(0, a, Some(7)));
    OneMore(7, 7, [] + [Connect(0, a, Some(7))], Close(0));
    OneMore(7, 7, [] + [Connect(0, a, Some(7))] + [Close(0)], Connect(1, b, Some(7)));
    OneMore(7, 7, [] + [Connect(0, a, Some(7))] + [Close(0)] + [Connect(1, b, Some(7))], Close(0));
    OneMore(7, 7, [] + [Connect(0, a, Some(7))] + [Close(0)] + [Connect(1, b, Some(7))] + [Close(0)], Connect(2, c, Some(7)));
    assert [] + [Connect(0, a, Some(7))] + [Close(0)] + [Connect(1, b, Some(7))] + [Close(0)] + [Connect(2, c, Some(7))]
        == [Connect(0, a, Some(7)), Close(0), Connect(1, b, Some(7)), Close(0), Connect(2, c, Some(7))];
  }

  lemma NoEvents()
    ensures IsRun(7, 7, []) && After(7, 7, []) == Start(7, 7)
  {
  }

  // ----- sessions

  /** A connection brings a queue name that none before it brought. */
  ghost predicate OwnQueue(st: State, e: Event) {
    e.Connect? ==> forall w :: w in st.given ==> st.given[w].queue != e.queue
  }

  ghost predicate QueuesDiffer(st: State) {
    forall v, w :: v in st.given && w in st.given && st.given[v].queue == st.given[w].queue ==> v == w
  }

  /** The session of a caller is recorded, with its port, exactly while it holds the port. */
  ghost predicate HoldersRecorded(st: State) {
    forall w :: w in st.given ==>
      if Holds(st, w) then st.given[w].queue in st.sessions && st.sessions[st.given[w].queue] == st.given[w].port
      else st.given[w].queue !in st.sessions
  }

  ghost predicate OnlyGivenRecorded(st: State) {
    forall q :: q in st.sessions ==> exists w :: w in st.given && st.given[w].queue == q
  }

  ghost predicate SessionsRight(st: State) { QueuesDiffer(st) && HoldersRecorded(st) && OnlyGivenRecorded(st) }

  lemma ConnectHolders(st: State, w: nat, q: string, p: int)
    requires HoldersRecorded(st) && OwnQueue(st, Connect(w, q, Some(p))) && w !in st.given && w !in st.closed
    ensures HoldersRecorded(Step(st, Connect(w, q, Some(p))))
  {
    var next := Step(st, Connect(w, q, Some(p)));
    forall v | v in next.given && v != w
      ensures v in st.given && next.given[v] == st.given[v] && next.given[v].queue != q
    {
    }
  }

  lemma ConnectQueues(st: State, w: nat, q: string, p: int)
    requires QueuesDiffer(st) && OwnQueue(st, Connect(w, q, Some(p))) && w !in st.given
    ensures QueuesDiffer(Step(st, Connect(w, q, Some(p))))
  {
  }

  lemma ConnectOnlyGiven(st: State, w: nat, q: string, p: int)
    requires OnlyGivenRecorded(st) && w !in st.given
    ensures OnlyGivenRecorded(Step(st, Connect(w, q, Some(p))))
  {
    var next := Step(st, Connect(w, q, Some(p)));
    forall r | r in next.sessions
      ensures exists v :: v in next.given && next.given[v].queue == r
    {
      if r == q {
        assert next.given[w].queue == r;
      } else {
        var v :| v in st.given && st.given[v].queue == r;
        assert next.given[v].queue == r;
      }
    }
  }

  lemma CloseSessions(st: State, w: nat)
    requires SessionsRight(st) && w in st.given
    ensures SessionsRight(Step(st, Close(w)))
  {
    var next := Step(st, Close(w));
    assert forall v :: Holds(next, v) ==> Holds(st, v) && v != w;
  }

  lemma StepSessions(st: State, e: Event)
    requires SessionsRight(st) && OwnQueue(st, e) && Enabled(st, e) && forall w :: w in st.closed ==> w in st.given
    ensures SessionsRight(Step(st, e))
  {
    hide QueuesDiffer, HoldersRecorded, OnlyGivenRecorded, OwnQueue;
    if e.Close? {
      CloseSessions(st, e.who);
    } else if e.port.Some? {
      ConnectQueues(st, e.who, e.queue, e.port.value);
      ConnectHolders(st, e.who, e.queue, e.port.value);
      ConnectOnlyGiven(st, e.who, e.queue, e.port.value);
    }
  }

  /** With queue names of their own, the recorded sessions are exactly those of the callers that hold a port, repeated
      closes or not. */
  lemma {:induction false} SessionsOfHolders(low: int, high: int, run: seq<Event>, n: nat)
    requires IsRun(low, high, run) && n <= |run|
    requires forall i :: 0 <= i < |run| ==> OwnQueue(At(low, high, run, i), run[i])
    ensures SessionsRight(At(low, high, run, n))
  {
    hide Step, SessionsRight, OwnQueue, Enabled;
    if n == 0 {
      NoSessions(low, high, run);
    } else {
      SessionsOfHolders(low, high, run, n - 1);
      RunInRange(low, high, run, n - 1);
      StepSessions(At(low, high, run, n - 1), run[n - 1]);
      NextState(low, high, run, n - 1);
    }
  }

  lemma NoSessions(low: int, high: int, run: seq<Event>)
    ensures SessionsRight(At(low, high, run, 0))
  {
  }

  // ----- the gateway

  lemma SomeMember(s: set<int>)
    requires s != {}
    ensures exists p :: p in s
  {
    assert (forall p :: p !in s) ==> s == {};
  }

  class Gateway {
    const portMin: int
    const portMax: int
    var portAllocationMap: map<int, bool>
    var activeSessions: map<string, int>
    ghost var given: map<nat, Grant>
    ghost var closed: set<nat>

    ghost function Current(): State
      reads this
    {
      State(portAllocationMap, activeSessions, given, closed)
    }

    constructor (portMin: int, portMax: int)
      ensures this.portMin == portMin && this.portMax == portMax && Current() == Start(portMin, portMax)
    {
      this.portMin, this.portMax := portMin, portMax;
      activeSessions, given, closed := map[], map[], {};
      var filled: map<int, bool> := map[];
      var i := portMin;
      while i <= portMax
        invariant portMin <= i && (i <= portMax + 1 || i == portMin)
        invariant forall p :: p in filled <==> portMin <= p < i
        invariant forall p :: p in filled ==> filled[p]
      {
        filled := filled[i := true];
        i := i + 1;
      }
      var all := Start(portMin, portMax).ports;
      assert forall p :: p in all <==> p in filled;
      assert filled == all;
      portAllocationMap := filled;
    }

    /** Some free port, now reserved; fails exactly when none is free. */
    method GetAvailablePort() returns (r: Option<int>)
      modifies this`portAllocationMap
      ensures r.None? <==> old(Free(portAllocationMap)) == {}
      ensures r.None? ==> portAllocationMap == old(portAllocationMap)
      ensures r.Some? ==> r.value in old(Free(portAllocationMap))
      ensures r.Some? ==> portAllocationMap == old(portAllocationMap)[r.value := false]
    {
      var freePorts: seq<int> := [];
      var ports := portAllocationMap;
      var entries := set p | p in ports;
      while entries != {}
        invariant portAllocationMap == ports && forall p :: p in entries ==> p in ports
        invariant forall p :: p in freePorts <==> p in ports && p !in entries && ports[p]
        decreases |entries|
      {
        SomeMember(entries);
        var p :| p in entries;
        if ports[p] {
          freePorts := freePorts + [p];
        }
        entries := entries - {p};
      }
      if freePorts == [] {
        assert forall p :: p in ports ==> p !in freePorts;
        if Free(ports) != {} { SomeMember(Free(ports)); }
        return None;
      }
      var port := freePorts[0];
      assert port in freePorts;
      portAllocationMap := portAllocationMap[port := false];
      r := Some(port);
    }

    /** The caller `who` closes, for the first time or again. */
    method ConsumerSideClose(ghost who: nat, port: int, queueName: string)
      requires who in given && given[who] == Grant(port, queueName)
      modifies this
      ensures Current() == Step(old(Current()), Close(who))
    {
      portAllocationMap := portAllocationMap[port := true];
      activeSessions := activeSessions - {queueName};
      closed := closed + {who};
    }

    /** Reserves a port and records the session with it. If the channel to the broker then fails to open, both stay. */
    method ConnectToConsumer(ghost who: nat, queueName: string, channelOpens: bool)
        returns (r: Result<int, Error>, ghost e: Event)
      requires who !in given
      modifies this
      ensures e.Connect? && e.who == who && e.queue == queueName && Enabled(old(Current()), e)
      ensures Current() == Step(old(Current()), e)
      ensures r == if e.port.None? then Failure(NoPort)
                   else if channelOpens then Success(e.port.value) else Failure(NoChannel)
    {
      var port := GetAvailablePort();
      e := Connect(who, queueName, port);
      if port.None? {
        return Failure(NoPort), e;
      }
      activeSessions := activeSessions[queueName := port.value];
      given := given[who := Grant(port.value, queueName)];
      if !channelOpens {
        return Failure(NoChannel), e;
      }
      r := Success(port.value);
    }
  }
}
