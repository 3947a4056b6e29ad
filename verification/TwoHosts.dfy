/** Two hosts on one link, from their configuration to the explorer. */
module TwoHosts {
  import opened Addressing
  import opened Dataplane
  import opened EcRanges
  import opened EcRequests
  import opened EqClasses
  import opened FibUpdates
  import opened Forwarding
  import opened Network
  import opened NextHops
  import opened Options
  import opened Routing
  import Exactness

  const A := Interface("a", "eth0", false, 1, 30)
  const B := Interface("b", "eth0", false, 2, 30)
  const LINK := Net(0, 30)
  const TO_LINK := Route(LINK, 0, "eth0", 0)

  function Host(own: Interface, peer: Interface): NodeEntry {
    NodeEntry(NodeView(own.node, {own.addr}, map["eth0" := L3Peer(peer)]), [TO_LINK], false)
  }

  const HOSTS := Config(map["a" := Host(A, B), "b" := Host(B, A)], [])
  const SOURCES := [NodeSources([1], [LINK]), NodeSources([2], [LINK])]

  function AddrOf(n: string): Option<Addr> {
    if n == "a" then Some(1) else if n == "b" then Some(2) else None
  }

  lemma LinkIsValid()
    ensures LINK.Valid() && forall a: Addr :: LINK.Contains(a) <==> a <= 3
  {
    assert Pow2(2) == 4 && Pow2(1) == 2 && Pow2(0) == 1;
  }

  lemma HostsAreListed()
    ensures WellFormed(HOSTS) && Exactness.LansAreInside(HOSTS) && SourcesValid(SOURCES, [], [])
    ensures Exactness.Lists(SOURCES, [], HOSTS)
  {
    hide Net.Valid, Net.Contains;
    LinkIsValid();
    assert Exactness.ListsNode(SOURCES[0], HOSTS.nodes["a"]) && Exactness.ListsNode(SOURCES[1], HOSTS.nodes["b"]);
  }

  // An address of the link is its owner's own and the other host's neighbour.
  lemma HopsOverLink(own: Interface, peer: Interface, dst: Addr)
    requires dst <= 3
    ensures Hops(Host(own, peer), [TO_LINK], dst) ==
            {if dst == own.addr then Self(Host(own, peer).view) else Ipnh(peer.node, Some(peer), peer.node, Some(peer))}
  {
    hide Ipnhs, Exits, Net.Contains;
    LinkIsValid();
    assert Lookup([TO_LINK], dst) == [TO_LINK];
    DirectExit([TO_LINK], dst, TO_LINK);
    OneExit(Host(own, peer).view, [TO_LINK], dst, Exit("eth0", dst));
  }

  function LinkRest(payloadOf: (EcId, nat, nat) -> nat): Rest {
    Rest(payloadOf, (n: string, h: Ipnh) => AddrOf(n), n => AddrOf(n))
  }

  // The environment the explorer has for the two hosts.
  ghost function EnvOfHosts(s: seq<ECRange>, ranges: map<EcId, seq<ECRange>>, payloadOf: (EcId, nat, nat) -> nat): Env
    requires WellFormed(HOSTS)
  {
    EnvOf(HOSTS, [], s, ranges, LinkRest(payloadOf))
  }

  lemma HostsAreLinked(s: seq<ECRange>, ranges: map<EcId, seq<ECRange>>, payloadOf: (EcId, nat, nat) -> nat)
    requires WellFormed(HOSTS)
    ensures Linked(EnvOfHosts(s, ranges, payloadOf), HOSTS)
  {
  }

  // The FIB of the class of a's address: a delivers its packets and b sends them to a.
  lemma FibsOverLink(env: Env, s: seq<ECRange>, added: seq<Request>, ranges: map<EcId, seq<ECRange>>)
    requires Explores(env, HOSTS, [], s, added, ranges) && env.ecOf(1) in env.ecs
    ensures var fib := env.fibOf(env.ecOf(1));
            "a" in fib && fib["a"] == [Self(Host(A, B).view)] &&
            "b" in fib && fib["b"] == [Ipnh("a", Some(A), "a", Some(A))]
  {
    hide Coarsest, Labelled, Paired, LabelAt, WellFormed, Exactness.Announced, Exactness.LansAreInside, Linked, Hops;
    var e := env.ecOf(1);
    assert ClassAt(env, s, ranges, e);
    assert FibAt(env, HOSTS, [], ranges, e, "a") && FibAt(env, HOSTS, [], ranges, e, "b");
    Exactness.RepresentativeIsExact(HOSTS, s, added, ranges[e], e, 1);
    assert HOSTS.nodes["a"].rib == [TO_LINK] && HOSTS.nodes["b"].rib == [TO_LINK];
    HopsOverLink(A, B, 1);
    HopsOverLink(B, A, 1);
    OneListed(env.fibOf(e)["a"], Self(Host(A, B).view));
    OneListed(env.fibOf(e)["b"], Ipnh("a", Some(A), "a", Some(A)));
  }

  lemma OneListed(hops: seq<Ipnh>, h: Ipnh)
    requires Enumerates(hops, {h})
    ensures hops == [h]
  {
    assert h in hops && forall i :: 0 <= i < |hops| ==> hops[i] in hops;
    assert hops[0] == h && hops[|hops| - 1] == h;
  }

  lemma HostRequests()
    requires SourcesValid(SOURCES, [], [])
    ensures var link := Request(RangeOf(LINK), false);
            InitialRequests(SOURCES, [], []) ==
            [Request(ECRange(1, 1, 0), true), link, Request(ECRange(2, 2, 0), true), link]
  {
    hide Net.Valid;
    LinkIsValid();
    assert NetRequests([LINK], 1) == [Request(RangeOf(LINK), false)];
    assert AddrRequests([1], true, 1) == [Request(ECRange(1, 1, 0), true)];
    assert AddrRequests([2], true, 1) == [Request(ECRange(2, 2, 0), true)];
    assert NodeRequests(SOURCES, 0) == [];
    assert NodeRequests(SOURCES, 1) == [Request(ECRange(1, 1, 0), true), Request(RangeOf(LINK), false)];
  }

  // The two addresses have a class each; the other two addresses of the link share one.
  lemma ClassesOfHosts(s: seq<ECRange>, owned: set<EcId>)
    requires SourcesValid(SOURCES, [], []) && OwnersAreInterfaces(s, owned, SOURCES)
    requires Coarsest(s, InitialRequests(SOURCES, [], []))
    ensures forall a: Addr :: LabelAt(s, a) in owned <==> a == 1 || a == 2
    ensures LabelAt(s, 1) != LabelAt(s, 2) && LabelAt(s, 0) == LabelAt(s, 3) != 0
  {
    hide LabelAt, InitialRequests;
    var link := Request(RangeOf(LINK), false);
    LinkIsValid();
    HostRequests();
    assert SOURCES[0].addrs == [1] && SOURCES[1].addrs == [2];
    assert link.range.Contains(0) && link.range.Contains(1);
    assert SameEc(s, 0, 3) && SameEc(s, 1, 1);
    var q := Request(ECRange(1, 1, 0), true);
    assert q.range.Contains(1) && !q.range.Contains(2);
    assert !SameEc(s, 1, 2);
  }

  lemma HostsExplore(m: EqClassMgr, payloadOf: (EcId, nat, nat) -> nat)
    requires m.Valid() && m.Exact() && SourcesValid(SOURCES, [], []) && m.added == InitialRequests(SOURCES, [], [])
    ensures WellFormed(HOSTS)
    ensures var env := EnvOfHosts(m.allranges, m.Own(), payloadOf);
            Explores(env, HOSTS, [], m.allranges, m.added, m.Own()) && Sound(env) && env.ecOf(1) in env.ecs
  {
    hide Explores, Sound, Linked, InitialRequests, Exactness.Lists, Exactness.LansAreInside;
    HostsAreListed();
    assert m.added == InitialRequests(SOURCES, [], []) + [];
    HostsAreLinked(m.allranges, m.Own(), payloadOf);
    InitialEcsExplore(m, HOSTS, [], SOURCES, [], [], [], LinkRest(payloadOf));
    AddressHasClass(EnvOfHosts(m.allranges, m.Own(), payloadOf), HOSTS, [], m.allranges, m.added, m.Own(), "a", 1);
  }

  // The classes computed for the two hosts and the FIBs built for them make an environment in which
  // every theorem about the explorer applies.
  method Explore(payloadOf: (EcId, nat, nat) -> nat) returns (m: EqClassMgr, ghost env: Env)
    ensures fresh(m) && m.Valid() && m.Exact()
    ensures Explores(env, HOSTS, [], m.allranges, m.added, m.Own()) && Sound(env)
    ensures forall a: Addr :: LabelAt(m.allranges, a) in m.ownedEcs <==> a == 1 || a == 2
    ensures LabelAt(m.allranges, 1) != LabelAt(m.allranges, 2)
    ensures LabelAt(m.allranges, 0) == LabelAt(m.allranges, 3) != 0
    ensures "b" in env.fibOf(env.ecOf(1)) && env.fibOf(env.ecOf(1))["b"] == [Ipnh("a", Some(A), "a", Some(A))]
  {
    hide *;
    m := new EqClassMgr();
    HostsAreListed();
    m.ComputeInitialEcs(SOURCES, [], []);
    assert m.added == InitialRequests(SOURCES, [], []);
    m.ExactNow();
    ClassesOfHosts(m.allranges, m.ownedEcs);
    HostsExplore(m, payloadOf);
    env := EnvOfHosts(m.allranges, m.Own(), payloadOf);
    FibsOverLink(env, m.allranges, m.added, m.Own());
  }
}
