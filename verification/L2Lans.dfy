/** Layer 2 LANs collected from the interfaces of a node (src/l2-lan.cpp). */
module L2Lans {
  import opened Addressing

  datatype Endpoint = Endpoint(node: string, intf: string)

  // The layer 2 interfaces of all nodes, the peer of each connected interface and the addresses of
  // the layer 3 interfaces.
  datatype Wiring = Wiring(l2: set<Endpoint>, peers: map<Endpoint, Endpoint>, addr: Endpoint -> Addr)

  // The other end of a layer 2 interface, when that is a layer 2 interface as well.
  predicate Bridged(w: Wiring, e: Endpoint, p: Endpoint) {
    e in w.l2 && p in w.l2 && e in w.peers && w.peers[e] == p
  }

  // The peers of a node's interfaces.
  function PeersOf(w: Wiring, members: set<Endpoint>, n: string): set<Endpoint> {
    set e | e in members && e.node == n && e in w.peers :: w.peers[e]
  }

  // ---- Components ----

  // Endpoint e belongs to the component of node n, seen after k bridged links.
  ghost predicate Spans(w: Wiring, n: string, e: Endpoint, k: nat)
    decreases k
  {
    e in w.l2 && (e.node == n ||
                     (k > 0 && exists d, p :: Spans(w, n, d, k - 1) && Bridged(w, d, p) && p.node == e.node))
  }

  ghost predicate InComponent(w: Wiring, n: string, e: Endpoint) {
    exists k: nat :: Spans(w, n, e, k)
  }

  // A set of endpoints closed under changing the interface of a node and crossing a bridged link.
  ghost predicate Closed(w: Wiring, s: set<Endpoint>) {
    && (forall e, f :: e in s && f in w.l2 && e.node == f.node ==> f in s)
    && (forall e, p :: e in s && Bridged(w, e, p) ==> p in s)
  }

  lemma {:induction false} ClosedHolds(w: Wiring, s: set<Endpoint>, n: string, e: Endpoint, k: nat)
    requires Closed(w, s) && Spans(w, n, e, k) && forall f :: f in w.l2 && f.node == n ==> f in s
    ensures e in s
    decreases k
  {
    if e.node != n {
      var d, p :| Spans(w, n, d, k - 1) && Bridged(w, d, p) && p.node == e.node;
      ClosedHolds(w, s, n, d, k - 1);
    }
  }

  lemma ReachNext(w: Wiring, n: string, d: Endpoint, p: Endpoint, e: Endpoint)
    requires InComponent(w, n, d) && Bridged(w, d, p) && e in w.l2 && e.node == p.node
    ensures InComponent(w, n, e)
  {
    var k: nat :| Spans(w, n, d, k);
    assert Spans(w, n, e, k + 1);
  }

  lemma {:induction false} ReachVia(w: Wiring, n: string, m: string, d: Endpoint, e: Endpoint, k: nat)
    requires InComponent(w, n, d) && d.node == m && Spans(w, m, e, k)
    ensures InComponent(w, n, e)
    decreases k
  {
    if e.node == m {
      var j: nat :| Spans(w, n, d, j);
      assert Spans(w, n, e, j);
    } else {
      var f, p :| Spans(w, m, f, k - 1) && Bridged(w, f, p) && p.node == e.node;
      ReachVia(w, n, m, d, f, k - 1);
      ReachNext(w, n, f, p, e);
    }
  }

  // ---- Collecting ----

  // None of the peers of new members is missing, and the nodes of new members are complete.
  ghost predicate Complete(w: Wiring, before: set<Endpoint>, s: set<Endpoint>) {
    && (forall e, f :: e in s && e !in before && f in w.l2 && e.node == f.node ==> f in s)
    && (forall e, p :: e in s && e !in before && Bridged(w, e, p) ==> p in s)
  }

  // The same, but the interfaces of one node are still being collected.
  ghost predicate CompleteBut(w: Wiring, before: set<Endpoint>, s: set<Endpoint>, node: string) {
    && (forall e, f :: e in s && e !in before && e.node != node && f in w.l2 && e.node == f.node ==> f in s)
    && (forall e, p :: e in s && e !in before && Bridged(w, e, p) ==> p in s)
  }

  lemma NothingNew(w: Wiring, s: set<Endpoint>, node: string)
    ensures CompleteBut(w, s, s, node)
  {
  }

  // One more interface of the node and, if it is bridged to a new endpoint, what the peer's node adds.
  lemma CompleteMore(w: Wiring, before: set<Endpoint>, s: set<Endpoint>, e: Endpoint, t: set<Endpoint>)
    requires CompleteBut(w, before, s, e.node) && s + {e} <= t && Complete(w, s + {e}, t)
    requires e in w.peers && w.peers[e] in w.l2 ==> w.peers[e] in t
    ensures CompleteBut(w, before, t, e.node)
  {
  }

  lemma CompleteAtEnd(w: Wiring, before: set<Endpoint>, s: set<Endpoint>, node: string)
    requires CompleteBut(w, before, s, node) && forall f :: f in w.l2 && f.node == node ==> f in s
    ensures Complete(w, before, s)
  {
  }

  ghost predicate AllInComponent(w: Wiring, n: string, before: set<Endpoint>, s: set<Endpoint>) {
    forall e :: e in s && e !in before ==> InComponent(w, n, e)
  }

  lemma ThroughPeer(w: Wiring, e: Endpoint, peer: Endpoint, before: set<Endpoint>, s: set<Endpoint>)
    requires Bridged(w, e, peer) && AllInComponent(w, peer.node, before, s)
    ensures AllInComponent(w, e.node, before, s)
  {
    assert Spans(w, e.node, e, 0);
    ReachNext(w, e.node, e, peer, peer);
    forall f | f in s && f !in before ensures InComponent(w, e.node, f) {
      var k: nat :| Spans(w, peer.node, f, k);
      ReachVia(w, e.node, peer.node, peer, f, k);
    }
  }

  // The routed ends of the collected interfaces, by address.
  ghost predicate Routed(w: Wiring, members: set<Endpoint>, l3: map<Addr, Endpoint>) {
    && (forall e :: e in members && e in w.peers && w.peers[e] !in w.l2 ==> w.addr(w.peers[e]) in l3)
    && (forall a :: a in l3 ==> RoutedAt(w, members, a, l3[a]))
  }

  // p is the routed end of a member and has address a.
  ghost predicate RoutedAt(w: Wiring, members: set<Endpoint>, a: Addr, p: Endpoint) {
    w.addr(p) == a && exists e :: e in members && RoutedEnd(w, e, p)
  }

  ghost predicate RoutedEnd(w: Wiring, e: Endpoint, p: Endpoint) {
    e in w.peers && w.peers[e] == p && p !in w.l2
  }

  ghost predicate Tabled(w: Wiring, members: set<Endpoint>, tbl: map<string, set<Endpoint>>) {
    forall n :: (if n in tbl then tbl[n] else {}) == PeersOf(w, members, n) && (n in tbl ==> tbl[n] != {})
  }

  lemma PeersMore(w: Wiring, members: set<Endpoint>, e: Endpoint, n: string)
    ensures PeersOf(w, members + {e}, n) ==
            PeersOf(w, members, n) + if n == e.node && e in w.peers then {w.peers[e]} else {}
  {
  }

  lemma TabledMore(w: Wiring, members: set<Endpoint>, tbl: map<string, set<Endpoint>>, e: Endpoint)
    requires Tabled(w, members, tbl)
    ensures e !in w.peers ==> Tabled(w, members + {e}, tbl)
    ensures e in w.peers ==>
              Tabled(w, members + {e}, tbl[e.node := (if e.node in tbl then tbl[e.node] else {}) + {w.peers[e]}])
  {
    hide PeersOf;
    forall n
      ensures PeersOf(w, members + {e}, n) ==
              PeersOf(w, members, n) + if n == e.node && e in w.peers then {w.peers[e]} else {}
    {
      PeersMore(w, members, e, n);
    }
  }

  lemma RoutedMore(w: Wiring, members: set<Endpoint>, l3: map<Addr, Endpoint>, e: Endpoint)
    requires Routed(w, members, l3)
    ensures e !in w.peers || w.peers[e] in w.l2 ==> Routed(w, members + {e}, l3)
    ensures e in w.peers && w.peers[e] !in w.l2 ==>
              Routed(w, members + {e}, l3[w.addr(w.peers[e]) := w.peers[e]])
  {
    forall a, p | RoutedAt(w, members, a, p) ensures RoutedAt(w, members + {e}, a, p) {
      var d :| d in members && RoutedEnd(w, d, p);
      assert d in members + {e};
    }
    if e in w.peers && w.peers[e] !in w.l2 { assert RoutedEnd(w, e, w.peers[e]); }
  }

  class L2Lan {
    const w: Wiring
    var tbl: map<string, set<Endpoint>>
    var l2Endpoints: set<Endpoint>
    var l3Endpoints: map<Addr, Endpoint>

    ghost predicate Valid()
      reads this
    {
      l2Endpoints <= w.l2 && Tabled(w, l2Endpoints, tbl) && Routed(w, l2Endpoints, l3Endpoints)
    }

    // The LAN of a node: all layer 2 interfaces of its component.
    constructor (w: Wiring, node: string)
      ensures Valid() && this.w == w
      ensures forall e :: e in l2Endpoints <==> InComponent(w, node, e)
    {
      this.w := w;
      tbl, l2Endpoints, l3Endpoints := map[], {}, map[];
      new;
      CollectIntfs(node);
      forall e ensures e in l2Endpoints <==> InComponent(w, node, e) {
        if InComponent(w, node, e) {
          var k: nat :| Spans(w, node, e, k);
          ClosedHolds(w, l2Endpoints, node, e, k);
        }
      }
    }

    // Adds one interface and its peer; returns whether the peer is bridged.
    method AddEndpoint(e: Endpoint) returns (bridged: bool)
      requires Valid() && e in w.l2 && e !in l2Endpoints
      modifies this
      ensures Valid() && l2Endpoints == old(l2Endpoints) + {e}
      ensures bridged <==> e in w.peers && w.peers[e] in w.l2
    {
      hide Tabled, Routed;
      TabledMore(w, l2Endpoints, tbl, e);
      RoutedMore(w, l2Endpoints, l3Endpoints, e);
      l2Endpoints := l2Endpoints + {e};
      bridged := false;
      if e in w.peers {
        var peer := w.peers[e];
        tbl := tbl[e.node := (if e.node in tbl then tbl[e.node] else {}) + {peer}];
        if peer !in w.l2 {
          l3Endpoints := l3Endpoints[w.addr(peer) := peer];
        } else {
          bridged := true;
        }
      }
    }

    method CollectIntfs(node: string)
      requires Valid()
      modifies this
      ensures Valid() && old(l2Endpoints) <= l2Endpoints
      ensures forall f :: f in w.l2 && f.node == node ==> f in l2Endpoints
      ensures Complete(w, old(l2Endpoints), l2Endpoints)
      ensures AllInComponent(w, node, old(l2Endpoints), l2Endpoints)
      decreases w.l2 - l2Endpoints
    {
      hide Valid, CompleteBut, Complete, InComponent;
      ghost var before := l2Endpoints;
      NothingNew(w, before, node);
      var todo := set e | e in w.l2 && e.node == node;
      while todo != {}
        invariant Valid() && before <= l2Endpoints && forall f :: f in todo ==> f in w.l2 && f.node == node
        invariant forall f :: f in w.l2 && f.node == node ==> f in todo || f in l2Endpoints
        invariant CompleteBut(w, before, l2Endpoints, node) && AllInComponent(w, node, before, l2Endpoints)
        decreases |todo|
      {
        var e :| e in todo;
        todo := todo - {e};
        if e !in l2Endpoints {
          ghost var s := l2Endpoints;
          var bridged := AddEndpoint(e);
          NothingMore(w, s + {e});
          InOwnComponent(w, e);
          if bridged && w.peers[e] !in l2Endpoints {
            CollectIntfs(w.peers[e].node);
            ThroughPeer(w, e, w.peers[e], s + {e}, l2Endpoints);
          }
          CompleteMore(w, before, s, e, l2Endpoints);
        }
      }
      CompleteAtEnd(w, before, l2Endpoints, node);
    }
  }

  lemma NothingMore(w: Wiring, s: set<Endpoint>)
    ensures Complete(w, s, s)
  {
  }

  lemma InOwnComponent(w: Wiring, e: Endpoint)
    requires e in w.l2
    ensures InComponent(w, e.node, e)
  {
    assert Spans(w, e.node, e, 0);
  }

  // ---- One LAN for the whole component ----

  ghost predicate Symmetric(w: Wiring) {
    forall e, p :: Bridged(w, e, p) ==> Bridged(w, p, e)
  }

  // No two routed ends of the component have the same address.
  ghost predicate UniqueAddresses(w: Wiring, members: set<Endpoint>) {
    forall a: Addr, p, q :: RoutedAt(w, members, a, p) && RoutedAt(w, members, a, q) ==> p == q
  }

  lemma {:induction false} SpansBack(w: Wiring, n: string, first: Endpoint, e: Endpoint, k: nat)
    requires Symmetric(w) && first in w.l2 && first.node == n && Spans(w, n, e, k)
    ensures InComponent(w, e.node, first)
    decreases k
  {
    if e.node == n {
      assert Spans(w, n, first, 0);
    } else {
      var d, p :| Spans(w, n, d, k - 1) && Bridged(w, d, p) && p.node == e.node;
      SpansBack(w, n, first, d, k - 1);
      assert Spans(w, e.node, p, 0);
      ReachNext(w, e.node, p, d, d);
      var j: nat :| Spans(w, d.node, first, j);
      ReachVia(w, e.node, d.node, d, first, j);
    }
  }

  // With symmetric peers a node and any node of its component have the same component.
  lemma SameComponent(w: Wiring, n: string, first: Endpoint, m: string, e: Endpoint, f: Endpoint)
    requires Symmetric(w) && first in w.l2 && first.node == n && InComponent(w, n, e) && e.node == m
    ensures InComponent(w, n, f) <==> InComponent(w, m, f)
  {
    if InComponent(w, m, f) {
      var k: nat :| Spans(w, m, f, k);
      ReachVia(w, n, m, e, f, k);
    }
    if InComponent(w, n, f) {
      var j: nat :| Spans(w, n, e, j);
      SpansBack(w, n, first, e, j);
      var k: nat :| Spans(w, n, f, k);
      ReachVia(w, m, n, first, f, k);
    }
  }

  // With unique addresses the members determine the tables.
  lemma SameTables(w: Wiring, members: set<Endpoint>, tbl: map<string, set<Endpoint>>, l3: map<Addr, Endpoint>,
                   tbl': map<string, set<Endpoint>>, l3': map<Addr, Endpoint>)
    requires Tabled(w, members, tbl) && Tabled(w, members, tbl') && Routed(w, members, l3) && Routed(w, members, l3')
    requires UniqueAddresses(w, members)
    ensures tbl == tbl' && l3 == l3'
  {
    hide Routed, UniqueAddresses, Tabled;
    SameEntries(w, members, tbl, tbl');
    forall a | a in l3 ensures a in l3' && l3[a] == l3'[a] {
      RoutedSame(w, members, l3, l3', a);
    }
    forall a | a in l3' ensures a in l3 {
      RoutedSame(w, members, l3', l3, a);
    }
  }

  lemma RoutedSame(w: Wiring, members: set<Endpoint>, l3: map<Addr, Endpoint>, l3': map<Addr, Endpoint>, a: Addr)
    requires Routed(w, members, l3) && Routed(w, members, l3') && UniqueAddresses(w, members) && a in l3
    ensures a in l3' && l3[a] == l3'[a]
  {
    assert RoutedAt(w, members, a, l3[a]);
    var e :| e in members && RoutedEnd(w, e, l3[a]);
    assert RoutedAt(w, members, a, l3'[a]);
  }

  // The LANs built from any two nodes of a component are equal, in members, tables and addresses.
  lemma SameLan(a: L2Lan, b: L2Lan, n: string, first: Endpoint, m: string, e: Endpoint)
    requires a.Valid() && b.Valid() && a.w == b.w && Symmetric(a.w) && UniqueAddresses(a.w, a.l2Endpoints)
    requires forall f :: f in a.l2Endpoints <==> InComponent(a.w, n, f)
    requires forall f :: f in b.l2Endpoints <==> InComponent(a.w, m, f)
    requires first in a.w.l2 && first.node == n && e in a.l2Endpoints && e.node == m
    ensures a.l2Endpoints == b.l2Endpoints && a.tbl == b.tbl && a.l3Endpoints == b.l3Endpoints
  {
    hide InComponent, Tabled, Routed, UniqueAddresses, Symmetric;
    forall f ensures f in a.l2Endpoints <==> f in b.l2Endpoints {
      SameComponent(a.w, n, first, m, e, f);
    }
    assert a.l2Endpoints == b.l2Endpoints;
    SameTables(a.w, a.l2Endpoints, a.tbl, a.l3Endpoints, b.tbl, b.l3Endpoints);
  }

  // ---- Comparing the tables only ----

  lemma {:induction false} SpansFromFirst(w: Wiring, n: string, e: Endpoint, k: nat) returns (first: Endpoint)
    requires Spans(w, n, e, k)
    ensures first in w.l2 && first.node == n
    decreases k
  {
    if e.node == n {
      return e;
    }
    var d, p :| Spans(w, n, d, k - 1) && Bridged(w, d, p) && p.node == e.node;
    first := SpansFromFirst(w, n, d, k - 1);
  }

  // A node with an entry in the table has an interface among the members, and the LAN is that
  // node's component.
  lemma TabledNode(w: Wiring, members: set<Endpoint>, tbl: map<string, set<Endpoint>>, n: string, m: string)
    requires Symmetric(w) && Tabled(w, members, tbl) && m in tbl
    requires forall f :: f in members <==> InComponent(w, n, f)
    ensures forall f :: f in members <==> InComponent(w, m, f)
  {
    hide Symmetric;
    assert tbl[m] == PeersOf(w, members, m) && tbl[m] != {};
    var p :| p in PeersOf(w, members, m);
    var e :| e in members && e.node == m && e in w.peers && w.peers[e] == p;
    var k: nat :| Spans(w, n, e, k);
    var first := SpansFromFirst(w, n, e, k);
    forall f ensures f in members <==> InComponent(w, m, f) { SameComponent(w, n, first, m, e, f); }
  }

  // What operator== decides: equal tables mean the same LAN, unless both are empty, as they are for
  // interfaces that are connected to nothing.
  lemma EqualTables(a: L2Lan, b: L2Lan, n: string, m: string)
    requires a.Valid() && b.Valid() && a.w == b.w && Symmetric(a.w)
    requires forall f :: f in a.l2Endpoints <==> InComponent(a.w, n, f)
    requires forall f :: f in b.l2Endpoints <==> InComponent(a.w, m, f)
    ensures a.tbl == b.tbl <==> a.l2Endpoints == b.l2Endpoints || (a.tbl == map[] && b.tbl == map[])
  {
    hide InComponent, Tabled, Routed, Symmetric;
    if a.tbl == b.tbl && a.tbl != map[] {
      var l :| l in a.tbl;
      TabledNode(a.w, a.l2Endpoints, a.tbl, n, l);
      TabledNode(a.w, b.l2Endpoints, b.tbl, m, l);
      assert a.l2Endpoints == b.l2Endpoints;
    }
    if a.l2Endpoints == b.l2Endpoints {
      SameEntries(a.w, a.l2Endpoints, a.tbl, b.tbl);
    }
  }

  lemma SameEntries(w: Wiring, members: set<Endpoint>, tbl: map<string, set<Endpoint>>,
                    tbl': map<string, set<Endpoint>>)
    requires Tabled(w, members, tbl) && Tabled(w, members, tbl')
    ensures tbl == tbl'
  {
    hide PeersOf;
    forall n ensures n in tbl <==> n in tbl' {
      assert (if n in tbl then tbl[n] else {}) == PeersOf(w, members, n) == if n in tbl' then tbl'[n] else {};
    }
    forall n | n in tbl ensures tbl[n] == tbl'[n] {
      assert tbl[n] == PeersOf(w, members, n);
    }
  }
}
