/** One representative address is exact for its whole equivalence class
    (src/eqclassmgr.cpp:131-157, src/model-access.cpp:308-324). */
module Exactness {
  import opened Addressing
  import opened Routing
  import opened EcRanges
  import opened EcRequests
  import opened EqClasses
  import opened NextHops
  import opened Dataplane

  // ---- The partition ----

  // The partition depends on the set of ranges added, not on their order or repetition.
  lemma PartitionIgnoresOrder(s: seq<ECRange>, added: seq<Request>, t: seq<ECRange>, added': seq<Request>)
    requires Coarsest(s, added) && Coarsest(t, added')
    requires forall q: Request :: q in added <==> q in added'
    ensures forall a: Addr, b: Addr :: SameEc(s, a, b) <==> SameEc(t, a, b)
  {
    forall a: Addr, b: Addr
      ensures SameEc(s, a, b) <==> SameEc(t, a, b)
    {
      assert CoveredBy(added, a) <==> CoveredBy(added', a);
      assert Alike(added, a, b) <==> Alike(added', a, b);
    }
  }

  // A range that was added either holds a class or misses it.
  lemma AddedRangeHoldsOrMisses(s: seq<ECRange>, added: seq<Request>, q: Request, a: Addr, b: Addr)
    requires Coarsest(s, added) && q in added && SameEc(s, a, b)
    ensures q.range.Contains(a) <==> q.range.Contains(b)
  {
    assert Alike(added, a, b);
  }

  // The network was added, so Route::relevant_to_ec never reports that it splits the class.
  lemma AddedNetworkNeverSplits(s: seq<ECRange>, added: seq<Request>, own: seq<ECRange>, e: EcId, n: Net, owned: bool)
    requires Labelled(s) && Coarsest(s, added) && Paired(s, own, e) && own != []
    requires n.Valid() && Request(RangeOf(n), owned) in added
    ensures !Splits(n, own)
    ensures forall a: Addr :: LabelAt(s, a) == e && e != 0 ==> (n.Contains(a) <==> Relevant(n, own))
  {
    var q := Request(RangeOf(n), owned);
    var first := own[0];
    assert first in own;
    OwnLabel(s, own, e, first);
    forall x | x in own
      ensures Holds(n, x) == Relevant(n, own)
    {
      OwnLabel(s, own, e, x);
      AddedRangeHoldsOrMisses(s, added, q, first.lb, first.ub);
      AddedRangeHoldsOrMisses(s, added, q, first.lb, x.lb);
      AddedRangeHoldsOrMisses(s, added, q, first.lb, x.ub);
    }
    forall a: Addr | LabelAt(s, a) == e && e != 0
      ensures n.Contains(a) <==> Relevant(n, own)
    {
      AddedRangeHoldsOrMisses(s, added, q, first.lb, first.ub);
      AddedRangeHoldsOrMisses(s, added, q, first.lb, a);
    }
  }

  lemma OwnLabel(s: seq<ECRange>, own: seq<ECRange>, e: EcId, x: ECRange)
    requires Labelled(s) && Paired(s, own, e) && x in own
    ensures x.lb <= x.ub && LabelAt(s, x.lb) == e == LabelAt(s, x.ub) && e != 0
  {
    var i :| 0 <= i < |own| && own[i] == x;
    LabelOfMember(s, x, x.lb);
    LabelOfMember(s, x, x.ub);
  }

  // An address added on its own is a class of its own.
  lemma AddedAddressIsAlone(s: seq<ECRange>, added: seq<Request>, a: Addr, owned: bool, b: Addr)
    requires Coarsest(s, added) && Request(ECRange(a, a, 0), owned) in added && SameEc(s, a, b)
    ensures a == b
  {
    AddedRangeHoldsOrMisses(s, added, Request(ECRange(a, a, 0), owned), a, b);
  }

  // After the initial computation and any further additions, which are not owned, the owned classes
  // are exactly those of the interface addresses, and each holds one address.
  lemma OwnedClassesAreSingletons(s: seq<ECRange>, owned: set<EcId>, nodes: seq<NodeSources>, updates: seq<seq<Net>>,
                                  mbs: seq<MbSources>, rest: seq<Request>, a: Addr)
    requires SourcesValid(nodes, updates, mbs) && NoneOwned(rest)
    requires Coarsest(s, InitialRequests(nodes, updates, mbs) + rest)
    requires OwnershipExact(s, owned, InitialRequests(nodes, updates, mbs) + rest)
    ensures LabelAt(s, a) in owned <==> IsInterfaceAddress(nodes, a)
    ensures LabelAt(s, a) in owned ==> forall b: Addr :: SameEc(s, a, b) ==> b == a
  {
    hide InitialRequests, IsInterfaceAddress, LabelAt;
    var initial := InitialRequests(nodes, updates, mbs);
    InitialOwned(nodes, updates, mbs);
    assert OwnedBy(initial + rest, a) <==> OwnedBy(initial, a) by {
      if OwnedBy(initial, a) {
        var q :| q in initial && q.owned && q.range.Contains(a);
        assert q in initial + rest;
      }
    }
    if LabelAt(s, a) in owned {
      var q :| q in initial && q.owned && q.range.Contains(a);
      assert q in initial + rest;
      forall b: Addr | SameEc(s, a, b) ensures b == a {
        AddedRangeHoldsOrMisses(s, initial + rest, q, a, b);
      }
    }
  }

  // ---- The data plane ----

  // Every network and every interface address of the configuration was added.
  predicate Announced(c: Config, added: seq<Request>) {
    && (forall n, r :: n in c.nodes && r in c.nodes[n].rib ==> Added(added, r.network))
    && (forall i, r :: 0 <= i < |c.updates| && r in c.updates[i].routes ==> Added(added, r.network))
    && (forall n, a :: n in c.nodes && a in c.nodes[n].view.addrs ==> Request(ECRange(a, a, 0), true) in added)
  }

  predicate Added(added: seq<Request>, n: Net) {
    n.Valid() && Request(RangeOf(n), false) in added
  }

  // LANs end at interfaces of nodes of the network.
  ghost predicate LansAreInside(c: Config) {
    forall n, e, a ::
      (n in c.nodes && e in c.nodes[n].view.far && c.nodes[n].view.far[e].L2Peer? &&
       a in c.nodes[n].view.far[e].endpoints) ==>
      (exists m :: m in c.nodes && a in c.nodes[m].view.addrs)
  }

  // Two addresses of one class are not told apart by any node with a table of announced networks.
  lemma SameClassUnseparated(c: Config, s: seq<ECRange>, added: seq<Request>, n: string, rib: seq<Route>,
                             a: Addr, b: Addr)
    requires Coarsest(s, added) && Announced(c, added) && LansAreInside(c) && n in c.nodes
    requires forall r :: r in rib ==> Added(added, r.network)
    requires SameEc(s, a, b)
    ensures Unseparated(c.nodes[n].view, rib, a, b)
  {
    forall r | r in rib
      ensures r.network.Contains(a) <==> r.network.Contains(b)
    {
      AddedRangeHoldsOrMisses(s, added, Request(RangeOf(r.network), false), a, b);
    }
    if a != b {
      KnownIsAlone(c, s, added, n, a, b);
      KnownIsAlone(c, s, added, n, b, a);
    }
  }

  lemma KnownIsAlone(c: Config, s: seq<ECRange>, added: seq<Request>, n: string, a: Addr, b: Addr)
    requires Coarsest(s, added) && Announced(c, added) && LansAreInside(c) && n in c.nodes
    requires SameEc(s, a, b) && a != b
    ensures !KnownAddr(c.nodes[n].view, a)
  {
    if m :| m in c.nodes && a in c.nodes[m].view.addrs {
      AddedAddressIsAlone(s, added, a, true, b);
    }
  }

  // The central theorem: at every node, with its routing table itself, with the table of any number
  // of installed updates and with the table of one more update being installed, all addresses of a
  // class resolve to the next hops of its representative. So the FIB built or patched for the
  // representative is exact for the whole class.
  lemma RepresentativeIsExact(c: Config, s: seq<ECRange>, added: seq<Request>, own: seq<ECRange>, e: EcId, a: Addr)
    requires WellFormed(c) && Announced(c, added) && LansAreInside(c)
    requires Labelled(s) && Coarsest(s, added) && Paired(s, own, e) && own != []
    requires LabelAt(s, a) == e && e != 0
    ensures forall n :: n in c.nodes ==> Hops(c.nodes[n], c.nodes[n].rib, a) == Base(c, own, n)
    ensures forall i, k: nat :: 0 <= i < |c.updates| && k <= |c.updates[i].routes| ==>
              Hops(c.nodes[c.updates[i].node], ReplayedTable(c, own, i, k), a) == WithUpdates(c, own, i, k)
    ensures forall i, k: nat :: 0 <= i < |c.updates| && k < |c.updates[i].routes| ==>
              Hops(c.nodes[c.updates[i].node], PatchedTable(c, own, i, k), a) == Patched(c, own, i, k)
  {
    hide Hops, Ipnhs, Replayed, Reinserted, Updated, Coarsest, Announced, LansAreInside;
    assert own[0] in own;
    OwnLabel(s, own, e, own[0]);
    var rep := Representative(own);
    forall n | n in c.nodes ensures Hops(c.nodes[n], c.nodes[n].rib, a) == Base(c, own, n) {
      SameClassSameHops(c, s, added, n, c.nodes[n].rib, a, rep);
    }
    forall i, k: nat | 0 <= i < |c.updates| && k <= |c.updates[i].routes|
      ensures Hops(c.nodes[c.updates[i].node], ReplayedTable(c, own, i, k), a) == WithUpdates(c, own, i, k)
    {
      ReplayedRoutes(c.nodes[c.updates[i].node].rib, c.updates[i].routes, k, own);
      SameClassSameHops(c, s, added, c.updates[i].node, ReplayedTable(c, own, i, k), a, rep);
    }
    forall i, k: nat | 0 <= i < |c.updates| && k < |c.updates[i].routes|
      ensures Hops(c.nodes[c.updates[i].node], PatchedTable(c, own, i, k), a) == Patched(c, own, i, k)
    {
      PatchedRoutes(c, own, i, k);
      SameClassSameHops(c, s, added, c.updates[i].node, PatchedTable(c, own, i, k), a, rep);
    }
  }

  // Two addresses of a class have the same next hops by any table of routes of the configuration.
  lemma SameClassSameHops(c: Config, s: seq<ECRange>, added: seq<Request>, n: string, rib: seq<Route>,
                          a: Addr, b: Addr)
    requires Coarsest(s, added) && Announced(c, added) && LansAreInside(c) && n in c.nodes && SameEc(s, a, b)
    requires forall r :: r in rib ==>
               r in c.nodes[n].rib || exists i :: 0 <= i < |c.updates| && r in c.updates[i].routes
    ensures Hops(c.nodes[n], rib, a) == Hops(c.nodes[n], rib, b)
  {
    hide Coarsest, LansAreInside, Unseparated, Ipnhs;
    SameClassUnseparated(c, s, added, n, rib, a, b);
    AlikeAddressesSameHops(c.nodes[n].view, rib, a, b);
  }

  lemma PatchedRoutes(c: Config, ec: seq<ECRange>, i: nat, k: nat)
    requires WellFormed(c) && i < |c.updates| && k < |c.updates[i].routes|
    ensures forall r :: r in PatchedTable(c, ec, i, k) ==>
              r in c.nodes[c.updates[i].node].rib || r in c.updates[i].routes
  {
    hide Updated, Reinserted;
    var rib, us := c.nodes[c.updates[i].node].rib, c.updates[i].routes;
    ReinsertedRoutes(rib, us, k, ec);
    UpdatedRoutes(Reinserted(rib, us, k, ec), us[k]);
  }

  lemma UpdatedRoutes(t: seq<Route>, u: Route)
    requires Sorted(t)
    ensures forall r :: r in Updated(t, u) || r in Inserted(t, u) ==> r in t || r == u
  {
    hide LowerBound, UpperBound, Sorted, Duplicates;
    EqualRange(t, u);
  }

  lemma {:induction false} ReinsertedRoutes(rib: seq<Route>, us: seq<Route>, k: nat, ec: seq<ECRange>)
    requires Sorted(rib) && k <= |us|
    ensures forall r :: r in Reinserted(rib, us, k, ec) ==> r in rib || r in us
  {
    hide Updated, Inserted, Sorted;
    if k > 0 {
      ReinsertedRoutes(rib, us, k - 1, ec);
      UpdatedRoutes(Reinserted(rib, us, k - 1, ec), us[k - 1]);
    }
  }

  lemma {:induction false} ReplayedRoutes(rib: seq<Route>, us: seq<Route>, k: nat, ec: seq<ECRange>)
    requires Sorted(rib) && k <= |us|
    ensures forall r :: r in Replayed(rib, us, k, ec) ==> r in rib || r in us
  {
    hide Updated, Inserted, Sorted;
    if k > 0 {
      ReplayedRoutes(rib, us, k - 1, ec);
      UpdatedRoutes(Replayed(rib, us, k - 1, ec), us[k - 1]);
    }
  }

  // No update of an announced configuration splits a class.
  lemma AnnouncedIsUnsplit(c: Config, s: seq<ECRange>, added: seq<Request>, own: seq<ECRange>, e: EcId)
    requires Announced(c, added) && Labelled(s) && Coarsest(s, added) && Paired(s, own, e) && own != []
    ensures Unsplit(c, own)
  {
    forall i, r | 0 <= i < |c.updates| && r in c.updates[i].routes
      ensures !Splits(r.network, own)
    {
      AddedNetworkNeverSplits(s, added, own, e, r.network, false);
    }
  }

  // ---- What compute_initial_ecs adds ----

  predicate ListsNode(src: NodeSources, e: NodeEntry) {
    && (forall a :: a in e.view.addrs ==> a in src.addrs)
    && (forall r :: r in e.rib ==> r.network in src.nets)
  }

  // The sources list what the configuration consists of.
  ghost predicate Lists(nodes: seq<NodeSources>, updates: seq<seq<Net>>, c: Config) {
    && (forall n :: n in c.nodes ==> exists i :: 0 <= i < |nodes| && ListsNode(nodes[i], c.nodes[n]))
    && |updates| == |c.updates|
    && (forall i, r :: 0 <= i < |updates| && r in c.updates[i].routes ==> r.network in updates[i])
  }

  // After compute_initial_ecs everything the theorem needs has been added, whatever else was
  // added before or is added later by invariants.
  lemma InitialEcsAnnounce(c: Config, nodes: seq<NodeSources>, updates: seq<seq<Net>>, mbs: seq<MbSources>,
                           before: seq<Request>, rest: seq<Request>)
    requires SourcesValid(nodes, updates, mbs) && Lists(nodes, updates, c)
    ensures Announced(c, before + InitialRequests(nodes, updates, mbs) + rest)
  {
    hide InitialRequests;
    var initial := InitialRequests(nodes, updates, mbs);
    var added := before + initial + rest;
    forall n | ListsNet(nodes, updates, mbs, n) ensures Added(initial, n) {
      InitialMembers(nodes, updates, mbs, Request(RangeOf(n), false));
      assert OfNet(Request(RangeOf(n), false), n);
    }
    forall n, r | n in c.nodes && r in c.nodes[n].rib
      ensures Added(added, r.network)
    {
      var i :| 0 <= i < |nodes| && ListsNode(nodes[i], c.nodes[n]);
      assert ListsNet(nodes, updates, mbs, r.network);
    }
    forall n, a | n in c.nodes && a in c.nodes[n].view.addrs
      ensures Request(ECRange(a, a, 0), true) in added
    {
      var i :| 0 <= i < |nodes| && ListsNode(nodes[i], c.nodes[n]);
      assert IsInterfaceAddress(nodes, a);
      InitialMembers(nodes, updates, mbs, Request(ECRange(a, a, 0), true));
    }
    forall i, r | 0 <= i < |c.updates| && r in c.updates[i].routes
      ensures Added(added, r.network)
    {
      assert ListsNet(nodes, updates, mbs, r.network);
    }
  }
}
