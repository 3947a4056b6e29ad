/** The ranges added to the equivalence classes (src/eqclassmgr.cpp:106-157). */
module EcRequests {
  import opened Addressing
  import opened EcRanges

  // One call of add_ec.
  datatype Request = Request(range: ECRange, owned: bool)

  // The range of a network, as the constructor of IPRange takes it.
  function RangeOf(n: Net): (r: ECRange)
    requires n.Valid()
    ensures r.lb <= r.ub && forall a: Addr :: r.Contains(a) <==> n.Contains(a)
  {
    LastInRange(n);
    ECRange(n.addr, n.Last(), 0)
  }

  predicate AllValid(nets: seq<Net>) {
    forall i :: 0 <= i < |nets| ==> nets[i].Valid()
  }

  // What compute_initial_ecs reads of a node: its L3 addresses and the networks of its routes.
  datatype NodeSources = NodeSources(addrs: seq<Addr>, nets: seq<Net>)

  // What it reads of a middlebox: prefixes and addresses found in its configuration.
  datatype MbSources = MbSources(prefixes: seq<Net>, addrs: seq<Addr>)

  // The calls of add_ec for the first k addresses.
  ghost function AddrRequests(addrs: seq<Addr>, owned: bool, k: nat): seq<Request>
    requires k <= |addrs|
  {
    if k == 0 then [] else
      AddrRequests(addrs, owned, k - 1) + [Request(ECRange(addrs[k - 1], addrs[k - 1], 0), owned)]
  }

  ghost function NetRequests(nets: seq<Net>, k: nat): seq<Request>
    requires k <= |nets| && AllValid(nets)
  {
    if k == 0 then [] else NetRequests(nets, k - 1) + [Request(RangeOf(nets[k - 1]), false)]
  }

  ghost function NodeRequests(nodes: seq<NodeSources>, k: nat): seq<Request>
    requires k <= |nodes| && forall i :: 0 <= i < |nodes| ==> AllValid(nodes[i].nets)
  {
    if k == 0 then [] else
      var n := nodes[k - 1];
      NodeRequests(nodes, k - 1) + AddrRequests(n.addrs, true, |n.addrs|) + NetRequests(n.nets, |n.nets|)
  }

  ghost function UpdateRequests(updates: seq<seq<Net>>, k: nat): seq<Request>
    requires k <= |updates| && forall i :: 0 <= i < |updates| ==> AllValid(updates[i])
  {
    if k == 0 then [] else UpdateRequests(updates, k - 1) + NetRequests(updates[k - 1], |updates[k - 1]|)
  }

  ghost function MbRequests(mbs: seq<MbSources>, k: nat): seq<Request>
    requires k <= |mbs| && forall i :: 0 <= i < |mbs| ==> AllValid(mbs[i].prefixes)
  {
    if k == 0 then [] else
      var m := mbs[k - 1];
      MbRequests(mbs, k - 1) + NetRequests(m.prefixes, |m.prefixes|) + AddrRequests(m.addrs, false, |m.addrs|)
  }

  ghost predicate CoveredBy(added: seq<Request>, a: Addr) {
    exists q :: q in added && q.range.Contains(a)
  }

  ghost predicate OwnedBy(added: seq<Request>, a: Addr) {
    exists q :: q in added && q.owned && q.range.Contains(a)
  }

  // No added range separates a from b.
  ghost predicate Alike(added: seq<Request>, a: Addr, b: Addr) {
    forall q :: q in added ==> (q.range.Contains(a) <==> q.range.Contains(b))
  }

  // Only single addresses were added as owned.
  predicate OwnedAreSingle(added: seq<Request>) {
    forall q :: q in added && q.owned ==> q.range.lb == q.range.ub
  }

  // ---- What compute_initial_ecs adds ----

  ghost predicate SourcesValid(nodes: seq<NodeSources>, updates: seq<seq<Net>>, mbs: seq<MbSources>) {
    && (forall i :: 0 <= i < |nodes| ==> AllValid(nodes[i].nets))
    && (forall i :: 0 <= i < |updates| ==> AllValid(updates[i]))
    && (forall i :: 0 <= i < |mbs| ==> AllValid(mbs[i].prefixes))
  }

  ghost function InitialRequests(nodes: seq<NodeSources>, updates: seq<seq<Net>>, mbs: seq<MbSources>): seq<Request>
    requires SourcesValid(nodes, updates, mbs)
  {
    NodeRequests(nodes, |nodes|) + UpdateRequests(updates, |updates|) + MbRequests(mbs, |mbs|)
  }

  predicate IsInterfaceAddress(nodes: seq<NodeSources>, a: Addr) {
    exists i :: 0 <= i < |nodes| && a in nodes[i].addrs
  }

  predicate NoneOwned(added: seq<Request>) {
    forall q :: q in added ==> !q.owned
  }

  // ---- The same, from what the configuration lists ----

  predicate IsMbAddress(mbs: seq<MbSources>, a: Addr) {
    exists i :: 0 <= i < |mbs| && a in mbs[i].addrs
  }

  // An address of an interface or of a middlebox's configuration.
  predicate ListsAddr(nodes: seq<NodeSources>, mbs: seq<MbSources>, a: Addr) {
    IsInterfaceAddress(nodes, a) || IsMbAddress(mbs, a)
  }

  // A network of a route, of an update or of a middlebox's configuration.
  predicate ListsNet(nodes: seq<NodeSources>, updates: seq<seq<Net>>, mbs: seq<MbSources>, n: Net) {
    || (exists i :: 0 <= i < |nodes| && n in nodes[i].nets)
    || (exists i :: 0 <= i < |updates| && n in updates[i])
    || (exists i :: 0 <= i < |mbs| && n in mbs[i].prefixes)
  }

  predicate OfAddr(q: Request, owned: bool) { q == Request(ECRange(q.range.lb, q.range.lb, 0), owned) }

  predicate OfNet(q: Request, n: Net) { n.Valid() && q == Request(RangeOf(n), false) }

  lemma {:induction false} AddrMembers(addrs: seq<Addr>, owned: bool, k: nat, q: Request)
    requires k <= |addrs|
    ensures q in AddrRequests(addrs, owned, k) <==> OfAddr(q, owned) && q.range.lb in addrs[..k]
  {
    if k > 0 {
      AddrMembers(addrs, owned, k - 1, q);
      assert addrs[..k] == addrs[..k - 1] + [addrs[k - 1]];
    }
  }

  lemma {:induction false} NetMembers(nets: seq<Net>, k: nat, q: Request)
    requires k <= |nets| && AllValid(nets)
    ensures q in NetRequests(nets, k) <==> exists n :: n in nets[..k] && OfNet(q, n)
  {
    hide Net.Valid;
    if k > 0 {
      NetMembers(nets, k - 1, q);
      assert nets[..k] == nets[..k - 1] + [nets[k - 1]];
      assert nets[k - 1] in nets[..k];
    }
  }

  // What a list of addresses and a list of networks contribute together.
  predicate Contributed(addrs: seq<Addr>, owned: bool, nets: seq<Net>, q: Request) {
    (OfAddr(q, owned) && q.range.lb in addrs) || exists n :: n in nets && OfNet(q, n)
  }

  lemma BothMembers(addrs: seq<Addr>, owned: bool, nets: seq<Net>, q: Request)
    requires AllValid(nets)
    ensures q in AddrRequests(addrs, owned, |addrs|) || q in NetRequests(nets, |nets|) <==>
            Contributed(addrs, owned, nets, q)
  {
    hide OfAddr, OfNet;
    AddrMembers(addrs, owned, |addrs|, q);
    NetMembers(nets, |nets|, q);
    assert addrs[..|addrs|] == addrs && nets[..|nets|] == nets;
  }

  lemma {:induction false} NodeMembers(nodes: seq<NodeSources>, k: nat, q: Request)
    requires k <= |nodes| && forall i :: 0 <= i < |nodes| ==> AllValid(nodes[i].nets)
    ensures q in NodeRequests(nodes, k) <==>
            exists i :: 0 <= i < k && Contributed(nodes[i].addrs, true, nodes[i].nets, q)
  {
    hide AddrRequests, NetRequests, Contributed;
    if k > 0 {
      NodeMembers(nodes, k - 1, q);
      BothMembers(nodes[k - 1].addrs, true, nodes[k - 1].nets, q);
    }
  }

  lemma {:induction false} UpdateMembers(updates: seq<seq<Net>>, k: nat, q: Request)
    requires k <= |updates| && forall i :: 0 <= i < |updates| ==> AllValid(updates[i])
    ensures q in UpdateRequests(updates, k) <==> exists i :: 0 <= i < k && Contributed([], false, updates[i], q)
  {
    hide NetRequests, Contributed;
    if k > 0 {
      UpdateMembers(updates, k - 1, q);
      BothMembers([], false, updates[k - 1], q);
    }
  }

  lemma {:induction false} MbMembers(mbs: seq<MbSources>, k: nat, q: Request)
    requires k <= |mbs| && forall i :: 0 <= i < |mbs| ==> AllValid(mbs[i].prefixes)
    ensures q in MbRequests(mbs, k) <==>
            exists i :: 0 <= i < k && Contributed(mbs[i].addrs, false, mbs[i].prefixes, q)
  {
    hide NetRequests, AddrRequests, Contributed;
    if k > 0 {
      MbMembers(mbs, k - 1, q);
      BothMembers(mbs[k - 1].addrs, false, mbs[k - 1].prefixes, q);
    }
  }

  // The initial requests are exactly: every interface address, owned; every address of a middlebox;
  // every network of a route, an update or a middlebox.
  lemma InitialMembers(nodes: seq<NodeSources>, updates: seq<seq<Net>>, mbs: seq<MbSources>, q: Request)
    requires SourcesValid(nodes, updates, mbs)
    ensures q in InitialRequests(nodes, updates, mbs) <==>
            || (OfAddr(q, true) && IsInterfaceAddress(nodes, q.range.lb))
            || (OfAddr(q, false) && IsMbAddress(mbs, q.range.lb))
            || exists n :: ListsNet(nodes, updates, mbs, n) && OfNet(q, n)
  {
    hide NodeRequests, UpdateRequests, MbRequests, OfAddr, OfNet;
    NodeMembers(nodes, |nodes|, q);
    UpdateMembers(updates, |updates|, q);
    MbMembers(mbs, |mbs|, q);
  }

  // The owned requests of the initial computation are single addresses, and the addresses they
  // hold are exactly the interface addresses.
  lemma InitialOwned(nodes: seq<NodeSources>, updates: seq<seq<Net>>, mbs: seq<MbSources>)
    requires SourcesValid(nodes, updates, mbs)
    ensures OwnedAreSingle(InitialRequests(nodes, updates, mbs))
    ensures forall a: Addr :: OwnedBy(InitialRequests(nodes, updates, mbs), a) <==> IsInterfaceAddress(nodes, a)
  {
    hide InitialRequests, IsInterfaceAddress, IsMbAddress, ListsNet;
    var all := InitialRequests(nodes, updates, mbs);
    forall q | q in all && q.owned ensures q.range.lb == q.range.ub && IsInterfaceAddress(nodes, q.range.lb) {
      InitialMembers(nodes, updates, mbs, q);
    }
    forall a: Addr | IsInterfaceAddress(nodes, a) ensures OwnedBy(all, a) {
      var q := Request(ECRange(a, a, 0), true);
      InitialMembers(nodes, updates, mbs, q);
      assert q in all && q.range.Contains(a);
    }
  }

  // Some listed address or network holds a.
  ghost predicate Mentioned(nodes: seq<NodeSources>, updates: seq<seq<Net>>, mbs: seq<MbSources>, a: Addr) {
    ListsAddr(nodes, mbs, a) || exists n :: ListsNet(nodes, updates, mbs, n) && n.Contains(a)
  }

  // No listed address or network tells a from b.
  ghost predicate Indistinct(nodes: seq<NodeSources>, updates: seq<seq<Net>>, mbs: seq<MbSources>, a: Addr, b: Addr) {
    && (ListsAddr(nodes, mbs, a) || ListsAddr(nodes, mbs, b) ==> a == b)
    && forall n :: ListsNet(nodes, updates, mbs, n) ==> (n.Contains(a) <==> n.Contains(b))
  }

  lemma ListedIsRequested(nodes: seq<NodeSources>, updates: seq<seq<Net>>, mbs: seq<MbSources>)
    requires SourcesValid(nodes, updates, mbs)
    ensures forall x: Addr :: ListsAddr(nodes, mbs, x) ==>
              exists q :: q in InitialRequests(nodes, updates, mbs) && forall a: Addr :: q.range.Contains(a) <==> a == x
    ensures forall n :: ListsNet(nodes, updates, mbs, n) ==>
              exists q :: q in InitialRequests(nodes, updates, mbs) &&
                          forall a: Addr :: q.range.Contains(a) <==> n.Contains(a)
  {
    hide InitialRequests, IsInterfaceAddress, IsMbAddress, Net.Contains;
    var all := InitialRequests(nodes, updates, mbs);
    forall x: Addr | ListsAddr(nodes, mbs, x)
      ensures exists q :: q in all && forall a: Addr :: q.range.Contains(a) <==> a == x
    {
      var q := Request(ECRange(x, x, 0), IsInterfaceAddress(nodes, x));
      InitialMembers(nodes, updates, mbs, q);
      assert q in all;
    }
    forall n | ListsNet(nodes, updates, mbs, n)
      ensures exists q :: q in all && forall a: Addr :: q.range.Contains(a) <==> n.Contains(a)
    {
      var q := Request(RangeOf(n), false);
      assert OfNet(q, n);
      InitialMembers(nodes, updates, mbs, q);
      assert q in all;
    }
  }

  lemma RequestIsListed(nodes: seq<NodeSources>, updates: seq<seq<Net>>, mbs: seq<MbSources>, q: Request)
    requires SourcesValid(nodes, updates, mbs) && q in InitialRequests(nodes, updates, mbs)
    ensures || (ListsAddr(nodes, mbs, q.range.lb) && forall a: Addr :: q.range.Contains(a) <==> a == q.range.lb)
            || exists n :: ListsNet(nodes, updates, mbs, n) && forall a: Addr :: q.range.Contains(a) <==> n.Contains(a)
  {
    hide InitialRequests, IsInterfaceAddress, IsMbAddress, Net.Contains;
    InitialMembers(nodes, updates, mbs, q);
    if n :| ListsNet(nodes, updates, mbs, n) && OfNet(q, n) {
      assert forall a: Addr :: q.range.Contains(a) <==> n.Contains(a);
    }
  }

  lemma InitialMeaning(nodes: seq<NodeSources>, updates: seq<seq<Net>>, mbs: seq<MbSources>, a: Addr, b: Addr)
    requires SourcesValid(nodes, updates, mbs)
    ensures CoveredBy(InitialRequests(nodes, updates, mbs), a) <==> Mentioned(nodes, updates, mbs, a)
    ensures Alike(InitialRequests(nodes, updates, mbs), a, b) <==> Indistinct(nodes, updates, mbs, a, b)
  {
    hide InitialRequests, ListsAddr, ListsNet, Net.Contains;
    var all := InitialRequests(nodes, updates, mbs);
    ListedIsRequested(nodes, updates, mbs);
    if q :| q in all && q.range.Contains(a) { RequestIsListed(nodes, updates, mbs, q); }
    if Indistinct(nodes, updates, mbs, a, b) {
      forall q | q in all ensures q.range.Contains(a) <==> q.range.Contains(b) {
        RequestIsListed(nodes, updates, mbs, q);
      }
    }
    if Alike(all, a, b) {
      forall x: Addr | ListsAddr(nodes, mbs, x) ensures a == x <==> b == x {
        var q :| q in all && forall y: Addr :: q.range.Contains(y) <==> y == x;
      }
      forall n | ListsNet(nodes, updates, mbs, n) ensures n.Contains(a) <==> n.Contains(b) {
        var q :| q in all && forall y: Addr :: q.range.Contains(y) <==> n.Contains(y);
      }
    }
  }
}
