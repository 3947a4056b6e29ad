/** IP next hops of a node, resolved recursively through its routing table (src/node.cpp). */
module NextHops {
  import opened Addressing
  import opened Options
  import opened Routing

  // An interface together with the node that owns it; addr and prefix matter only for L3 interfaces.
  datatype Interface = Interface(node: string, name: string, isL2: bool, addr: Addr, prefix: PrefixLength)

  // FIB_IPNH: the next hop's L3 and L2 node, each with its ingress interface.
  datatype Ipnh = Ipnh(l3Node: string, l3Intf: Option<Interface>, l2Node: string, l2Intf: Option<Interface>)

  // What an egress interface leads to; an L2 peer brings the L3 endpoints of its LAN.
  datatype Far = L3Peer(intf: Interface) | L2Peer(port: Interface, endpoints: map<Addr, Interface>)

  // What next-hop resolution sees of a node: its name, its addresses and its connected interfaces.
  datatype NodeView = NodeView(name: string, addrs: set<Addr>, far: map<string, Far>)

  function Ipnh1(v: NodeView, egress: string, dst: Addr): Option<Ipnh> {
    if egress !in v.far then None
    else match v.far[egress]
      case L3Peer(i) => Some(Ipnh(i.node, Some(i), i.node, Some(i)))
      case L2Peer(p, eps) =>
        if dst in eps then Some(Ipnh(eps[dst].node, Some(eps[dst]), p.node, Some(p))) else None
  }

  // The packet is delivered at the node itself.
  function Self(v: NodeView): Ipnh {
    Ipnh(v.name, None, v.name, None)
  }

  // What one connected route of the lookup for ip contributes.
  function Contribution(v: NodeView, r: Route, ip: Addr): set<Ipnh> {
    if !r.Connected() then {}
    else if ip in v.addrs then {Self(v)}
    else match Ipnh1(v, r.intf, ip)
      case Some(h) => {h}
      case None => {}
  }

  function Contributions(v: NodeView, rs: seq<Route>, ip: Addr): set<Ipnh> {
    if rs == [] then {} else Contribution(v, rs[0], ip) + Contributions(v, rs[1..], ip)
  }

  // The next hops found directly at ip, without recursive lookups.
  function Local(v: NodeView, rib: seq<Route>, ip: Addr): set<Ipnh> {
    Contributions(v, Lookup(rib, ip), ip)
  }

  // The addresses a lookup of ip has to resolve in turn.
  predicate Leads(rib: seq<Route>, ip: Addr, next: Addr) {
    exists r :: r in Lookup(rib, ip) && !r.Connected() && r.nextHop == next
  }

  ghost predicate ReachesIn(rib: seq<Route>, x: Addr, y: Addr, n: nat)
    decreases n
  {
    if n == 0 then x == y else exists z: Addr :: Leads(rib, x, z) && ReachesIn(rib, z, y, n - 1)
  }

  // y is met when x is resolved recursively.
  ghost predicate Reaches(rib: seq<Route>, x: Addr, y: Addr) {
    exists n: nat :: ReachesIn(rib, x, y, n)
  }

  // h is a direct next hop of some address met from dst.
  ghost predicate IsNextHop(v: NodeView, rib: seq<Route>, dst: Addr, h: Ipnh) {
    exists y: Addr :: Reaches(rib, dst, y) && h in Local(v, rib, y)
  }

  // The set Node::get_ipnhs computes.
  ghost function Ipnhs(v: NodeView, rib: seq<Route>, dst: Addr): set<Ipnh> {
    set y, h | y in Mentioned(rib) + {dst} && h in Local(v, rib, y) && Reaches(rib, dst, y) :: h
  }

  lemma {:induction false} ReachesThen(rib: seq<Route>, x: Addr, y: Addr, z: Addr, n: nat)
    requires ReachesIn(rib, x, y, n) && Leads(rib, y, z)
    ensures ReachesIn(rib, x, z, n + 1)
    decreases n
  {
    if n == 0 {
      assert ReachesIn(rib, z, z, 0);
    } else {
      var w: Addr :| Leads(rib, x, w) && ReachesIn(rib, w, y, n - 1);
      ReachesThen(rib, w, y, z, n - 1);
    }
  }

  // A set closed under Leads that contains x contains everything x reaches.
  lemma {:induction false} ClosedContainsReached(rib: seq<Route>, s: set<Addr>, x: Addr, y: Addr, n: nat)
    requires x in s && ReachesIn(rib, x, y, n)
    requires forall p: Addr, q: Addr :: p in s && Leads(rib, p, q) ==> q in s
    ensures y in s
    decreases n
  {
    if n > 0 {
      var z: Addr :| Leads(rib, x, z) && ReachesIn(rib, z, y, n - 1);
      ClosedContainsReached(rib, s, z, y, n - 1);
    }
  }

  // All next-hop addresses a table mentions.
  function Mentioned(rib: seq<Route>): set<Addr> {
    set r | r in rib :: r.nextHop
  }

  lemma {:induction false} LookupFromTable(rib: seq<Route>, ip: Addr)
    ensures forall r :: r in Lookup(rib, ip) ==> r in rib
  {
    if rib != [] {
      LookupFromTable(rib[1..], ip);
      assert rib == [rib[0]] + rib[1..];
    }
  }

  lemma {:induction false} ReachedIsMentioned(rib: seq<Route>, x: Addr, y: Addr, n: nat)
    requires ReachesIn(rib, x, y, n)
    ensures y in Mentioned(rib) + {x}
    decreases n
  {
    if n > 0 {
      var z: Addr :| Leads(rib, x, z) && ReachesIn(rib, z, y, n - 1);
      var r :| r in Lookup(rib, x) && !r.Connected() && r.nextHop == z;
      LookupFromTable(rib, x);
      assert z in Mentioned(rib);
      ReachedIsMentioned(rib, z, y, n - 1);
    }
  }

  // A next hop of dst is a direct next hop of some address met from dst, and conversely.
  lemma IpnhsAreNextHops(v: NodeView, rib: seq<Route>, dst: Addr)
    ensures forall h :: h in Ipnhs(v, rib, dst) <==> IsNextHop(v, rib, dst, h)
  {
    forall h | IsNextHop(v, rib, dst, h)
      ensures h in Ipnhs(v, rib, dst)
    {
      var y: Addr :| Reaches(rib, dst, y) && h in Local(v, rib, y);
      var n: nat :| ReachesIn(rib, dst, y, n);
      ReachedIsMentioned(rib, dst, y, n);
    }
  }

  // ---- Next hops by longest match ----

  // Where connected route r sends a packet for ip: to the node itself for its own addresses, to the
  // peer of the interface r names, and over a LAN to the endpoint that has the address.
  predicate DirectHop(v: NodeView, r: Route, ip: Addr, h: Ipnh) {
    r.intf != "" &&
    if ip in v.addrs then h == Ipnh(v.name, None, v.name, None)
    else
      r.intf in v.far &&
      match v.far[r.intf]
      case L3Peer(i) => h == Ipnh(i.node, Some(i), i.node, Some(i))
      case L2Peer(p, eps) => ip in eps && h == Ipnh(eps[ip].node, Some(eps[ip]), p.node, Some(p))
  }

  lemma {:induction false} ContributedBy(v: NodeView, rs: seq<Route>, ip: Addr, h: Ipnh)
    ensures h in Contributions(v, rs, ip) <==> exists r :: r in rs && DirectHop(v, r, ip, h)
  {
    if rs != [] {
      ContributedBy(v, rs[1..], ip, h);
      assert rs == [rs[0]] + rs[1..];
      assert h in Contribution(v, rs[0], ip) <==> DirectHop(v, rs[0], ip, h);
    }
  }

  // What is found at an address without recursion comes from its longest matches that are connected,
  // and what is looked up next from those that are not.
  lemma MatchesDecide(v: NodeView, rib: seq<Route>, ip: Addr, h: Ipnh, next: Addr)
    requires Sorted(rib) && NetworksValid(rib)
    ensures h in Local(v, rib, ip) <==> exists r :: LongestMatch(rib, ip, r) && DirectHop(v, r, ip, h)
    ensures Leads(rib, ip, next) <==> exists r :: LongestMatch(rib, ip, r) && r.intf == "" && r.nextHop == next
  {
    hide LongestMatch, DirectHop, Lookup, Contributions;
    LookupIsLongestMatch(rib, ip);
    ContributedBy(v, Lookup(rib, ip), ip, h);
  }

  // ---- Addresses that no route and no interface distinguishes ----

  // ip is the address of an interface the node owns or can deliver to on a LAN.
  predicate KnownAddr(v: NodeView, ip: Addr) {
    ip in v.addrs || exists e :: e in v.far && v.far[e].L2Peer? && ip in v.far[e].endpoints
  }

  predicate Unseparated(v: NodeView, rib: seq<Route>, a: Addr, b: Addr) {
    (forall r :: r in rib ==> (r.network.Contains(a) <==> r.network.Contains(b))) &&
    (a != b ==> !KnownAddr(v, a) && !KnownAddr(v, b))
  }

  lemma {:induction false} ContributionsAlike(v: NodeView, rs: seq<Route>, a: Addr, b: Addr)
    requires !KnownAddr(v, a) && !KnownAddr(v, b)
    ensures Contributions(v, rs, a) == Contributions(v, rs, b)
  {
    if rs != [] { ContributionsAlike(v, rs[1..], a, b); }
  }

  // Resolution gives such addresses the same next hops, although each of them is in its own
  // visited set from the start and may be the next hop of a route for the other.
  lemma AlikeAddressesSameHops(v: NodeView, rib: seq<Route>, a: Addr, b: Addr)
    requires Unseparated(v, rib, a, b)
    ensures Ipnhs(v, rib, a) == Ipnhs(v, rib, b)
  {
    if a != b {
      IpnhsAreNextHops(v, rib, a);
      IpnhsAreNextHops(v, rib, b);
      forall h
        ensures h in Ipnhs(v, rib, a) <==> h in Ipnhs(v, rib, b)
      {
        if IsNextHop(v, rib, a, h) { HopCarriesOver(v, rib, a, b, h); }
        if IsNextHop(v, rib, b, h) { HopCarriesOver(v, rib, b, a, h); }
      }
    }
  }

  lemma HopCarriesOver(v: NodeView, rib: seq<Route>, a: Addr, b: Addr, h: Ipnh)
    requires Unseparated(v, rib, a, b) && a != b && IsNextHop(v, rib, a, h)
    ensures IsNextHop(v, rib, b, h)
  {
    LookupUnseparated(rib, a, b);
    ContributionsAlike(v, Lookup(rib, a), a, b);
    var y: Addr :| Reaches(rib, a, y) && h in Local(v, rib, y);
    var n: nat :| ReachesIn(rib, a, y, n);
    if n == 0 {
      assert ReachesIn(rib, b, b, 0);
      assert Reaches(rib, b, b) && h in Local(v, rib, b);
    } else {
      var z: Addr :| Leads(rib, a, z) && ReachesIn(rib, z, y, n - 1);
      assert Leads(rib, b, z);
      assert ReachesIn(rib, b, y, n);
      assert Reaches(rib, b, y);
    }
  }

  // ---- The depth-first resolution with a visited set shared between siblings ----

  // nhs holds exactly the direct next hops found at the addresses of s.
  ghost predicate Collected(v: NodeView, rib: seq<Route>, s: set<Addr>, nhs: set<Ipnh>) {
    forall h :: h in nhs <==> exists y :: y in s && h in Local(v, rib, y)
  }

  // Everything the addresses of s lead to has been visited.
  ghost predicate ClosedIn(rib: seq<Route>, s: set<Addr>, visited: set<Addr>) {
    forall p: Addr, q: Addr :: p in s && Leads(rib, p, q) ==> q in visited
  }

  ghost predicate AllReached(rib: seq<Route>, dst: Addr, s: set<Addr>) {
    forall y :: y in s ==> Reaches(rib, dst, y)
  }

  // What one resolution adds to the visited set and returns.
  ghost predicate Resolved(v: NodeView, rib: seq<Route>, dst: Addr, before: set<Addr>, after: set<Addr>,
                           nhs: set<Ipnh>) {
    && before <= after && dst in after
    && Collected(v, rib, after - before, nhs)
    && ClosedIn(rib, after - before, after)
    && AllReached(rib, dst, after - before)
    && (dst in before ==> after == before)
  }

  // The loop over the routes found for dst, having handled the first i of them.
  ghost predicate Resolving(v: NodeView, rib: seq<Route>, dst: Addr, i: nat, before: set<Addr>, cur: set<Addr>,
                            nhs: set<Ipnh>) {
    && dst !in before && before + {dst} <= cur && i <= |Lookup(rib, dst)|
    && (forall h :: h in nhs <==> h in Contributions(v, Lookup(rib, dst)[..i], dst) ||
                                  exists y :: y in cur - before - {dst} && h in Local(v, rib, y))
    && ClosedIn(rib, cur - before - {dst}, cur)
    && AllReached(rib, dst, cur - before)
    && (forall j :: 0 <= j < i && !Lookup(rib, dst)[j].Connected() ==> Lookup(rib, dst)[j].nextHop in cur)
  }

  // Node::get_ipnhs for a node seen as v, a table rib and the addresses looked up so far.
  method GetIpnhs(v: NodeView, rib: seq<Route>, dst: Addr, lookedUp: set<Addr>, ghost universe: set<Addr>)
    returns (nextHops: set<Ipnh>, visited: set<Addr>)
    requires dst in universe && Mentioned(rib) <= universe
    ensures Resolved(v, rib, dst, lookedUp, visited, nextHops)
    decreases universe - lookedUp
  {
    hide Resolving, Resolved, Contributions, Local, Lookup, Mentioned, Leads;
    nextHops, visited := {}, lookedUp;
    if dst in lookedUp {
      NothingToResolve(v, rib, dst, lookedUp);
      return;
    }
    var routes := Lookup(rib, dst);
    visited := visited + {dst};
    StartResolving(v, rib, dst, lookedUp);
    var i := 0;
    while i < |routes|
      invariant i <= |routes|
      invariant lookedUp + {dst} <= visited
      invariant Resolving(v, rib, dst, i, lookedUp, visited, nextHops)
    {
      ghost var before, found := visited, nextHops;
      if !routes[i].Connected() {
        HopIsMentioned(rib, dst, i);
        var nhs;
        nhs, visited := GetIpnhs(v, rib, routes[i].nextHop, visited, universe);
        nextHops := nextHops + nhs;
        AfterRecursion(v, rib, dst, i, lookedUp, before, visited, found, nhs);
      } else {
        if dst in v.addrs {
          nextHops := nextHops + {Self(v)};
        } else {
          var nextHop := Ipnh1(v, routes[i].intf, dst);
          if nextHop.Some? {
            nextHops := nextHops + {nextHop.value};
          }
        }
        AfterConnected(v, rib, dst, i, lookedUp, visited, found, nextHops);
      }
      i := i + 1;
    }
    FinishResolving(v, rib, dst, lookedUp, visited, nextHops);
  }

  // The top-level call, with an empty visited set.
  method GetIpnhsOf(v: NodeView, rib: seq<Route>, dst: Addr) returns (nextHops: set<Ipnh>)
    ensures nextHops == Ipnhs(v, rib, dst)
    ensures forall h :: h in nextHops <==> IsNextHop(v, rib, dst, h)
  {
    hide *;
    var visited;
    nextHops, visited := GetIpnhs(v, rib, dst, {}, Mentioned(rib) + {dst});
    ResolvedIsExact(v, rib, dst, visited, nextHops);
    IpnhsAreNextHops(v, rib, dst);
    SameHops(v, rib, dst, nextHops);
  }

  lemma SameHops(v: NodeView, rib: seq<Route>, dst: Addr, nhs: set<Ipnh>)
    requires forall h :: h in nhs <==> IsNextHop(v, rib, dst, h)
    ensures nhs == Ipnhs(v, rib, dst)
  {
    IpnhsAreNextHops(v, rib, dst);
  }

  lemma NothingToResolve(v: NodeView, rib: seq<Route>, dst: Addr, lookedUp: set<Addr>)
    requires dst in lookedUp
    ensures Resolved(v, rib, dst, lookedUp, lookedUp, {})
  {
  }

  lemma StartResolving(v: NodeView, rib: seq<Route>, dst: Addr, lookedUp: set<Addr>)
    requires dst !in lookedUp
    ensures Resolving(v, rib, dst, 0, lookedUp, lookedUp + {dst}, {})
  {
    assert ReachesIn(rib, dst, dst, 0);
  }

  lemma HopIsMentioned(rib: seq<Route>, dst: Addr, i: nat)
    requires i < |Lookup(rib, dst)|
    ensures Lookup(rib, dst)[i].nextHop in Mentioned(rib)
  {
    LookupFromTable(rib, dst);
    assert Lookup(rib, dst)[i] in rib;
  }

  lemma {:induction false} ContributionsSnoc(v: NodeView, rs: seq<Route>, i: nat, ip: Addr)
    requires i < |rs|
    ensures Contributions(v, rs[..i + 1], ip) == Contributions(v, rs[..i], ip) + Contribution(v, rs[i], ip)
  {
    if i > 0 {
      ContributionsSnoc(v, rs[1..], i - 1, ip);
      assert rs[..i + 1][1..] == rs[1..][..i] && rs[..i][1..] == rs[1..][..i - 1];
    }
  }

  lemma AfterRecursion(v: NodeView, rib: seq<Route>, dst: Addr, i: nat, lookedUp: set<Addr>, before: set<Addr>,
                       after: set<Addr>, found: set<Ipnh>, nhs: set<Ipnh>)
    requires i < |Lookup(rib, dst)| && !Lookup(rib, dst)[i].Connected()
    requires Resolving(v, rib, dst, i, lookedUp, before, found)
    requires Resolved(v, rib, Lookup(rib, dst)[i].nextHop, before, after, nhs)
    ensures Resolving(v, rib, dst, i + 1, lookedUp, after, found + nhs)
    ensures lookedUp + {dst} <= after
  {
    var r := Lookup(rib, dst)[i];
    ContributionsSnoc(v, Lookup(rib, dst), i, dst);
    assert Leads(rib, dst, r.nextHop);
    forall y | y in after - lookedUp
      ensures Reaches(rib, dst, y)
    {
      if y !in before {
        assert y in after - before;
        var n: nat :| ReachesIn(rib, r.nextHop, y, n);
        assert ReachesIn(rib, dst, y, n + 1);
      }
    }
    var old', new' := before - lookedUp - {dst}, after - lookedUp - {dst};
    assert forall y :: y in new' <==> y in old' || y in after - before;
  }

  lemma AfterConnected(v: NodeView, rib: seq<Route>, dst: Addr, i: nat, lookedUp: set<Addr>, cur: set<Addr>,
                       found: set<Ipnh>, nhs: set<Ipnh>)
    requires i < |Lookup(rib, dst)| && Lookup(rib, dst)[i].Connected()
    requires Resolving(v, rib, dst, i, lookedUp, cur, found)
    requires nhs == found + Contribution(v, Lookup(rib, dst)[i], dst)
    ensures Resolving(v, rib, dst, i + 1, lookedUp, cur, nhs)
  {
    ContributionsSnoc(v, Lookup(rib, dst), i, dst);
  }

  lemma FinishResolving(v: NodeView, rib: seq<Route>, dst: Addr, lookedUp: set<Addr>, visited: set<Addr>,
                        nhs: set<Ipnh>)
    requires Resolving(v, rib, dst, |Lookup(rib, dst)|, lookedUp, visited, nhs)
    ensures Resolved(v, rib, dst, lookedUp, visited, nhs)
  {
    var rs := Lookup(rib, dst);
    assert rs[..|rs|] == rs;
    forall q: Addr | Leads(rib, dst, q)
      ensures q in visited
    {
      var r :| r in rs && !r.Connected() && r.nextHop == q;
      var j :| 0 <= j < |rs| && rs[j] == r;
    }
    forall y
      ensures y in visited - lookedUp <==> y == dst || y in visited - lookedUp - {dst}
    {
    }
  }

  lemma ResolvedIsExact(v: NodeView, rib: seq<Route>, dst: Addr, visited: set<Addr>, nhs: set<Ipnh>)
    requires Resolved(v, rib, dst, {}, visited, nhs)
    ensures forall h :: h in nhs <==> IsNextHop(v, rib, dst, h)
  {
    assert visited - {} == visited;
    forall y: Addr | Reaches(rib, dst, y)
      ensures y in visited
    {
      var n: nat :| ReachesIn(rib, dst, y, n);
      ClosedContainsReached(rib, visited, dst, y, n);
    }
    forall h
      ensures h in nhs <==> IsNextHop(v, rib, dst, h)
    {
      if h in nhs {
        var y :| y in visited && h in Local(v, rib, y);
      }
    }
  }
}
