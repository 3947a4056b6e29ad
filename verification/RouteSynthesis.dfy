/** A topology's addresses and its routes (src/dataparse.py:9-59, 90-118). */
module RouteSynthesis {
  import opened Options
  import opened ShortestPaths

  type Ip = nat

  type Link = (Node, Node)

  // ---- Following first hops ----

  // The nodes a packet for the subnet of edge (u, v) visits from n on, at most k hops.
  function Route(hop: map<Node, Node>, u: Node, v: Node, n: Node, k: nat): (r: seq<Node>)
    ensures 1 <= |r| <= k + 1 && r[0] == n
    decreases k
  {
    if n == u || n == v || k == 0 || n !in hop then [n] else [n] + Route(hop, u, v, hop[n], k - 1)
  }

  // Every node outside the edge that is connected to u forwards to a first hop of a shortest path.
  ghost predicate RoutesTo(g: Graph, hop: map<Node, Node>, u: Node, v: Node) {
    forall n :: n in g && n != u && n != v && Connected(g, n, u) ==> n in hop && FirstHop(g, n, u, hop[n])
  }

  lemma HopLowersDistance(g: Graph, hop: map<Node, Node>, u: Node, v: Node, n: Node, k: nat)
    requires Undirected(g) && RoutesTo(g, hop, u, v) && n in g && n != u && n != v && Distance(g, n, u, k)
    ensures n in hop && hop[n] in g && k > 0 && Distance(g, hop[n], u, k - 1)
  {
    hide Within;
    assert Connected(g, n, u);
    assert FirstHop(g, n, u, hop[n]);
    var j: nat :| Distance(g, hop[n], u, j) && Distance(g, n, u, j + 1);
    DistanceUnique(g, n, u, k, j + 1);
  }

  // The packet reaches an end of the edge within the distance to u, and every hop lowers that
  // distance by exactly one, so that no node is visited twice.
  lemma {:induction false} RouteArrives(g: Graph, hop: map<Node, Node>, u: Node, v: Node, n: Node, k: nat)
    requires Undirected(g) && RoutesTo(g, hop, u, v) && n in g && Distance(g, n, u, k)
    ensures var r := Route(hop, u, v, n, k);
            && (r[|r| - 1] == u || r[|r| - 1] == v)
            && (forall i :: 0 <= i < |r| ==> i <= k && Distance(g, r[i], u, k - i))
    decreases k
  {
    hide RoutesTo, Distance, Undirected;
    if n != u && n != v {
      HopLowersDistance(g, hop, u, v, n, k);
      RouteArrives(g, hop, u, v, hop[n], k - 1);
      var rest := Route(hop, u, v, hop[n], k - 1);
      var r := Route(hop, u, v, n, k);
      assert r == [n] + rest;
      forall i | 0 <= i < |r| ensures i <= k && Distance(g, r[i], u, k - i) {
        if i > 0 { assert r[i] == rest[i - 1] && Distance(g, rest[i - 1], u, k - 1 - (i - 1)); }
      }
    }
  }

  lemma NoNodeTwice(g: Graph, hop: map<Node, Node>, u: Node, v: Node, n: Node, k: nat, i: nat, j: nat)
    requires Undirected(g) && RoutesTo(g, hop, u, v) && n in g && Distance(g, n, u, k)
    requires i < j < |Route(hop, u, v, n, k)|
    ensures Route(hop, u, v, n, k)[i] != Route(hop, u, v, n, k)[j]
  {
    hide RoutesTo, Distance, Undirected;
    RouteArrives(g, hop, u, v, n, k);
    var r := Route(hop, u, v, n, k);
    assert Distance(g, r[i], u, k - i) && Distance(g, r[j], u, k - j);
    if r[i] == r[j] { DistanceUnique(g, r[i], u, k - i, k - j); }
  }

  // ---- Interfaces ----

  // port is the address of a node's interface on the link to another node: it is listed for the
  // node, belongs to it and is linked to the other node's interface on that link. Nothing else is
  // listed.
  ghost predicate Wired(g: Graph, interfaces: map<Node, seq<Ip>>, nodeOf: map<Ip, Node>, peer: map<Ip, Ip>,
                        port: map<Link, Ip>) {
    && interfaces.Keys == g.Keys
    && (forall a: Node, b: Node {:trigger Edge(g, a, b)} :: Edge(g, a, b) <==> (a, b) in port)
    && (forall a: Node, b: Node {:trigger PortOf(interfaces, nodeOf, peer, port, a, b)} ::
          (a, b) in port ==> PortOf(interfaces, nodeOf, peer, port, a, b))
    && (forall a, i {:trigger Listed(nodeOf, peer, port, a, interfaces[a][i])} ::
          a in interfaces && 0 <= i < |interfaces[a]| ==> Listed(nodeOf, peer, port, a, interfaces[a][i]))
  }

  ghost predicate PortOf(interfaces: map<Node, seq<Ip>>, nodeOf: map<Ip, Node>, peer: map<Ip, Ip>,
                         port: map<Link, Ip>, a: Node, b: Node)
    requires (a, b) in port
  {
    var ip := port[(a, b)];
    (b, a) in port && a in interfaces && ip in interfaces[a] &&
    ip in nodeOf && nodeOf[ip] == a && ip in peer && peer[ip] == port[(b, a)]
  }

  // A listed address is the node's port on some link.
  ghost predicate Listed(nodeOf: map<Ip, Node>, peer: map<Ip, Ip>, port: map<Link, Ip>, a: Node, ip: Ip) {
    ip in peer && peer[ip] in nodeOf && (a, nodeOf[peer[ip]]) in port && port[(a, nodeOf[peer[ip]])] == ip
  }

  // A numbered link has four addresses, its two ports being the first and the second host, and is
  // not numbered again in the other direction.
  predicate NumberedAt(subnets: map<Link, Ip>, port: map<Link, Ip>, next: Ip, a: Node, b: Node) {
    (a, b) in subnets ==>
      && subnets[(a, b)] % 4 == 0 && subnets[(a, b)] + 4 <= next && (b, a) !in subnets
      && (a, b) in port && port[(a, b)] == subnets[(a, b)] + 1
      && (b, a) in port && port[(b, a)] == subnets[(a, b)] + 2
  }

  predicate PortNumbered(subnets: map<Link, Ip>, port: map<Link, Ip>, a: Node, b: Node) {
    (a, b) in port ==> (a, b) in subnets || (b, a) in subnets
  }

  // Every link has a subnet of its own.
  ghost predicate Numbered(subnets: map<Link, Ip>, port: map<Link, Ip>, next: Ip) {
    && next % 4 == 0
    && (forall a: Node, b: Node {:trigger NumberedAt(subnets, port, next, a, b)} ::
          NumberedAt(subnets, port, next, a, b))
    && (forall a: Node, b: Node {:trigger PortNumbered(subnets, port, a, b)} :: PortNumbered(subnets, port, a, b))
    && (forall l, m {:trigger subnets[l], subnets[m]} ::
          l in subnets && m in subnets && subnets[l] == subnets[m] ==> l == m)
  }

  ghost predicate AllBelow(nodeOf: map<Ip, Node>, peer: map<Ip, Ip>, next: Ip) {
    (forall ip :: ip in nodeOf ==> ip < next) && (forall ip :: ip in peer ==> ip < next && peer[ip] < next)
  }

  // A new edge; nodes not seen before are added.
  function WithEdge(g: Graph, a: Node, b: Node): Graph {
    var ga := if a in g then g[a] else {};
    var g1 := g[a := ga + {b}];
    g1[b := (if b in g1 then g1[b] else {}) + {a}]
  }

  lemma WithEdgeIs(g: Graph, a: Node, b: Node, x: Node, y: Node)
    requires a != b
    ensures Edge(WithEdge(g, a, b), x, y) <==> Edge(g, x, y) || (x == a && y == b) || (x == b && y == a)
    ensures WithEdge(g, a, b).Keys == g.Keys + {a, b}
  {
  }

  lemma WithEdgeUndirected(g: Graph, a: Node, b: Node)
    requires Undirected(g) && a != b
    ensures Undirected(WithEdge(g, a, b))
  {
    var h := WithEdge(g, a, b);
    forall x, y | x in h && y in h[x] ensures y in h && x in h[y] && x != y {
      WithEdgeIs(g, a, b, x, y);
      WithEdgeIs(g, a, b, y, x);
      assert Edge(h, x, y);
      if Edge(g, x, y) { assert y in g && x in g[y]; }
      assert Edge(h, y, x);
    }
  }

  function Appended(interfaces: map<Node, seq<Ip>>, a: Node, ip: Ip): map<Node, seq<Ip>> {
    interfaces[a := (if a in interfaces then interfaces[a] else []) + [ip]]
  }

  lemma AppendedKeeps(interfaces: map<Node, seq<Ip>>, a: Node, ip: Ip, x: Node, other: Ip)
    ensures Appended(interfaces, a, ip).Keys == interfaces.Keys + {a} && ip in Appended(interfaces, a, ip)[a]
    ensures x in interfaces && other in interfaces[x] ==> other in Appended(interfaces, a, ip)[x]
    ensures x in Appended(interfaces, a, ip) && other in Appended(interfaces, a, ip)[x] ==>
              (x in interfaces && other in interfaces[x]) || (x == a && other == ip)
  {
  }

  // Wiring a link that was not there.
  lemma WiredMore(g: Graph, interfaces: map<Node, seq<Ip>>, nodeOf: map<Ip, Node>, peer: map<Ip, Ip>,
                  port: map<Link, Ip>, next: Ip, a: Node, b: Node)
    requires Undirected(g) && Wired(g, interfaces, nodeOf, peer, port) && AllBelow(nodeOf, peer, next)
    requires a != b && !Edge(g, a, b)
    ensures var ip1, ip2 := next + 1, next + 2;
            && Wired(WithEdge(g, a, b), Appended(Appended(interfaces, a, ip1), b, ip2), nodeOf[ip1 := a][ip2 := b],
                     peer[ip1 := ip2][ip2 := ip1], port[(a, b) := ip1][(b, a) := ip2])
            && AllBelow(nodeOf[ip1 := a][ip2 := b], peer[ip1 := ip2][ip2 := ip1], next + 4)
  {
    hide Appended, WithEdge, Edge, Undirected, PortOf, Listed;
    var ip1, ip2 := next + 1, next + 2;
    var g2, i1 := WithEdge(g, a, b), Appended(interfaces, a, ip1);
    var i2, n2, p2, port2 := Appended(i1, b, ip2), nodeOf[ip1 := a][ip2 := b], peer[ip1 := ip2][ip2 := ip1],
                             port[(a, b) := ip1][(b, a) := ip2];
    WithEdgeIs(g, a, b, a, b);
    AppendedKeeps(interfaces, a, ip1, a, ip1);
    AppendedKeeps(i1, b, ip2, a, ip1);
    EdgeBack(g, a, b);
    forall x: Node, y: Node ensures Edge(g2, x, y) <==> (x, y) in port2 {
      WithEdgeIs(g, a, b, x, y);
    }
    forall x: Node, y: Node | (x, y) in port2 ensures PortOf(i2, n2, p2, port2, x, y) {
      PortKept(interfaces, nodeOf, peer, port, next, a, b, x, y);
    }
    forall x, i | x in i2 && 0 <= i < |i2[x]| ensures Listed(n2, p2, port2, x, i2[x][i]) {
      var ip := i2[x][i];
      assert ip in i2[x];
      AppendedKeeps(i1, b, ip2, x, ip);
      AppendedKeeps(interfaces, a, ip1, x, ip);
      if x in interfaces && ip in interfaces[x] {
        var j :| 0 <= j < |interfaces[x]| && interfaces[x][j] == ip;
        assert Listed(nodeOf, peer, port, x, interfaces[x][j]);
        ListedKept(nodeOf, peer, port, next, a, b, x, ip);
      } else {
        ListedNew(nodeOf, peer, port, next, a, b, x, ip);
      }
    }
  }

  lemma EdgeBack(g: Graph, a: Node, b: Node)
    requires Undirected(g) && !Edge(g, a, b)
    ensures !Edge(g, b, a)
  {
  }

  lemma PortKept(interfaces: map<Node, seq<Ip>>, nodeOf: map<Ip, Node>, peer: map<Ip, Ip>, port: map<Link, Ip>,
                 next: Ip, a: Node, b: Node, x: Node, y: Node)
    requires a != b && (a, b) !in port && (b, a) !in port && AllBelow(nodeOf, peer, next)
    requires (x, y) in port ==> PortOf(interfaces, nodeOf, peer, port, x, y)
    requires (x, y) in port || (x, y) == (a, b) || (x, y) == (b, a)
    ensures var port2 := port[(a, b) := next + 1][(b, a) := next + 2];
            (x, y) in port2 &&
            PortOf(Appended(Appended(interfaces, a, next + 1), b, next + 2), nodeOf[next + 1 := a][next + 2 := b],
                   peer[next + 1 := next + 2][next + 2 := next + 1], port2, x, y)
  {
    hide Appended;
    var i1 := Appended(interfaces, a, next + 1);
    var ip := if (x, y) in port then port[(x, y)] else next + 1;
    AppendedKeeps(interfaces, a, next + 1, x, ip);
    AppendedKeeps(i1, b, next + 2, x, ip);
  }

  lemma ListedKept(nodeOf: map<Ip, Node>, peer: map<Ip, Ip>, port: map<Link, Ip>, next: Ip, a: Node, b: Node,
                   x: Node, ip: Ip)
    requires (a, b) !in port && (b, a) !in port && AllBelow(nodeOf, peer, next) && Listed(nodeOf, peer, port, x, ip)
    ensures Listed(nodeOf[next + 1 := a][next + 2 := b], peer[next + 1 := next + 2][next + 2 := next + 1],
                   port[(a, b) := next + 1][(b, a) := next + 2], x, ip)
  {
  }

  lemma ListedNew(nodeOf: map<Ip, Node>, peer: map<Ip, Ip>, port: map<Link, Ip>, next: Ip, a: Node, b: Node,
                  x: Node, ip: Ip)
    requires a != b && ((x == a && ip == next + 1) || (x == b && ip == next + 2))
    ensures Listed(nodeOf[next + 1 := a][next + 2 := b], peer[next + 1 := next + 2][next + 2 := next + 1],
                   port[(a, b) := next + 1][(b, a) := next + 2], x, ip)
  {
  }

  lemma NumberedMore(subnets: map<Link, Ip>, port: map<Link, Ip>, next: Ip, a: Node, b: Node)
    requires Numbered(subnets, port, next) && a != b && (a, b) !in port && (b, a) !in port
    ensures Numbered(subnets[(a, b) := next], port[(a, b) := next + 1][(b, a) := next + 2], next + 4)
  {
    var s2, p2, n2 := subnets[(a, b) := next], port[(a, b) := next + 1][(b, a) := next + 2], next + 4;
    assert NumberedAt(subnets, port, next, a, b) && NumberedAt(subnets, port, next, b, a);
    forall x: Node, y: Node ensures NumberedAt(s2, p2, n2, x, y) {
      assert NumberedAt(subnets, port, next, x, y);
    }
    forall x: Node, y: Node ensures PortNumbered(s2, p2, x, y) {
      assert PortNumbered(subnets, port, x, y);
    }
    forall l, m | l in s2 && m in s2 && s2[l] == s2[m] ensures l == m {
      assert (l.0, l.1) == l && (m.0, m.1) == m;
      assert NumberedAt(subnets, port, next, l.0, l.1) && NumberedAt(subnets, port, next, m.0, m.1);
    }
  }

  // New nodes have no interfaces yet.
  function WithNodes(g: Graph, interfaces: map<Node, seq<Ip>>, a: Node, b: Node): map<Node, seq<Ip>> {
    var i1 := if a in g then interfaces else interfaces[a := []];
    if b in g then i1 else i1[b := []]
  }

  // Adding missing nodes first and then the edge adds the edge.
  lemma NodesThenEdge(g: Graph, all: Graph, a: Node, b: Node)
    requires a != b && all.Keys == g.Keys + {a, b}
    requires forall n :: n in all ==> all[n] == if n in g then g[n] else {}
    ensures all[a := all[a] + {b}][b := all[b] + {a}] == WithEdge(g, a, b)
  {
  }

  lemma AppendedWithNodes(g: Graph, interfaces: map<Node, seq<Ip>>, a: Node, b: Node, ip1: Ip, ip2: Ip)
    requires interfaces.Keys == g.Keys && a != b
    ensures a in WithNodes(g, interfaces, a, b) && b in WithNodes(g, interfaces, a, b)
    ensures Appended(Appended(WithNodes(g, interfaces, a, b), a, ip1), b, ip2) ==
            Appended(Appended(interfaces, a, ip1), b, ip2)
  {
  }

  lemma NoNewNodes(g: Graph, interfaces: map<Node, seq<Ip>>, a: Node, b: Node)
    requires a in g && b in g
    ensures WithNodes(g, interfaces, a, b) == interfaces
  {
  }

  // A link between different nodes, in either direction.
  predicate Given(links: seq<Link>, a: Node, b: Node) {
    a != b && ((a, b) in links || (b, a) in links)
  }

  lemma GivenMore(links: seq<Link>, i: nat, a: Node, b: Node)
    requires i < |links|
    ensures Given(links[..i + 1], a, b) <==>
            Given(links[..i], a, b) || (a != b && ((a, b) == links[i] || (b, a) == links[i]))
  {
    assert links[..i + 1] == links[..i] + [links[i]];
  }

  // ---- The synthesizer ----

  class NetSynthesizer {
    var g: Graph
    var subnets: map<Link, Ip>
    var interfaces: map<Node, seq<Ip>>
    var nodeOf: map<Ip, Node>
    var peer: map<Ip, Ip>
    var next: Ip
    var rules: map<Node, map<Ip, Ip>>
    ghost var port: map<Link, Ip>

    ghost predicate Valid()
      reads `g, `subnets, `interfaces, `nodeOf, `peer, `next, `port
    {
      && Undirected(g) && Wired(g, interfaces, nodeOf, peer, port) && Numbered(subnets, port, next)
      && AllBelow(nodeOf, peer, next)
    }

    // All links in order, then the rules of every node.
    constructor (links: seq<Link>)
      ensures Valid() && AllRules()
      ensures forall a: Node, b: Node :: Edge(g, a, b) <==> Given(links, a, b)
    {
      g, subnets, interfaces, nodeOf, peer, next := map[], map[], map[], map[], map[], 0;
      rules, port := map[], map[];
      new;
      hide Valid, AllRules;
      AddLinks(links);
      SynthesizeAll();
    }

    method AddLinks(links: seq<Link>)
      requires Valid() && g == map[]
      modifies this
      ensures Valid()
      ensures forall a: Node, b: Node :: Edge(g, a, b) <==> Given(links, a, b)
    {
      hide Valid, WithEdge;
      for i := 0 to |links|
        invariant Valid()
        invariant forall a: Node, b: Node :: Edge(g, a, b) <==> Given(links[..i], a, b)
      {
        ghost var before := g;
        AddLink(links[i]);
        forall a: Node, b: Node ensures Edge(g, a, b) <==> Given(links[..i + 1], a, b) {
          GivenMore(links, i, a, b);
          if links[i].0 != links[i].1 { WithEdgeIs(before, links[i].0, links[i].1, a, b); }
        }
      }
      assert links[..|links|] == links;
    }

    // Every node has its rules.
    ghost predicate AllRules()
      reads this
    {
      forall n :: n in g ==> RulesOf(n)
    }

    ghost predicate RulesOf(n: Node)
      reads this
    {
      n in rules && forall e :: e in subnets ==> RuleFor(n, e, rules[n])
    }

    method SynthesizeAll()
      requires Valid()
      modifies `rules
      ensures Valid() && AllRules()
    {
      hide Valid, RuleFor;
      var todo := g.Keys;
      while todo != {}
        invariant Valid() && todo <= g.Keys && forall n :: n in g && n !in todo ==> RulesOf(n)
        decreases |todo|
      {
        var n :| n in todo;
        todo := todo - {n};
        var table := SynthesizeRules(n);
        ghost var done := g.Keys - todo - {n};
        assert forall m :: m in done ==> RulesOf(m);
        rules := rules[n := table];
      }
    }

    method Connect(a: Node, b: Node)
      requires a != b
      modifies `g, `interfaces
      ensures g == WithEdge(old(g), a, b)
      ensures interfaces == WithNodes(old(g), old(interfaces), a, b)
    {
      if a !in g {
        g := g[a := {}];
        interfaces := interfaces[a := []];
      }
      if b !in g {
        g := g[b := {}];
        interfaces := interfaces[b := []];
      }
      NodesThenEdge(old(g), g, a, b);
      g := g[a := g[a] + {b}];
      g := g[b := g[b] + {a}];
    }

    // The link's subnet and its two ports.
    method NumberLink(a: Node, b: Node)
      requires a in interfaces && b in interfaces && a != b
      modifies `subnets, `interfaces, `nodeOf, `peer, `next, `port
      ensures subnets == old(subnets)[(a, b) := old(next)] && next == old(next) + 4
      ensures interfaces == Appended(Appended(old(interfaces), a, old(next) + 1), b, old(next) + 2)
      ensures nodeOf == old(nodeOf)[old(next) + 1 := a][old(next) + 2 := b]
      ensures peer == old(peer)[old(next) + 1 := old(next) + 2][old(next) + 2 := old(next) + 1]
      ensures port == old(port)[(a, b) := old(next) + 1][(b, a) := old(next) + 2]
    {
      var ip1, ip2 := next + 1, next + 2;
      subnets := subnets[(a, b) := next];
      interfaces := interfaces[a := interfaces[a] + [ip1]];
      nodeOf := nodeOf[ip1 := a];
      interfaces := interfaces[b := interfaces[b] + [ip2]];
      nodeOf := nodeOf[ip2 := b];
      peer := peer[ip1 := ip2][ip2 := ip1];
      port := port[(a, b) := ip1][(b, a) := ip2];
      next := next + 4;
    }

    method AddLink(link: Link)
      requires Valid()
      modifies this
      ensures Valid() && rules == old(rules)
      ensures g == if link.0 == link.1 then old(g) else WithEdge(old(g), link.0, link.1)
      ensures subnets.Keys == old(subnets).Keys +
              if link.0 == link.1 || Edge(old(g), link.0, link.1) then {} else {link}
    {
      hide Wired, Numbered, AllBelow, Undirected, PortOf, Listed, Appended, WithEdge, WithNodes, Edge;
      var a, b := link.0, link.1;
      if a == b { return; }
      WithEdgeUndirected(g, a, b);
      EdgeHasSubnet(a, b);
      AppendedWithNodes(g, interfaces, a, b, next + 1, next + 2);
      if Edge(g, a, b) { NoNewNodes(g, interfaces, a, b); } else {
        WiredMore(g, interfaces, nodeOf, peer, port, next, a, b);
        NumberedMore(subnets, port, next, a, b);
      }
      Connect(a, b);
      if (a, b) !in subnets && (b, a) !in subnets { NumberLink(a, b); }
    }

    // The interface of neighbour dst on its link with src.
    method GetDstInterface(src: Node, dst: Node) returns (di: Option<Ip>)
      requires Valid() && src in g
      ensures di.Some? <==> Edge(g, src, dst)
      ensures di.Some? ==> (dst, src) in port && di.value == port[(dst, src)]
    {
      hide Numbered, AllBelow, Undirected;
      EdgeHasSubnet(src, dst);
      if Edge(g, src, dst) {
        PortBack(g, interfaces, nodeOf, peer, port, src, dst);
        PortBack(g, interfaces, nodeOf, peer, port, dst, src);
      }
      for k := 0 to |interfaces[src]|
        invariant Edge(g, src, dst) ==> (src, dst) in port && port[(src, dst)] in interfaces[src][k..]
      {
        var ip := interfaces[src][k];
        assert interfaces[src][k..] == [ip] + interfaces[src][k + 1..];
        assert Listed(nodeOf, peer, port, src, ip);
        var other := nodeOf[peer[ip]];
        assert PortOf(interfaces, nodeOf, peer, port, src, other);
        if other == dst { return Some(peer[ip]); }
        if Edge(g, src, dst) { PortBack(g, interfaces, nodeOf, peer, port, dst, src); }
      }
      di := None;
    }

    // The rule of node src for the subnet of edge e: there is one exactly when src is not an end of
    // the edge and connected to it, and its next hop is the interface, on the link with src, of a
    // first hop of a shortest path to the edge's first end.
    ghost predicate RuleFor(src: Node, e: Link, table: map<Ip, Ip>)
      requires e in subnets
      reads `g, `subnets, `nodeOf, `port
    {
      && (subnets[e] in table <==> src != e.0 && src != e.1 && Connected(g, src, e.0))
      && (subnets[e] in table ==>
            && table[subnets[e]] in nodeOf && FirstHop(g, src, e.0, nodeOf[table[subnets[e]]])
            && (nodeOf[table[subnets[e]]], src) in port
            && table[subnets[e]] == port[(nodeOf[table[subnets[e]]], src)])
    }

    // A remote edge whose first end can be reached.
    predicate Remote(src: Node, e: Link, parent: map<Node, Option<Node>>) {
      e.0 != src && e.1 != src && e.0 in parent && parent[e.0].Some?
    }

    // The first hop for every subnet that is not the node's own.
    method SubnetToParent(src: Node, parent: map<Node, Option<Node>>) returns (r: map<Ip, Node>)
      requires forall e :: e in subnets ==> e.0 in parent
      requires forall e, f :: e in subnets && f in subnets && subnets[e] == subnets[f] ==> e == f
      ensures forall e :: e in subnets ==>
                if Remote(src, e, parent) then subnets[e] in r && r[subnets[e]] == parent[e.0].value
                else subnets[e] !in r
      ensures forall s :: s in r ==> exists e :: e in subnets && subnets[e] == s && Remote(src, e, parent)
    {
      r := map[];
      var todo := subnets.Keys;
      while todo != {}
        invariant todo <= subnets.Keys
        invariant forall e :: e in subnets ==>
                    if e !in todo && Remote(src, e, parent)
                    then subnets[e] in r && r[subnets[e]] == parent[e.0].value
                    else subnets[e] !in r
        invariant forall s :: s in r ==> exists e :: e in subnets && subnets[e] == s && Remote(src, e, parent)
        decreases |todo|
      {
        var e :| e in todo;
        todo := todo - {e};
        if e.0 != src && e.1 != src && parent[e.0] != None {
          assert Remote(src, e, parent);
          r := r[subnets[e] := parent[e.0].value];
        }
      }
    }

    // The address of the first hop, for every subnet.
    method AddressRules(src: Node, toParent: map<Ip, Node>) returns (table: map<Ip, Ip>)
      requires Valid() && src in g && forall s :: s in toParent ==> Edge(g, src, toParent[s])
      ensures table.Keys == toParent.Keys
      ensures forall s :: s in table ==> (toParent[s], src) in port && table[s] == port[(toParent[s], src)]
    {
      hide Wired, Numbered, AllBelow, Undirected;
      table := map[];
      var todo := toParent.Keys;
      while todo != {}
        invariant todo <= toParent.Keys && table.Keys == toParent.Keys - todo
        invariant forall s :: s in table ==> (toParent[s], src) in port && table[s] == port[(toParent[s], src)]
        decreases |todo|
      {
        var s :| s in todo;
        todo := todo - {s};
        EdgeHasSubnet(src, toParent[s]);
        var di := GetDstInterface(src, toParent[s]);
        table := table[s := di.value];
      }
    }

    method SynthesizeRules(src: Node) returns (table: map<Ip, Ip>)
      requires Valid() && src in g
      ensures forall e :: e in subnets ==> RuleFor(src, e, table)
      ensures forall s :: s in table ==> exists e :: e in subnets && subnets[e] == s
    {
      hide Wired, Numbered, AllBelow, FirstHop, Connected, FirstHops, RuleFor, Undirected;
      ValidParts();
      var parents := BFSParent(g, src);
      var parent := parents.value;
      TableKeys(g, src, parent);
      var toParent := SubnetToParent(src, parent);
      forall s | s in toParent ensures Edge(g, src, toParent[s]) {
        var e :| e in subnets && subnets[e] == s && Remote(src, e, parent);
        HopIsNeighbor(g, src, e.0, parent);
      }
      table := AddressRules(src, toParent);
      forall e | e in subnets ensures RuleFor(src, e, table) {
        if Remote(src, e, parent) { PortBelongs(parent[e.0].value, src); }
        RuleIs(src, e, parent, table);
      }
    }

    lemma RuleIs(src: Node, e: Link, parent: map<Node, Option<Node>>, table: map<Ip, Ip>)
      requires FirstHops(g, src, parent) && e in subnets && e.0 in g && e.0 in parent
      requires subnets[e] in table <==> Remote(src, e, parent)
      requires Remote(src, e, parent) ==>
                 && (parent[e.0].value, src) in port && table[subnets[e]] == port[(parent[e.0].value, src)]
                 && table[subnets[e]] in nodeOf && nodeOf[table[subnets[e]]] == parent[e.0].value
      ensures RuleFor(src, e, table)
    {
      hide FirstHop, Connected;
    }

    lemma PortBelongs(a: Node, b: Node)
      requires Valid() && (a, b) in port
      ensures port[(a, b)] in nodeOf && nodeOf[port[(a, b)]] == a
    {
      assert PortOf(interfaces, nodeOf, peer, port, a, b);
    }

    lemma ValidParts()
      requires Valid()
      ensures Undirected(g)
      ensures forall e :: e in subnets ==> Edge(g, e.0, e.1) && e.0 in g && e.1 in g
      ensures forall e, f :: e in subnets && f in subnets && subnets[e] == subnets[f] ==> e == f
    {
      forall e | e in subnets ensures Edge(g, e.0, e.1) && e.0 in g && e.1 in g {
        assert NumberedAt(subnets, port, next, e.0, e.1);
        EdgeHasSubnet(e.0, e.1);
      }
    }

    lemma EdgeHasSubnet(a: Node, b: Node)
      requires Valid()
      ensures interfaces.Keys == g.Keys
      ensures Edge(g, a, b) <==> (a, b) in subnets || (b, a) in subnets
      ensures Edge(g, a, b) ==> a in g && b in g && WithEdge(g, a, b) == g
      ensures (a, b) in port <==> Edge(g, a, b)
      ensures (b, a) in port <==> Edge(g, a, b)
    {
      hide Numbered, AllBelow, Listed;
      if (a, b) in port { PortBack(g, interfaces, nodeOf, peer, port, a, b); }
      if (b, a) in port { PortBack(g, interfaces, nodeOf, peer, port, b, a); }
      LinkHasSubnet(subnets, port, next, a, b);
      EdgeAgain(g, a, b);
    }
  }

  lemma TableKeys(g: Graph, src: Node, parent: map<Node, Option<Node>>)
    requires FirstHops(g, src, parent)
    ensures parent.Keys == g.Keys
  {
  }

  lemma HopIsNeighbor(g: Graph, src: Node, t: Node, parent: map<Node, Option<Node>>)
    requires FirstHops(g, src, parent) && t in g && t != src && parent[t].Some?
    ensures Connected(g, src, t) && FirstHop(g, src, t, parent[t].value) && Edge(g, src, parent[t].value)
  {
  }

  lemma PortBack(g: Graph, interfaces: map<Node, seq<Ip>>, nodeOf: map<Ip, Node>, peer: map<Ip, Ip>,
                 port: map<Link, Ip>, a: Node, b: Node)
    requires Wired(g, interfaces, nodeOf, peer, port) && (a, b) in port
    ensures (b, a) in port && PortOf(interfaces, nodeOf, peer, port, a, b)
  {
  }

  lemma EdgeAgain(g: Graph, a: Node, b: Node)
    requires Undirected(g)
    ensures Edge(g, a, b) <==> Edge(g, b, a)
    ensures Edge(g, a, b) ==> a in g && b in g && WithEdge(g, a, b) == g
  {
    if Edge(g, a, b) { assert g[a] + {b} == g[a] && g[b] + {a} == g[b]; }
  }

  lemma LinkHasSubnet(subnets: map<Link, Ip>, port: map<Link, Ip>, next: Ip, a: Node, b: Node)
    requires Numbered(subnets, port, next) && ((a, b) in port <==> (b, a) in port)
    ensures (a, b) in port <==> (a, b) in subnets || (b, a) in subnets
  {
    assert NumberedAt(subnets, port, next, a, b) && NumberedAt(subnets, port, next, b, a);
    assert PortNumbered(subnets, port, a, b);
  }

  // Where each node sends packets for a subnet.
  function NextNodes(rules: map<Node, map<Ip, Ip>>, nodeOf: map<Ip, Node>, subnet: Ip): map<Node, Node> {
    map n | n in rules && subnet in rules[n] && rules[n][subnet] in nodeOf :: nodeOf[rules[n][subnet]]
  }

  // With the rules of all nodes, a packet for the subnet of any edge, started at any node connected
  // to it, arrives at an end of the edge without visiting a node twice.
  lemma SynthesizedRoutesArrive(net: NetSynthesizer, e: Link, n: Node, k: nat)
    requires net.Valid() && net.AllRules() && e in net.subnets && n in net.g && Distance(net.g, n, e.0, k)
    ensures var hop := NextNodes(net.rules, net.nodeOf, net.subnets[e]);
            var r := Route(hop, e.0, e.1, n, k);
            && (r[|r| - 1] == e.0 || r[|r| - 1] == e.1)
            && (forall i :: 0 <= i < |r| ==> i <= k && Distance(net.g, r[i], e.0, k - i))
            && (forall i, j :: 0 <= i < j < |r| ==> r[i] != r[j])
  {
    hide Distance, FirstHop, Route, Connected, Wired, Numbered, AllBelow;
    var hop := NextNodes(net.rules, net.nodeOf, net.subnets[e]);
    assert RoutesTo(net.g, hop, e.0, e.1) by {
      forall m | m in net.g && m != e.0 && m != e.1 && Connected(net.g, m, e.0)
        ensures m in hop && FirstHop(net.g, m, e.0, hop[m])
      {
        assert net.RuleFor(m, e, net.rules[m]);
      }
    }
    RouteArrives(net.g, hop, e.0, e.1, n, k);
    var r := Route(hop, e.0, e.1, n, k);
    forall i, j | 0 <= i < j < |r| ensures r[i] != r[j] {
      NoNodeTwice(net.g, hop, e.0, e.1, n, k, i, j);
    }
  }
}
