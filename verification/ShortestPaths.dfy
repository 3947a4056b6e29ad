/** Breadth-first first hops (src/dataparse.py:191-209). */
module ShortestPaths {
  import opened Options

  type Node = nat

  type Graph = map<Node, set<Node>>

  // Edges go both ways, between different nodes of the graph.
  predicate Undirected(g: Graph) {
    forall a, b :: a in g && b in g[a] ==> b in g && a in g[b] && a != b
  }

  predicate Edge(g: Graph, a: Node, b: Node) { a in g && b in g[a] }

  // b can be reached from a in at most k steps.
  ghost predicate Within(g: Graph, a: Node, b: Node, k: nat)
    decreases k
  {
    a == b || (k > 0 && exists m :: Edge(g, m, b) && Within(g, a, m, k - 1))
  }

  // The length of a shortest path.
  ghost predicate Distance(g: Graph, a: Node, b: Node, k: nat) {
    Within(g, a, b, k) && forall j: nat :: j < k ==> !Within(g, a, b, j)
  }

  ghost predicate Connected(g: Graph, a: Node, b: Node) {
    exists k: nat :: Within(g, a, b, k)
  }

  lemma {:induction false} WithinMore(g: Graph, a: Node, b: Node, k: nat, n: nat)
    requires Within(g, a, b, k) && k <= n
    ensures Within(g, a, b, n)
    decreases k
  {
    if a != b {
      var m :| Edge(g, m, b) && Within(g, a, m, k - 1);
      WithinMore(g, a, m, k - 1, n - 1);
    }
  }

  lemma StepAfter(g: Graph, a: Node, m: Node, b: Node, k: nat)
    requires Within(g, a, m, k) && Edge(g, m, b)
    ensures Within(g, a, b, k + 1)
  {
  }

  lemma {:induction false} StepBefore(g: Graph, a: Node, h: Node, b: Node, k: nat)
    requires Within(g, h, b, k) && Edge(g, a, h)
    ensures Within(g, a, b, k + 1)
    decreases k
  {
    if h == b {
      assert Within(g, a, a, 0);
      StepAfter(g, a, a, b, 0);
      WithinMore(g, a, b, 1, k + 1);
    } else {
      var m :| Edge(g, m, b) && Within(g, h, m, k - 1);
      StepBefore(g, a, h, m, k - 1);
      StepAfter(g, a, m, b, k);
    }
  }

  lemma DistanceUnique(g: Graph, a: Node, b: Node, j: nat, k: nat)
    requires Distance(g, a, b, j) && Distance(g, a, b, k)
    ensures j == k
  {
  }

  // A first hop of a shortest path from s to t.
  ghost predicate FirstHop(g: Graph, s: Node, t: Node, h: Node) {
    Edge(g, s, h) && exists k: nat {:trigger Distance(g, h, t, k)} :: Distance(g, s, t, k + 1) && Distance(g, h, t, k)
  }

  lemma FirstHopIs(g: Graph, s: Node, t: Node, h: Node, k: nat)
    requires Edge(g, s, h) && Distance(g, s, t, k + 1) && Within(g, h, t, k)
    ensures Distance(g, h, t, k) && FirstHop(g, s, t, h)
  {
    forall j: nat | j < k ensures !Within(g, h, t, j) {
      if Within(g, h, t, j) { StepBefore(g, s, h, t, j); }
    }
    assert Distance(g, h, t, k);
  }

  // ---- Breadth-first search ----

  // What is known of the nodes found so far: dist counts the steps of the search.
  ghost predicate Found(g: Graph, s: Node, parent: map<Node, Option<Node>>, dist: map<Node, nat>) {
    && parent.Keys == g.Keys && s in dist && dist[s] == 0
    && (forall t :: t in g ==> (t in dist <==> parent[t].Some?))
    && (forall t :: t in dist ==> t in g && Within(g, s, t, dist[t]))
    && (forall t :: t in dist && t != s ==>
          dist[t] > 0 && parent[t].Some? && Edge(g, s, parent[t].value) && Within(g, parent[t].value, t, dist[t] - 1))
  }

  // The queue holds found nodes by distance, all others are done: their neighbours are found.
  ghost predicate Layered(g: Graph, dist: map<Node, nat>, q: seq<Node>) {
    && (forall i :: 0 <= i < |q| ==> q[i] in dist)
    && (forall i, j :: 0 <= i <= j < |q| ==> dist[q[i]] <= dist[q[j]])
    && (q != [] ==> forall t :: t in dist ==> dist[t] <= dist[q[0]] + 1)
  }

  ghost predicate Done(g: Graph, dist: map<Node, nat>, q: seq<Node>) {
    forall t, m :: t in dist && t !in q && Edge(g, t, m) ==> m in dist && dist[m] <= dist[t] + 1
  }

  // With an empty queue every node within k steps was found at a distance of at most k.
  lemma {:induction false} AllFound(g: Graph, s: Node, dist: map<Node, nat>, t: Node, k: nat)
    requires s in dist && dist[s] == 0 && Done(g, dist, []) && Within(g, s, t, k)
    ensures t in dist && dist[t] <= k
    decreases k
  {
    if s != t {
      var m :| Edge(g, m, t) && Within(g, s, m, k - 1);
      AllFound(g, s, dist, m, k - 1);
    }
  }

  // What a first-hop table promises: the node itself for the source, a first hop of a shortest path
  // for every other node that can be reached, nothing for the rest.
  ghost predicate FirstHops(g: Graph, s: Node, parent: map<Node, Option<Node>>) {
    && parent.Keys == g.Keys && s in g && parent[s] == Some(s)
    && forall t :: t in g && t != s ==>
         if Connected(g, s, t) then parent[t].Some? && FirstHop(g, s, t, parent[t].value) else parent[t].None?
  }

  lemma TableIsExact(g: Graph, s: Node, parent: map<Node, Option<Node>>, dist: map<Node, nat>)
    requires Found(g, s, parent, dist) && Done(g, dist, []) && parent[s] == Some(s)
    ensures FirstHops(g, s, parent)
  {
    hide Within, Distance, FirstHop;
    forall t | t in g && t != s
      ensures if Connected(g, s, t) then parent[t].Some? && FirstHop(g, s, t, parent[t].value) else parent[t].None?
    {
      FoundIffConnected(g, s, dist, t);
      if t in dist {
        FoundDistance(g, s, dist, t);
        FirstHopIs(g, s, t, parent[t].value, dist[t] - 1);
      }
    }
  }

  lemma FoundIffConnected(g: Graph, s: Node, dist: map<Node, nat>, t: Node)
    requires s in dist && dist[s] == 0 && Done(g, dist, []) && (t in dist ==> Within(g, s, t, dist[t]))
    ensures t in dist <==> Connected(g, s, t)
  {
    if Connected(g, s, t) {
      var k: nat :| Within(g, s, t, k);
      AllFound(g, s, dist, t, k);
    }
  }

  lemma FoundDistance(g: Graph, s: Node, dist: map<Node, nat>, t: Node)
    requires s in dist && dist[s] == 0 && Done(g, dist, []) && t in dist && Within(g, s, t, dist[t])
    ensures Distance(g, s, t, dist[t])
  {
    forall j: nat | j < dist[t] ensures !Within(g, s, t, j) {
      if Within(g, s, t, j) { AllFound(g, s, dist, t, j); }
    }
  }

  // One more node is found through n, which is the node taken from the queue.
  lemma FoundOneMore(g: Graph, s: Node, parent: map<Node, Option<Node>>, dist: map<Node, nat>, n: Node, m: Node)
    requires Undirected(g) && Found(g, s, parent, dist) && n in dist && n != s && Edge(g, n, m) && m !in dist
    ensures m in g && Found(g, s, parent[m := parent[n]], dist[m := dist[n] + 1])
  {
    hide Within;
    StepAfter(g, s, n, m, dist[n]);
    StepAfter(g, parent[n].value, n, m, dist[n] - 1);
  }

  // The neighbours of the source added so far are all that is found, at distance 1.
  ghost predicate Nearest(s: Node, dist: map<Node, nat>, q: seq<Node>) {
    && s in dist && dist[s] == 0
    && (forall i :: 0 <= i < |q| ==> q[i] in dist && q[i] != s)
    && (forall t :: t in dist && t != s ==> t in q && dist[t] == 1)
  }

  lemma FoundParts(g: Graph, s: Node, parent: map<Node, Option<Node>>, dist: map<Node, nat>, t: Node)
    requires Found(g, s, parent, dist)
    ensures parent.Keys == g.Keys && dist.Keys <= g.Keys && s in parent
    ensures t in g ==> (t in dist <==> parent[t].Some?)
  {
  }

  lemma FoundStart(g: Graph, s: Node, parent: map<Node, Option<Node>>)
    requires s in g && parent.Keys == g.Keys && parent[s] == Some(s)
    requires forall t :: t in g && t != s ==> parent[t].None?
    ensures Found(g, s, parent, map[s := 0])
  {
  }

  lemma FoundNeighbor(g: Graph, s: Node, parent: map<Node, Option<Node>>, dist: map<Node, nat>, m: Node)
    requires Undirected(g) && Found(g, s, parent, dist) && Edge(g, s, m) && m !in dist
    ensures m in g && m != s && Found(g, s, parent[m := Some(m)], dist[m := 1])
  {
    hide Within;
    assert Within(g, s, s, 0) && Within(g, m, m, 0) by { WithinSelf(g, s); WithinSelf(g, m); }
    StepAfter(g, s, s, m, 0);
  }

  lemma WithinSelf(g: Graph, a: Node)
    ensures Within(g, a, a, 0)
  {
  }

  lemma NearestStart(s: Node)
    ensures Nearest(s, map[s := 0], [])
  {
  }

  lemma NearestMore(s: Node, dist: map<Node, nat>, q: seq<Node>, m: Node)
    requires Nearest(s, dist, q) && m != s
    ensures Nearest(s, dist[m := 1], q + [m])
  {
  }

  lemma StartLayered(g: Graph, s: Node, dist: map<Node, nat>, q: seq<Node>)
    requires s in g && Nearest(s, dist, q) && dist.Keys == g[s] + {s}
    ensures Layered(g, dist, q) && Done(g, dist, q) && s !in q
  {
  }

  // The search is at node n: what is queued is at the distance of n or one further.
  ghost predicate LayeredAt(dist: map<Node, nat>, q: seq<Node>, n: Node) {
    && n in dist && (forall i :: 0 <= i < |q| ==> q[i] in dist && dist[n] <= dist[q[i]])
    && (forall i, j :: 0 <= i <= j < |q| ==> dist[q[i]] <= dist[q[j]])
    && (forall t :: t in dist ==> dist[t] <= dist[n] + 1)
  }

  // All nodes but the queued are done, except for some neighbours of n.
  ghost predicate DoneBut(g: Graph, dist: map<Node, nat>, q: seq<Node>, n: Node, todo: set<Node>) {
    forall t, m :: t in dist && t !in q && Edge(g, t, m) && !(t == n && m in todo) ==>
      m in dist && dist[m] <= dist[t] + 1
  }

  lemma StartNode(g: Graph, dist: map<Node, nat>, q: seq<Node>)
    requires q != [] && Layered(g, dist, q) && Done(g, dist, q) && q[0] in g
    ensures LayeredAt(dist, q[1..], q[0]) && DoneBut(g, dist, q[1..], q[0], g[q[0]])
  {
    assert q == [q[0]] + q[1..];
  }

  lemma AlreadyFound(g: Graph, dist: map<Node, nat>, q: seq<Node>, n: Node, todo: set<Node>, m: Node)
    requires LayeredAt(dist, q, n) && DoneBut(g, dist, q, n, todo) && m in dist
    ensures DoneBut(g, dist, q, n, todo - {m})
  {
  }

  lemma NewlyFound(g: Graph, dist: map<Node, nat>, q: seq<Node>, n: Node, todo: set<Node>, m: Node)
    requires LayeredAt(dist, q, n) && DoneBut(g, dist, q, n, todo) && m !in dist
    ensures LayeredAt(dist[m := dist[n] + 1], q + [m], n)
    ensures DoneBut(g, dist[m := dist[n] + 1], q + [m], n, todo - {m})
  {
    forall t | t in dist[m := dist[n] + 1] && t !in q + [m] ensures t in dist && t !in q && t != m {
      assert m in [m] && (t in q ==> t in q + [m]);
    }
  }

  lemma EndNode(g: Graph, dist: map<Node, nat>, q: seq<Node>, n: Node)
    requires LayeredAt(dist, q, n) && DoneBut(g, dist, q, n, {})
    ensures Layered(g, dist, q) && Done(g, dist, q)
  {
  }

  // None for a source that is not in the graph.
  method BFSParent(g: Graph, s: Node) returns (r: Option<map<Node, Option<Node>>>)
    requires Undirected(g)
    ensures r.None? <==> s !in g
    ensures r.Some? ==> FirstHops(g, s, r.value)
  {
    hide Within, FirstHops, Found, Layered, Done;
    if s !in g { return None; }
    var parent: map<Node, Option<Node>>, q: seq<Node>;
    ghost var dist: map<Node, nat>;
    parent, q, dist := Start(g, s);
    FoundParts(g, s, parent, dist, s);
    while q != []
      invariant Found(g, s, parent, dist) && s in parent && parent[s] == Some(s)
      invariant Layered(g, dist, q) && Done(g, dist, q) && s !in q
      decreases g.Keys - dist.Keys, |q|
    {
      parent, q, dist := Visit(g, s, parent, q, dist);
    }
    TableIsExact(g, s, parent, dist);
    r := Some(parent);
  }

  // The neighbours of the source are their own first hops.
  method Start(g: Graph, s: Node)
    returns (parent: map<Node, Option<Node>>, q: seq<Node>, ghost dist: map<Node, nat>)
    requires Undirected(g) && s in g
    ensures Found(g, s, parent, dist) && parent[s] == Some(s)
    ensures Layered(g, dist, q) && Done(g, dist, q) && s !in q
  {
    hide Within, Found, Layered, Done, Nearest, Undirected;
    parent := map n | n in g :: None;
    parent := parent[s := Some(s)];
    dist := map[s := 0];
    q := [];
    FoundStart(g, s, parent);
    NearestStart(s);
    var todo := g[s];
    while todo != {}
      invariant todo <= g[s] && Found(g, s, parent, dist) && s in parent && parent[s] == Some(s)
      invariant Nearest(s, dist, q) && dist.Keys == g[s] - todo + {s}
      decreases |todo|
    {
      var neighbor :| neighbor in todo;
      NeighborIsOther(g, s, neighbor);
      todo := todo - {neighbor};
      FoundNeighbor(g, s, parent, dist, neighbor);
      NearestMore(s, dist, q, neighbor);
      parent := parent[neighbor := Some(neighbor)];
      q := q + [neighbor];
      dist := dist[neighbor := 1];
    }
    StartLayered(g, s, dist, q);
  }

  lemma NeighborIsOther(g: Graph, s: Node, m: Node)
    requires Undirected(g) && s in g && m in g[s]
    ensures m != s && m in g && Edge(g, s, m)
  {
  }

  // The body of the search loop: the neighbours of the first node in the queue.
  method Visit(g: Graph, s: Node, parent: map<Node, Option<Node>>, q: seq<Node>, ghost dist: map<Node, nat>)
    returns (parent': map<Node, Option<Node>>, q': seq<Node>, ghost dist': map<Node, nat>)
    requires Undirected(g) && Found(g, s, parent, dist) && parent[s] == Some(s)
    requires Layered(g, dist, q) && Done(g, dist, q) && s !in q && q != []
    ensures Found(g, s, parent', dist') && s in parent' && parent'[s] == Some(s)
    ensures Layered(g, dist', q') && Done(g, dist', q') && s !in q'
    ensures dist.Keys <= dist'.Keys <= g.Keys && (dist'.Keys == dist.Keys ==> |q'| < |q|)
  {
    hide Within, Found, Layered, Done, LayeredAt, DoneBut;
    parent', q', dist' := parent, q[1..], dist;
    var n := q[0];
    FirstInQueue(g, s, parent, dist, q);
    StartNode(g, dist, q);
    FoundParts(g, s, parent, dist, n);
    var todo := g[n];
    while todo != {}
      invariant todo <= g[n] && Found(g, s, parent', dist') && s in parent' && parent'[s] == Some(s) && n in dist'
      invariant LayeredAt(dist', q', n) && DoneBut(g, dist', q', n, todo) && s !in q'
      invariant dist.Keys <= dist'.Keys <= g.Keys && (dist'.Keys == dist.Keys ==> q' == q[1..])
      decreases |todo|
    {
      var neighbor :| neighbor in todo;
      FoundParts(g, s, parent', dist', neighbor);
      FoundParts(g, s, parent', dist', n);
      if parent'[neighbor] == None {
        FoundOneMore(g, s, parent', dist', n, neighbor);
        NewlyFound(g, dist', q', n, todo, neighbor);
        parent' := parent'[neighbor := parent'[n]];
        q' := q' + [neighbor];
        dist' := dist'[neighbor := dist'[n] + 1];
        assert neighbor in dist'.Keys && neighbor !in dist.Keys;
      } else {
        AlreadyFound(g, dist', q', n, todo, neighbor);
      }
      todo := todo - {neighbor};
    }
    EndNode(g, dist', q', n);
  }

  lemma FirstInQueue(g: Graph, s: Node, parent: map<Node, Option<Node>>, dist: map<Node, nat>, q: seq<Node>)
    requires q != [] && Layered(g, dist, q) && Found(g, s, parent, dist) && s !in q
    ensures q[0] in dist && q[0] in g && q[0] != s && s !in q[1..]
  {
    assert q[0] in q;
  }
}
