/** From the configuration to every forwarding step: the assumptions of the explorer follow from the
    classes and tables built before it runs. */
module Network {
  import opened Addressing
  import opened Routing
  import opened NextHops
  import opened Options
  import opened EcRanges
  import opened EcRequests
  import opened EqClasses
  import opened Dataplane
  import opened Forwarding
  import Exactness

  // ---- The shape of next hops ----

  // The interface an egress interface is connected to.
  function PeerOf(far: Far): Interface {
    match far
    case L3Peer(i) => i
    case L2Peer(p, _) => p
  }

  predicate Leaving(v: NodeView, h: Ipnh) {
    && h.l2Intf.Some? && h.l3Intf.Some? && h.l3Node == h.l3Intf.value.node
    && exists x :: x in v.far && EndsAt(v.far[x], h)
  }

  // The hop crosses the link, to the peer itself or to an endpoint of the LAN behind it.
  predicate EndsAt(far: Far, h: Ipnh) {
    && h.l2Intf == Some(PeerOf(far))
    && match far
       case L3Peer(i) => h.l3Intf == Some(i)
       case L2Peer(_, eps) => exists a :: a in eps && h.l3Intf == Some(eps[a])
  }

  lemma {:induction false} ContributionShape(v: NodeView, rs: seq<Route>, ip: Addr, h: Ipnh)
    requires h in Contributions(v, rs, ip)
    ensures h == Self(v) || Leaving(v, h)
  {
    if h in Contribution(v, rs[0], ip) {
      if h != Self(v) { assert EndsAt(v.far[rs[0].intf], h); }
    } else {
      ContributionShape(v, rs[1..], ip, h);
    }
  }

  lemma HopShape(v: NodeView, rib: seq<Route>, dst: Addr, h: Ipnh)
    requires h in Ipnhs(v, rib, dst)
    ensures h == Self(v) || Leaving(v, h)
  {
    IpnhsAreNextHops(v, rib, dst);
    var y: Addr :| Reaches(rib, dst, y) && h in Local(v, rib, y);
    assert Local(v, rib, y) == Contributions(v, Lookup(rib, y), y);
    ContributionShape(v, Lookup(rib, y), y, h);
  }

  // ---- A network of routers and hosts ----

  predicate FarInside(far: Far, nodes: set<string>) {
    match far
    case L3Peer(i) => i.node in nodes
    case L2Peer(_, eps) => forall a :: a in eps ==> eps[a].node in nodes
  }

  // Links stay inside the network, every link leaves through an interface with an address of the
  // node, and every node has an address.
  ghost predicate Linked(env: Env, c: Config) {
    && (forall n :: n in c.nodes ==> c.nodes[n].view.name == n && !c.nodes[n].emulated)
    && (forall n, x :: n in c.nodes && x in c.nodes[n].view.far ==> FarInside(c.nodes[n].view.far[x], c.nodes.Keys))
    && (forall n, h :: n in c.nodes && Leaving(c.nodes[n].view, h) ==>
          env.egressAddr(n, h).Some? && env.egressAddr(n, h).value in c.nodes[n].view.addrs)
    && (forall n :: n in c.nodes ==> env.loopback(n).Some? && env.loopback(n).value in c.nodes[n].view.addrs)
  }

  ghost predicate Enumerates(hops: seq<Ipnh>, s: set<Ipnh>) {
    && (forall i, j :: 0 <= i < j < |hops| ==> hops[i] != hops[j])
    && forall h :: h in hops <==> h in s
  }

  // What node n's next hops toward address a are with the installed updates, after the first i
  // entries of the updates: those the table with its updates gives, or else those without them.
  ghost function HopsToward(c: Config, ec: seq<ECRange>, installed: seq<nat>, n: string, i: nat, a: Addr): set<Ipnh>
    requires WellFormed(c) && Counts(c, installed) && n in c.nodes && i <= |c.updates|
  {
    if i == 0 then Hops(c.nodes[n], c.nodes[n].rib, a) else
      var hops := Hops(c.nodes[c.updates[i - 1].node], ReplayedTable(c, ec, i - 1, installed[i - 1]), a);
      if c.updates[i - 1].node == n && hops != {} then hops else HopsToward(c, ec, installed, n, i - 1, a)
  }

  lemma {:induction false} RepresentativeToward(c: Config, ec: seq<ECRange>, installed: seq<nat>, n: string, i: nat)
    requires WellFormed(c) && Counts(c, installed) && ec != [] && n in c.nodes && i <= |c.updates|
    ensures HopsToward(c, ec, installed, n, i, Representative(ec)) == HopsUpTo(c, ec, installed, n, i)
  {
    hide Hops, Replayed;
    if i > 0 { RepresentativeToward(c, ec, installed, n, i - 1); }
  }

  // The FIB of a class is exact for every address of the class.
  lemma {:induction false} RebuiltIsExact(c: Config, s: seq<ECRange>, added: seq<Request>, own: seq<ECRange>, e: EcId,
                                          a: Addr, installed: seq<nat>, n: string, i: nat)
    requires WellFormed(c) && Exactness.Announced(c, added) && Exactness.LansAreInside(c)
    requires Labelled(s) && Coarsest(s, added) && Paired(s, own, e) && own != []
    requires LabelAt(s, a) == e && e != 0 && Counts(c, installed) && n in c.nodes && i <= |c.updates|
    ensures HopsToward(c, own, installed, n, i, a) == HopsUpTo(c, own, installed, n, i)
  {
    hide Hops, Replayed, Exactness.Announced, Exactness.LansAreInside, Labelled, Coarsest, Paired, LabelAt;
    Exactness.RepresentativeIsExact(c, s, added, own, e, a);
    if i > 0 { RebuiltIsExact(c, s, added, own, e, a, installed, n, i - 1); }
  }

  lemma {:induction false} TowardShape(c: Config, ec: seq<ECRange>, installed: seq<nat>, n: string, i: nat, a: Addr,
                                       h: Ipnh)
    requires WellFormed(c) && Counts(c, installed) && n in c.nodes && i <= |c.updates|
    requires h in HopsToward(c, ec, installed, n, i, a)
    ensures h == Self(c.nodes[n].view) || Leaving(c.nodes[n].view, h)
  {
    hide Ipnhs, Replayed;
    if i == 0 {
      HopShape(c.nodes[n].view, c.nodes[n].rib, a, h);
    } else if c.updates[i - 1].node == n && h in Hops(c.nodes[n], ReplayedTable(c, ec, i - 1, installed[i - 1]), a) {
      HopShape(c.nodes[n].view, ReplayedTable(c, ec, i - 1, installed[i - 1]), a, h);
    } else {
      TowardShape(c, ec, installed, n, i - 1, a, h);
    }
  }

  ghost predicate ClassAt(env: Env, s: seq<ECRange>, ranges: map<EcId, seq<ECRange>>, e: EcId) {
    e in ranges && ranges[e] != [] && Paired(s, ranges[e], e) && env.repOf(e) == Representative(ranges[e])
  }

  ghost predicate FibAt(env: Env, c: Config, installed: seq<nat>, ranges: map<EcId, seq<ECRange>>, e: EcId, n: string)
    requires WellFormed(c) && Counts(c, installed) && n in c.nodes
  {
    e in ranges && ranges[e] != [] && n in env.fibOf(e) &&
    Enumerates(env.fibOf(e)[n], Rebuilt(c, ranges[e], installed)[n])
  }

  // The explorer works on the classes and the FIBs of a configuration with some updates installed:
  // s is the table of ranges, added what was added to it and ranges gives each class its ranges.
  ghost predicate Explores(env: Env, c: Config, installed: seq<nat>, s: seq<ECRange>, added: seq<Request>,
                           ranges: map<EcId, seq<ECRange>>) {
    && env.nodes == c.nodes.Keys && env.emulated == {}
    && WellFormed(c) && Counts(c, installed) && Exactness.Announced(c, added)
    && Exactness.LansAreInside(c) && Linked(env, c)
    && Labelled(s) && Coarsest(s, added)
    && (forall a: Addr :: env.ecOf(a) == LabelAt(s, a))
    && (forall e :: e in env.ecs <==> e != 0 && exists a: Addr :: LabelAt(s, a) == e)
    && (forall e {:trigger ClassAt(env, s, ranges, e)} :: e in env.ecs ==> ClassAt(env, s, ranges, e))
    && (forall e, n {:trigger FibAt(env, c, installed, ranges, e, n)} :: e in env.ecs && n in c.nodes ==>
          FibAt(env, c, installed, ranges, e, n))
  }

  // ---- The explorer's environment after the initial computation ----

  // A set of next hops as a list, in some order.
  ghost function Listing(s: set<Ipnh>): (hops: seq<Ipnh>)
    ensures Enumerates(hops, s)
  {
    if s == {} then [] else
      var h :| h in s;
      [h] + Listing(s - {h})
  }

  // The FIB update_fib builds for a class with the given ranges, each set of next hops as a list.
  ghost function FibOf(c: Config, installed: seq<nat>, own: seq<ECRange>): Fib
    requires WellFormed(c) && Counts(c, installed)
  {
    if own == [] then map[] else map n | n in c.nodes :: Listing(Rebuilt(c, own, installed)[n])
  }

  // What the code outside the classes and FIBs supplies.
  datatype Rest = Rest(payloadOf: (EcId, nat, nat) -> nat, egressAddr: (string, Ipnh) -> Option<Addr>,
                       loopback: string -> Option<Addr>)

  // The classes of the manager's table s and, for each, its representative and its FIB.
  ghost function EnvOf(c: Config, installed: seq<nat>, s: seq<ECRange>,
                       ranges: map<EcId, seq<ECRange>>, rest: Rest): Env
    requires WellFormed(c) && Counts(c, installed)
  {
    Env(c.nodes.Keys, {}, set x | x in s :: x.ec,
        (e: EcId) => FibOf(c, installed, if e in ranges then ranges[e] else []),
        (e: EcId) => if e in ranges && ranges[e] != [] then Representative(ranges[e]) else 0,
        (a: Addr) => LabelAt(s, a),
        rest.payloadOf, rest.egressAddr, rest.loopback)
  }

  lemma ClassHasRange(s: seq<ECRange>, own: seq<ECRange>, e: EcId)
    requires Labelled(s) && Paired(s, own, e)
    ensures own != [] <==> exists x :: x in s && x.ec == e
  {
    if own != [] { assert own[0] in own; }
  }

  lemma ClassHasAddress(s: seq<ECRange>, e: EcId)
    requires Labelled(s)
    ensures (exists x :: x in s && x.ec == e) <==> e != 0 && exists a: Addr :: LabelAt(s, a) == e
  {
    if x :| x in s && x.ec == e {
      LabelOfMember(s, x, x.lb);
    }
    if e != 0 {
      if a: Addr :| LabelAt(s, a) == e {
        var x := LabelSource(s, a);
      }
    }
  }

  // After compute_initial_ecs, whatever invariants add to the classes afterwards and whatever
  // updates are installed, the environment made of the classes and the FIBs built for them is one
  // the explorer can work in.
  lemma InitialEcsExplore(m: EqClassMgr, c: Config, installed: seq<nat>, nodes: seq<NodeSources>,
                          updates: seq<seq<Net>>, mbs: seq<MbSources>, more: seq<Request>, rest: Rest)
    requires m.Valid() && m.Exact() && SourcesValid(nodes, updates, mbs)
    requires m.added == InitialRequests(nodes, updates, mbs) + more
    requires WellFormed(c) && Counts(c, installed) && Exactness.Lists(nodes, updates, c) && Exactness.LansAreInside(c)
    requires Linked(EnvOf(c, installed, m.allranges, m.Own(), rest), c)
    ensures var env := EnvOf(c, installed, m.allranges, m.Own(), rest);
            Explores(env, c, installed, m.allranges, m.added, m.Own()) && Sound(env)
  {
    hide Paired, Coarsest, LabelAt, InitialRequests, Sound, Rebuilt;
    var env, s, ranges := EnvOf(c, installed, m.allranges, m.Own(), rest), m.allranges, m.Own();
    assert [] + m.added == m.added;
    Exactness.InitialEcsAnnounce(c, nodes, updates, mbs, [], more);
    m.OwnPaired();
    forall e: EcId ensures e in env.ecs <==> e != 0 && exists a: Addr :: LabelAt(s, a) == e {
      ClassHasAddress(s, e);
    }
    forall e | e in env.ecs ensures e in ranges && ranges[e] != [] && Paired(s, ranges[e], e) {
      var x :| x in s && x.ec == e;
      ClassHasRange(s, ranges[e], e);
    }
    assert Explores(env, c, installed, s, m.added, ranges);
    ExploredIsSound(env, c, installed, s, m.added, ranges);
  }

  lemma AddressHasClass(env: Env, c: Config, installed: seq<nat>, s: seq<ECRange>, added: seq<Request>,
                        ranges: map<EcId, seq<ECRange>>, n: string, a: Addr)
    requires Explores(env, c, installed, s, added, ranges) && n in c.nodes && a in c.nodes[n].view.addrs
    ensures env.ecOf(a) in env.ecs
  {
    var q := Request(ECRange(a, a, 0), true);
    assert q in added && q.range.Contains(a);
    CoveredIffLabelled(s, added, a);
  }

  lemma HopsAreSound(env: Env, c: Config, installed: seq<nat>, s: seq<ECRange>, added: seq<Request>,
                     ranges: map<EcId, seq<ECRange>>, e: EcId, n: string)
    requires Explores(env, c, installed, s, added, ranges) && e in env.ecs && n in env.nodes
    ensures n in env.fibOf(e) && HopsSound(env, e, n)
  {
    hide Coarsest, Labelled, Paired, WellFormed, Exactness.Announced,
      Exactness.LansAreInside, Hops, HopsUpTo, HopsToward;
    assert FibAt(env, c, installed, ranges, e, n);
    var v, hops, rep := c.nodes[n].view, env.fibOf(e)[n], Representative(ranges[e]);
    RepresentativeToward(c, ranges[e], installed, n, |c.updates|);
    forall h | h in hops
      ensures h.l3Node in env.nodes && (h.l2Intf.None? ==> h == Ipnh(n, None, n, None))
      ensures h.l2Intf.Some? ==> env.egressAddr(n, h).Some? && env.ecOf(env.egressAddr(n, h).value) in env.ecs
    {
      TowardShape(c, ranges[e], installed, n, |c.updates|, rep, h);
      if h != Self(v) {
        AddressHasClass(env, c, installed, s, added, ranges, n, env.egressAddr(n, h).value);
        var x :| x in v.far && EndsAt(v.far[x], h);
        assert FarInside(v.far[x], c.nodes.Keys);
      }
    }
  }

  lemma RepresentativeInClass(env: Env, c: Config, installed: seq<nat>, s: seq<ECRange>, added: seq<Request>,
                              ranges: map<EcId, seq<ECRange>>, e: EcId)
    requires Explores(env, c, installed, s, added, ranges) && e in env.ecs
    ensures env.ecOf(env.repOf(e)) == e
  {
    hide Coarsest, WellFormed, Exactness.Announced, Exactness.LansAreInside, Linked;
    assert ClassAt(env, s, ranges, e) && ranges[e][0] in ranges[e];
    Exactness.OwnLabel(s, ranges[e], e, ranges[e][0]);
  }

  // What the explorer assumes of the network holds for every configuration whose networks and
  // interface addresses were added to the classes.
  lemma ExploredIsSound(env: Env, c: Config, installed: seq<nat>, s: seq<ECRange>, added: seq<Request>,
                        ranges: map<EcId, seq<ECRange>>)
    requires Explores(env, c, installed, s, added, ranges)
    ensures Sound(env)
  {
    hide HopsSound, Coarsest, Labelled, Paired, WellFormed, Exactness.Announced, Exactness.LansAreInside;
    forall e, n | e in env.ecs && n in env.nodes ensures n in env.fibOf(e) && HopsSound(env, e, n) {
      HopsAreSound(env, c, installed, s, added, ranges, e, n);
    }
    forall e | e in env.ecs ensures env.ecOf(env.repOf(e)) == e {
      RepresentativeInClass(env, c, installed, s, added, ranges, e);
    }
    forall n | n in env.nodes ensures env.loopback(n).Some? && env.ecOf(env.loopback(n).value) in env.ecs {
      AddressHasClass(env, c, installed, s, added, ranges, n, env.loopback(n).value);
    }
  }

  lemma MovesToHop(env: Env, c: Config, installed: seq<nat>, s: seq<ECRange>, added: seq<Request>,
                   ranges: map<EcId, seq<ECRange>>, conn: Conn, choice: nat)
    requires Explores(env, c, installed, s, added, ranges)
    requires Inv(env, conn) && conn.executable == 2 && Forwards(conn, choice)
    ensures Step(env, conn, choice, ChoiceCount(conn)).Some?
    ensures var next, hop := Step(env, conn, choice, ChoiceCount(conn)).value.c, HopTaken(conn, choice);
            && next.loc == hop.l3Node && next.dstEc == conn.dstEc
            && (next.mode == Accepted <==> hop.l3Node == conn.loc)
  {
    hide Explores, Sound, Inv;
    ExploredIsSound(env, c, installed, s, added, ranges);
    StepSafe(env, conn, choice);
  }

  // In every forwarding step the hop taken toward a class is a next hop, at that node and with the
  // updates installed, of every single address of the class, and every such next hop is on offer
  // until a choice was made. The
  // packet moves to the hop's node and is accepted exactly when that is where it is.
  lemma ForwardingIsExact(env: Env, c: Config, installed: seq<nat>, s: seq<ECRange>, added: seq<Request>,
                          ranges: map<EcId, seq<ECRange>>, conn: Conn, choice: nat, a: Addr)
    requires Explores(env, c, installed, s, added, ranges) && LabelAt(s, a) == conn.dstEc
    requires Inv(env, conn) && conn.executable == 2 && Forwards(conn, choice)
    ensures conn.dstEc in ranges && conn.loc in c.nodes
    ensures var hops := HopsToward(c, ranges[conn.dstEc], installed, conn.loc, |c.updates|, a);
            && HopTaken(conn, choice) in hops
            && ((conn.dstEc, conn.loc) !in conn.choices ==> Enumerates(conn.candidates.value, hops))
    ensures Step(env, conn, choice, ChoiceCount(conn)).Some?
    ensures var next, hop := Step(env, conn, choice, ChoiceCount(conn)).value.c, HopTaken(conn, choice);
            && next.loc == hop.l3Node && next.dstEc == conn.dstEc
            && (next.mode == Accepted <==> hop.l3Node == conn.loc)
  {
    MovesToHop(env, c, installed, s, added, ranges, conn, choice);
    hide Sound, Step, Inv, CandidatesSound;
    hide Coarsest, Labelled, Paired, WellFormed, Linked, HopsUpTo, HopsToward, Exactness.Announced,
      Exactness.LansAreInside;
    var e, n := conn.dstEc, conn.loc;
    assert ClassAt(env, s, ranges, e);
    RebuiltIsExact(c, s, added, ranges[e], e, a, installed, n, |c.updates|);
    assert FibAt(env, c, installed, ranges, e, n);
    CandidatesAreHops(env, conn);
    assert HopTaken(conn, choice) in conn.candidates.value;
  }
}
