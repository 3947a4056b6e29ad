/** When a patched FIB is the rebuilt one (src/process/openflow.cpp:64-93, 137-194). */
module FibUpdates {
  import opened Addressing
  import opened EcRanges
  import opened Dataplane
  import opened NextHops
  import opened Options
  import opened Routing

  // ---- What a table says about an address, whatever the node is connected to ----

  // A connected route's interface and the address that was looked up when the route was found.
  datatype Exit = Exit(intf: string, ip: Addr)

  ghost function Exits(rib: seq<Route>, dst: Addr): set<Exit> {
    set y, r | y in Mentioned(rib) + {dst} && r in Lookup(rib, y) && r.Connected() && Reaches(rib, dst, y) ::
      Exit(r.intf, y)
  }

  ghost predicate IsExit(rib: seq<Route>, dst: Addr, x: Exit) {
    Reaches(rib, dst, x.ip) && exists r :: r in Lookup(rib, x.ip) && r.Connected() && r.intf == x.intf
  }

  lemma ExitsAre(rib: seq<Route>, dst: Addr, x: Exit)
    ensures x in Exits(rib, dst) <==> IsExit(rib, dst, x)
  {
    if IsExit(rib, dst, x) {
      var n: nat :| ReachesIn(rib, dst, x.ip, n);
      ReachedIsMentioned(rib, dst, x.ip, n);
    }
  }

  // The hops an exit gives at a node.
  function HopsAt(v: NodeView, x: Exit): set<Ipnh> {
    if x.ip in v.addrs then {Self(v)}
    else match Ipnh1(v, x.intf, x.ip)
      case Some(h) => {h}
      case None => {}
  }

  lemma {:induction false} ContributionsAre(v: NodeView, rs: seq<Route>, ip: Addr, h: Ipnh)
    ensures h in Contributions(v, rs, ip) <==>
            exists r :: r in rs && r.Connected() && h in HopsAt(v, Exit(r.intf, ip))
  {
    if rs != [] {
      ContributionsAre(v, rs[1..], ip, h);
      assert rs == [rs[0]] + rs[1..];
    }
  }

  // A node's next hops are the hops of the table's exits.
  lemma HopsOfExits(v: NodeView, rib: seq<Route>, dst: Addr, h: Ipnh)
    ensures h in Ipnhs(v, rib, dst) <==> exists x :: x in Exits(rib, dst) && h in HopsAt(v, x)
  {
    hide Ipnhs, Exits, Local, HopsAt, Reaches, IsNextHop, IsExit;
    IpnhsAreNextHops(v, rib, dst);
    if h in Ipnhs(v, rib, dst) { HopHasExit(v, rib, dst, h); }
    if x :| x in Exits(rib, dst) && h in HopsAt(v, x) { ExitGivesHop(v, rib, dst, h, x); }
  }

  lemma HopHasExit(v: NodeView, rib: seq<Route>, dst: Addr, h: Ipnh)
    requires IsNextHop(v, rib, dst, h)
    ensures exists x :: x in Exits(rib, dst) && h in HopsAt(v, x)
  {
    hide Exits, HopsAt, Reaches, Lookup;
    var y: Addr :| Reaches(rib, dst, y) && h in Local(v, rib, y);
    ContributionsAre(v, Lookup(rib, y), y, h);
    var r :| r in Lookup(rib, y) && r.Connected() && h in HopsAt(v, Exit(r.intf, y));
    ExitsAre(rib, dst, Exit(r.intf, y));
  }

  lemma ExitGivesHop(v: NodeView, rib: seq<Route>, dst: Addr, h: Ipnh, x: Exit)
    requires x in Exits(rib, dst) && h in HopsAt(v, x)
    ensures IsNextHop(v, rib, dst, h)
  {
    hide Exits, HopsAt, Reaches, Lookup;
    ExitsAre(rib, dst, x);
    ContributionsAre(v, Lookup(rib, x.ip), x.ip, h);
    assert h in Local(v, rib, x.ip);
  }

  lemma SameExitsSameHops(v: NodeView, t: seq<Route>, t': seq<Route>, dst: Addr)
    requires Exits(t, dst) == Exits(t', dst)
    ensures Ipnhs(v, t, dst) == Ipnhs(v, t', dst)
  {
    hide Ipnhs, Exits, HopsAt;
    forall h ensures h in Ipnhs(v, t, dst) <==> h in Ipnhs(v, t', dst) {
      HopsOfExits(v, t, dst, h);
      HopsOfExits(v, t', dst, h);
    }
  }

  // ---- A node connected at two exits only ----

  const BEHIND_X := Interface("x", "x", false, 0, 0)
  const BEHIND_Z := Interface("z", "z", false, 0, 0)
  const SWITCH := Interface("s", "s", true, 0, 0)

  function HopOf(i: Interface): Ipnh { Ipnh(i.node, Some(i), SWITCH.node, Some(SWITCH)) }

  function ConnectedAt(x: Exit, z: Exit): NodeView {
    if x.intf == z.intf then
      NodeView("n", {}, map[x.intf := L2Peer(SWITCH, map[z.ip := BEHIND_Z, x.ip := BEHIND_X])])
    else
      NodeView("n", {}, map[x.intf := L2Peer(SWITCH, map[x.ip := BEHIND_X]),
                            z.intf := L2Peer(SWITCH, map[z.ip := BEHIND_Z])])
  }

  lemma HopsThere(x: Exit, z: Exit, y: Exit)
    ensures HopsAt(ConnectedAt(x, z), y) ==
            if y == x then {HopOf(BEHIND_X)} else if y == z then {HopOf(BEHIND_Z)} else {}
    ensures HopOf(BEHIND_X) != HopOf(BEHIND_Z)
  {
  }

  lemma TableThere(x: Exit, z: Exit, t: seq<Route>, dst: Addr)
    ensures HopOf(BEHIND_X) in Ipnhs(ConnectedAt(x, z), t, dst) <==> x in Exits(t, dst)
    ensures x != z ==> (HopOf(BEHIND_Z) in Ipnhs(ConnectedAt(x, z), t, dst) <==> z in Exits(t, dst))
    ensures x !in Exits(t, dst) && z !in Exits(t, dst) ==> Ipnhs(ConnectedAt(x, z), t, dst) == {}
  {
    hide Ipnhs, Exits, HopsAt, ConnectedAt, HopOf;
    var v := ConnectedAt(x, z);
    HopsOfExits(v, t, dst, HopOf(BEHIND_X));
    HopsOfExits(v, t, dst, HopOf(BEHIND_Z));
    forall y ensures HopsAt(v, y) == if y == x then {HopOf(BEHIND_X)} else if y == z then {HopOf(BEHIND_Z)} else {} {
      HopsThere(x, z, y);
    }
    HopsThere(x, z, x);
    forall h | h in Ipnhs(v, t, dst) ensures x in Exits(t, dst) || z in Exits(t, dst) {
      HopsOfExits(v, t, dst, h);
    }
  }

  // Two tables give every node the same next hops exactly when they have the same exits.
  lemma HopsDependOnExits(t: seq<Route>, t': seq<Route>, dst: Addr)
    ensures Exits(t, dst) == Exits(t', dst) <==> forall v: NodeView :: Ipnhs(v, t, dst) == Ipnhs(v, t', dst)
  {
    hide Ipnhs, Exits, ConnectedAt, HopOf;
    if Exits(t, dst) == Exits(t', dst) {
      forall v: NodeView ensures Ipnhs(v, t, dst) == Ipnhs(v, t', dst) {
        SameExitsSameHops(v, t, t', dst);
      }
    } else {
      var x :| !(x in Exits(t, dst) <==> x in Exits(t', dst));
      TableThere(x, x, t, dst);
      TableThere(x, x, t', dst);
    }
  }

  // ---- The exact condition for a patched FIB ----

  // The next hops by table t1 are those by table t2, or those by t0 where t2 gives none.
  ghost predicate FallsBack(v: NodeView, t1: seq<Route>, t2: seq<Route>, t0: seq<Route>, dst: Addr) {
    Ipnhs(v, t1, dst) == if Ipnhs(v, t2, dst) != {} then Ipnhs(v, t2, dst) else Ipnhs(v, t0, dst)
  }

  ghost predicate AlwaysFallsBack(e1: set<Exit>, e2: set<Exit>, e0: set<Exit>) {
    (e1 == e2 && e0 <= e1) || (e2 == {} && e1 == e0)
  }

  lemma FallsBackAlways(v: NodeView, t1: seq<Route>, t2: seq<Route>, t0: seq<Route>, dst: Addr)
    requires AlwaysFallsBack(Exits(t1, dst), Exits(t2, dst), Exits(t0, dst))
    ensures FallsBack(v, t1, t2, t0, dst)
  {
    hide Ipnhs, Exits, HopsAt;
    if Exits(t1, dst) == Exits(t2, dst) {
      SameExitsSameHops(v, t1, t2, dst);
      forall h | h in Ipnhs(v, t0, dst) && Exits(t0, dst) <= Exits(t1, dst) ensures h in Ipnhs(v, t1, dst) {
        HopsOfExits(v, t0, dst, h);
        HopsOfExits(v, t1, dst, h);
      }
    } else {
      SameExitsSameHops(v, t1, t0, dst);
      forall h ensures h !in Ipnhs(v, t2, dst) {
        HopsOfExits(v, t2, dst, h);
      }
    }
    assert Exits(t2, dst) == {} ==> Ipnhs(v, t2, dst) == {} by {
      forall h | Exits(t2, dst) == {} ensures h !in Ipnhs(v, t2, dst) { HopsOfExits(v, t2, dst, h); }
    }
  }

  // Some node shows that the condition is needed.
  lemma FailsSomewhere(t1: seq<Route>, t2: seq<Route>, t0: seq<Route>, dst: Addr) returns (v: NodeView)
    requires !AlwaysFallsBack(Exits(t1, dst), Exits(t2, dst), Exits(t0, dst))
    ensures !FallsBack(v, t1, t2, t0, dst)
  {
    hide Ipnhs, Exits, ConnectedAt, HopOf;
    var e1, e2, e0 := Exits(t1, dst), Exits(t2, dst), Exits(t0, dst);
    var x, z := Telling(e1, e2, e0);
    v := ConnectedAt(x, z);
    TableThere(x, z, t1, dst);
    TableThere(x, z, t2, dst);
    TableThere(x, z, t0, dst);
  }

  // The exits at which to connect that node.
  lemma Telling(e1: set<Exit>, e2: set<Exit>, e0: set<Exit>) returns (x: Exit, z: Exit)
    requires !AlwaysFallsBack(e1, e2, e0)
    ensures (x in e2 && x !in e1) ||
            (x in e1 && x !in e2 && z in e2) ||
            (x == z && x in e1 && x !in e2 && x !in e0) ||
            (x == z && x !in e1 && x !in e2 && x in e0)
  {
    if y :| y in e2 && y !in e1 {
      return y, y;
    }
    assert e2 <= e1;
    if e1 == e2 {
      x :| x in e0 && x !in e1;
      return x, x;
    }
    assert exists y :: y in e1 && y !in e2;
    if z' :| z' in e2 {
      x :| x in e1 && x !in e2;
      return x, z';
    }
    assert e2 == {} && e1 != e0;
    if y :| y in e1 && y !in e0 {
      return y, y;
    }
    assert e1 <= e0;
    x :| x in e0 && x !in e1;
    return x, x;
  }

  // The configuration with one node connected differently.
  function Rewired(c: Config, n: string, v: NodeView): Config
    requires n in c.nodes
  {
    c.(nodes := c.nodes[n := c.nodes[n].(view := v)])
  }

  lemma PatchFallsBack(c: Config, ec: seq<ECRange>, installed: seq<nat>, i: nat)
    requires WellFormed(c) && Counts(c, installed) && ec != [] && i < |c.updates|
    requires installed[i] < |c.updates[i].routes| && !c.nodes[c.updates[i].node].emulated
    ensures var e, k := c.nodes[c.updates[i].node], installed[i];
            PatchIsExact(c, ec, installed, i) <==>
            FallsBack(e.view, PatchedTable(c, ec, i, k), ReplayedTable(c, ec, i, k + 1), e.rib, Representative(ec))
  {
    hide Ipnhs, Replayed, Updated, Reinserted;
    PatchIsLocal(c, ec, installed, i);
  }

  lemma RewiredIsWellFormed(c: Config, n: string, v: NodeView, installed: seq<nat>)
    requires WellFormed(c) && Counts(c, installed) && n in c.nodes
    ensures WellFormed(Rewired(c, n, v)) && Counts(Rewired(c, n, v), installed)
  {
    hide Sorted;
  }

  // The exact condition, for every update: wherever the node is connected, the patched FIB is the
  // rebuilt one if and only if the patched and the replayed table have the same exits, among them
  // those of the node's own table; or the replayed table has none and the patched one those of the
  // node's own.
  lemma PatchIsAlwaysExact(c: Config, ec: seq<ECRange>, installed: seq<nat>, i: nat)
    requires WellFormed(c) && Counts(c, installed) && ec != [] && i < |c.updates|
    requires installed[i] < |c.updates[i].routes| && !c.nodes[c.updates[i].node].emulated
    ensures var n, k, rep := c.updates[i].node, installed[i], Representative(ec);
            (forall v: NodeView ::
               WellFormed(Rewired(c, n, v)) && Counts(Rewired(c, n, v), installed) &&
               PatchIsExact(Rewired(c, n, v), ec, installed, i)) <==>
            AlwaysFallsBack(Exits(PatchedTable(c, ec, i, k), rep), Exits(ReplayedTable(c, ec, i, k + 1), rep),
                            Exits(c.nodes[n].rib, rep))
  {
    hide WellFormed, PatchIsExact, FallsBack, AlwaysFallsBack, Exits, Replayed, Updated, Reinserted;
    var n, k, rep := c.updates[i].node, installed[i], Representative(ec);
    NodeIsThere(c, i);
    var t1, t2, t0 := PatchedTable(c, ec, i, k), ReplayedTable(c, ec, i, k + 1), c.nodes[n].rib;
    forall v: NodeView
      ensures WellFormed(Rewired(c, n, v)) && Counts(Rewired(c, n, v), installed)
      ensures PatchIsExact(Rewired(c, n, v), ec, installed, i) <==> FallsBack(v, t1, t2, t0, rep)
    {
      RewiredIsWellFormed(c, n, v, installed);
      PatchFallsBack(Rewired(c, n, v), ec, installed, i);
    }
    if AlwaysFallsBack(Exits(t1, rep), Exits(t2, rep), Exits(t0, rep)) {
      forall v: NodeView ensures FallsBack(v, t1, t2, t0, rep) {
        FallsBackAlways(v, t1, t2, t0, rep);
      }
    } else {
      var v := FailsSomewhere(t1, t2, t0, rep);
      assert !PatchIsExact(Rewired(c, n, v), ec, installed, i);
    }
  }

  lemma NodeIsThere(c: Config, i: nat)
    requires WellFormed(c) && i < |c.updates|
    ensures c.updates[i].node in c.nodes && Sorted(c.nodes[c.updates[i].node].rib)
  {
  }

  // ---- The FIBs of other connections ----

  // What is due by table t where the node's own table is t0.
  ghost function DueBy(v: NodeView, t: seq<Route>, t0: seq<Route>, dst: Addr): set<Ipnh> {
    if Ipnhs(v, t, dst) != {} then Ipnhs(v, t, dst) else Ipnhs(v, t0, dst)
  }

  ghost predicate AlwaysDueAlike(e1: set<Exit>, e2: set<Exit>, e0: set<Exit>) {
    e1 == e2 || (e1 == {} && e2 == e0) || (e2 == {} && e1 == e0)
  }

  lemma NoExitsNoHops(v: NodeView, t: seq<Route>, dst: Addr)
    requires Exits(t, dst) == {}
    ensures Ipnhs(v, t, dst) == {}
  {
    hide Ipnhs, Exits, HopsAt;
    forall h ensures h !in Ipnhs(v, t, dst) { HopsOfExits(v, t, dst, h); }
  }

  lemma DueAlike(v: NodeView, t1: seq<Route>, t2: seq<Route>, t0: seq<Route>, dst: Addr)
    requires AlwaysDueAlike(Exits(t1, dst), Exits(t2, dst), Exits(t0, dst))
    ensures DueBy(v, t1, t0, dst) == DueBy(v, t2, t0, dst)
  {
    hide Ipnhs, Exits;
    if Exits(t1, dst) == Exits(t2, dst) {
      SameExitsSameHops(v, t1, t2, dst);
    } else if Exits(t1, dst) == {} {
      NoExitsNoHops(v, t1, dst);
      SameExitsSameHops(v, t2, t0, dst);
    } else {
      NoExitsNoHops(v, t2, dst);
      SameExitsSameHops(v, t1, t0, dst);
    }
  }

  // Some node shows that the condition is needed.
  lemma DueUnlikeSomewhere(t1: seq<Route>, t2: seq<Route>, t0: seq<Route>, dst: Addr) returns (v: NodeView)
    requires !AlwaysDueAlike(Exits(t1, dst), Exits(t2, dst), Exits(t0, dst))
    ensures DueBy(v, t1, t0, dst) != DueBy(v, t2, t0, dst)
  {
    hide Ipnhs, Exits, ConnectedAt, HopOf;
    var x, z := TellingDue(Exits(t1, dst), Exits(t2, dst), Exits(t0, dst));
    v := ConnectedAt(x, z);
    TableThere(x, z, t1, dst);
    TableThere(x, z, t2, dst);
    TableThere(x, z, t0, dst);
  }

  // The exits at which to connect that node: x is due by one table only.
  lemma TellingDue(e1: set<Exit>, e2: set<Exit>, e0: set<Exit>) returns (x: Exit, z: Exit)
    requires !AlwaysDueAlike(e1, e2, e0)
    ensures Tells(e1, e2, e0, x, z) || Tells(e2, e1, e0, x, z)
  {
    if y :| y in e1 && y !in e2 {
      x, z := TellingOne(e1, e2, e0, y);
    } else {
      assert exists y :: y in e2 && y !in e1;
      var y :| y in e2 && y !in e1;
      x, z := TellingOne(e2, e1, e0, y);
    }
  }

  predicate Tells(e1: set<Exit>, e2: set<Exit>, e0: set<Exit>, x: Exit, z: Exit) {
    || (x in e1 && x !in e2 && z in e2)
    || (e2 == {} && x == z && x in e1 && x !in e0)
    || (e2 == {} && x in e0 && x !in e1 && z in e1)
  }

  lemma TellingOne(e1: set<Exit>, e2: set<Exit>, e0: set<Exit>, y: Exit) returns (x: Exit, z: Exit)
    requires y in e1 && y !in e2 && !(e2 == {} && e1 == e0)
    ensures Tells(e1, e2, e0, x, z)
  {
    if z' :| z' in e2 {
      return y, z';
    }
    assert e2 == {} && e1 != e0;
    if w :| w in e1 && w !in e0 {
      return w, w;
    }
    assert e1 <= e0;
    x :| x in e0 && x !in e1;
    return x, y;
  }

  // The exact condition for the FIB of another class, for every update: wherever the node is
  // connected, it stays up to date if and only if the replayed tables before and after the update
  // have the same exits, or one has none and the other those of the node's own table.
  lemma OthersAlwaysStayExact(c: Config, ec: seq<ECRange>, installed: seq<nat>, i: nat)
    requires WellFormed(c) && Counts(c, installed) && ec != [] && i < |c.updates|
    requires installed[i] < |c.updates[i].routes| && !c.nodes[c.updates[i].node].emulated
    ensures var n, k, rep := c.updates[i].node, installed[i], Representative(ec);
            (forall v: NodeView ::
               WellFormed(Rewired(c, n, v)) && Counts(Rewired(c, n, v), installed) &&
               StaysExact(Rewired(c, n, v), ec, installed, i)) <==>
            AlwaysDueAlike(Exits(ReplayedTable(c, ec, i, k), rep), Exits(ReplayedTable(c, ec, i, k + 1), rep),
                           Exits(c.nodes[n].rib, rep))
  {
    hide WellFormed, StaysExact, DueBy, AlwaysDueAlike, Exits, Replayed, Updated;
    var n, k, rep := c.updates[i].node, installed[i], Representative(ec);
    NodeIsThere(c, i);
    var t1, t2, t0 := ReplayedTable(c, ec, i, k), ReplayedTable(c, ec, i, k + 1), c.nodes[n].rib;
    forall v: NodeView
      ensures WellFormed(Rewired(c, n, v)) && Counts(Rewired(c, n, v), installed)
      ensures StaysExact(Rewired(c, n, v), ec, installed, i) <==> DueBy(v, t1, t0, rep) == DueBy(v, t2, t0, rep)
    {
      RewiredIsWellFormed(c, n, v, installed);
      StaysDue(Rewired(c, n, v), ec, installed, i);
    }
    if AlwaysDueAlike(Exits(t1, rep), Exits(t2, rep), Exits(t0, rep)) {
      forall v: NodeView ensures DueBy(v, t1, t0, rep) == DueBy(v, t2, t0, rep) {
        DueAlike(v, t1, t2, t0, rep);
      }
    } else {
      var v := DueUnlikeSomewhere(t1, t2, t0, rep);
      assert !StaysExact(Rewired(c, n, v), ec, installed, i);
    }
  }

  lemma StaysDue(c: Config, ec: seq<ECRange>, installed: seq<nat>, i: nat)
    requires WellFormed(c) && Counts(c, installed) && ec != [] && i < |c.updates|
    requires installed[i] < |c.updates[i].routes| && !c.nodes[c.updates[i].node].emulated
    ensures var e, k, rep := c.nodes[c.updates[i].node], installed[i], Representative(ec);
            StaysExact(c, ec, installed, i) <==>
            DueBy(e.view, ReplayedTable(c, ec, i, k), e.rib, rep) ==
            DueBy(e.view, ReplayedTable(c, ec, i, k + 1), e.rib, rep)
  {
    hide Ipnhs, Replayed, Updated;
    OthersAreLocal(c, ec, installed, i);
  }

  // ---- Conditions to check before an update ----

  // The route does not decide the lookup of y: it does not contain y, or the table has a longer
  // network that does.
  predicate Misses(t: seq<Route>, u: Route, y: Addr) {
    !u.network.Contains(y) || exists o :: o in t && o.network.prefix > u.network.prefix && o.network.Contains(y)
  }

  // The route decides no lookup met when dst is resolved.
  ghost predicate Untouched(t: seq<Route>, u: Route, dst: Addr) {
    forall y: Addr {:trigger Reaches(t, dst, y)} :: Reaches(t, dst, y) ==> Misses(t, u, y)
  }

  lemma UpdatedMembers(t: seq<Route>, u: Route, r: Route)
    requires Sorted(t)
    ensures r in Updated(t, u) <==> r == u || (r in t && r.network != u.network)
  {
    hide LowerBound, UpperBound, Sorted;
    EqualRange(t, u);
    var lo, hi := LowerBound(t, u), UpperBound(t, u);
    assert t == t[..lo] + t[lo..hi] + t[hi..];
    if r in t[lo..hi] {
      var i :| lo <= i < hi && t[i] == r;
    }
    if r in t[..lo] {
      var i :| 0 <= i < lo && t[i] == r;
    }
    if r in t[hi..] {
      var i :| hi <= i < |t| && t[i] == r;
    }
  }

  lemma MissedLookup(t: seq<Route>, u: Route, y: Addr, r: Route)
    requires Sorted(t) && NetworksValid(t) && u.network.Valid() && Misses(t, u, y)
    ensures r in Lookup(Updated(t, u), y) <==> r in Lookup(t, y)
  {
    hide Lookup, Updated, Sorted;
    InsertKeepsSorted(t, u);
    forall o ensures o in Updated(t, u) <==> o == u || (o in t && o.network != u.network) {
      UpdatedMembers(t, u, o);
    }
    LookupIsLongestMatch(t, y);
    LookupIsLongestMatch(Updated(t, u), y);
  }

  lemma SameLeads(t: seq<Route>, u: Route, x: Addr, z: Addr)
    requires Sorted(t) && NetworksValid(t) && u.network.Valid() && Misses(t, u, x)
    ensures Leads(Updated(t, u), x, z) <==> Leads(t, x, z)
  {
    hide Lookup, Updated, Misses, Sorted, NetworksValid;
    forall r ensures r in Lookup(Updated(t, u), x) <==> r in Lookup(t, x) { MissedLookup(t, u, x, r); }
  }

  lemma {:induction false} SameReach(t: seq<Route>, u: Route, dst: Addr, x: Addr, y: Addr, n: nat)
    requires Sorted(t) && NetworksValid(t) && u.network.Valid() && Untouched(t, u, dst) && Reaches(t, dst, x)
    requires ReachesIn(Updated(t, u), x, y, n) || ReachesIn(t, x, y, n)
    ensures Reaches(t, dst, y)
    ensures ReachesIn(Updated(t, u), x, y, n) && ReachesIn(t, x, y, n)
    decreases n
  {
    hide Lookup, Updated, Misses;
    if n > 0 {
      UntouchedAt(t, u, dst, x);
      var z: Addr :| (Leads(Updated(t, u), x, z) && ReachesIn(Updated(t, u), z, y, n - 1)) ||
                     (Leads(t, x, z) && ReachesIn(t, z, y, n - 1));
      SameLeads(t, u, x, z);
      var k: nat :| ReachesIn(t, dst, x, k);
      ReachesThen(t, dst, x, z, k);
      SameReach(t, u, dst, z, y, n - 1);
    }
  }

  // An update that decides no met lookup leaves the exits as they are.
  lemma UntouchedExits(t: seq<Route>, u: Route, dst: Addr)
    requires Sorted(t) && NetworksValid(t) && u.network.Valid() && Untouched(t, u, dst)
    ensures Exits(Updated(t, u), dst) == Exits(t, dst)
  {
    hide Exits, Lookup, Updated, Misses, Untouched;
    assert ReachesIn(t, dst, dst, 0);
    forall x ensures x in Exits(Updated(t, u), dst) <==> x in Exits(t, dst) {
      ExitsAre(Updated(t, u), dst, x);
      ExitsAre(t, dst, x);
      if n: nat :| ReachesIn(Updated(t, u), dst, x.ip, n) || ReachesIn(t, dst, x.ip, n) {
        SameReach(t, u, dst, dst, x.ip, n);
        UntouchedAt(t, u, dst, x.ip);
        forall r ensures r in Lookup(Updated(t, u), x.ip) <==> r in Lookup(t, x.ip) { MissedLookup(t, u, x.ip, r); }
      }
    }
  }

  lemma UntouchedAt(t: seq<Route>, u: Route, dst: Addr, y: Addr)
    requires Untouched(t, u, dst) && Reaches(t, dst, y)
    ensures Misses(t, u, y)
  {
  }

  // A caller's check. If replaying the earlier updates by insert gives what update gives, and the
  // update is relevant to the class or decides no lookup met from the representative, then the
  // patched FIB is the rebuilt one if and only if the node still has a next hop, or has none
  // without updates either.
  lemma PatchedIsRebuilt(c: Config, ec: seq<ECRange>, installed: seq<nat>, i: nat)
    requires WellFormed(c) && Counts(c, installed) && ec != [] && i < |c.updates|
    requires installed[i] < |c.updates[i].routes|
    requires SameReplay(c.nodes[c.updates[i].node].rib, c.updates[i].routes, installed[i], ec)
    requires var u, t := c.updates[i].routes[installed[i]], ReplayedTable(c, ec, i, installed[i]);
             Relevant(u.network, ec) ||
             (NetworksValid(t) && u.network.Valid() && Untouched(t, u, Representative(ec)))
    ensures PatchIsExact(c, ec, installed, i) <==>
            Patched(c, ec, i, installed[i]) != {} || Base(c, ec, c.updates[i].node) == {}
  {
    hide Ipnhs, Exits, Updated, Reinserted, Untouched, NetworksValid;
    var u, t := c.updates[i].routes[installed[i]], ReplayedTable(c, ec, i, installed[i]);
    PatchIsLocal(c, ec, installed, i);
    if !Relevant(u.network, ec) {
      UntouchedExits(t, u, Representative(ec));
      SameExitsSameHops(c.nodes[c.updates[i].node].view, Updated(t, u), t, Representative(ec));
    }
  }

  // A caller's check: the update is not relevant to the other class, or decides no lookup met from
  // its representative.
  lemma OtherStaysExact(c: Config, ec: seq<ECRange>, installed: seq<nat>, i: nat)
    requires WellFormed(c) && Counts(c, installed) && ec != [] && i < |c.updates|
    requires installed[i] < |c.updates[i].routes|
    requires var u, t := c.updates[i].routes[installed[i]], ReplayedTable(c, ec, i, installed[i]);
             !Relevant(u.network, ec) || (NetworksValid(t) && u.network.Valid() && Untouched(t, u, Representative(ec)))
    ensures StaysExact(c, ec, installed, i)
  {
    hide Ipnhs, Exits, Updated, Untouched, NetworksValid, StaysExact;
    var u, t := c.updates[i].routes[installed[i]], ReplayedTable(c, ec, i, installed[i]);
    OthersAreLocal(c, ec, installed, i);
    if Relevant(u.network, ec) {
      UntouchedExits(t, u, Representative(ec));
      SameExitsSameHops(c.nodes[c.updates[i].node].view, Updated(t, u), t, Representative(ec));
    }
  }

  // ---- Tables with one way to go ----

  // A connected route is the end of a lookup.
  lemma DirectExit(t: seq<Route>, dst: Addr, r: Route)
    requires Lookup(t, dst) == [r] && r.Connected()
    ensures Exits(t, dst) == {Exit(r.intf, dst)}
  {
    hide Exits, Lookup;
    assert r in Lookup(t, dst) && ReachesIn(t, dst, dst, 0);
    forall x ensures x in Exits(t, dst) <==> x == Exit(r.intf, dst) {
      ExitsAre(t, dst, x);
      if n: nat :| ReachesIn(t, dst, x.ip, n) { ClosedContainsReached(t, {dst}, dst, x.ip, n); }
    }
  }

  // A next-hop route passes the lookup on.
  lemma RecursiveExit(t: seq<Route>, dst: Addr, r: Route, end: Route)
    requires Lookup(t, dst) == [r] && !r.Connected() && Lookup(t, r.nextHop) == [end] && end.Connected()
    ensures Exits(t, dst) == {Exit(end.intf, r.nextHop)}
  {
    hide Exits, Lookup;
    var via := r.nextHop;
    assert r in Lookup(t, dst) && end in Lookup(t, via);
    assert ReachesIn(t, via, via, 0) && Leads(t, dst, via);
    assert ReachesIn(t, dst, via, 1);
    forall x ensures x in Exits(t, dst) <==> x == Exit(end.intf, via) {
      ExitsAre(t, dst, x);
      if n: nat :| ReachesIn(t, dst, x.ip, n) { ClosedContainsReached(t, {dst, via}, dst, x.ip, n); }
    }
  }

  lemma OneExit(v: NodeView, t: seq<Route>, dst: Addr, x: Exit)
    requires Exits(t, dst) == {x}
    ensures Ipnhs(v, t, dst) == HopsAt(v, x)
  {
    hide Ipnhs, Exits, HopsAt;
    forall h ensures h in Ipnhs(v, t, dst) <==> h in HopsAt(v, x) {
      HopsOfExits(v, t, dst, h);
    }
  }
}
