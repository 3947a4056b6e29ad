/** The FIB of a destination class and Openflow updates to it
    (src/model-access.cpp:308-324, src/process/openflow.cpp, src/route.cpp:50-72). */
module Dataplane {
  import opened Addressing
  import opened Routing
  import opened EcRanges
  import opened NextHops

  datatype NodeEntry = NodeEntry(view: NodeView, rib: seq<Route>, emulated: bool)

  // The updates of one node, in installation order.
  datatype NodeUpdates = NodeUpdates(node: string, routes: seq<Route>)

  // IPNetwork::contains(IPRange)
  predicate Holds(n: Net, x: ECRange) {
    n.addr <= x.lb && x.ub <= n.Last()
  }

  // The flag Route::relevant_to_ec computes from the first range of the class.
  predicate Relevant(n: Net, ec: seq<ECRange>) {
    ec != [] && Holds(n, ec[0])
  }

  // The network holds some ranges of the class and not others: "Route splits an EC".
  predicate Splits(n: Net, ec: seq<ECRange>) {
    exists x :: x in ec && Holds(n, x) != Relevant(n, ec)
  }

  method RelevantToEc(r: Route, ec: seq<ECRange>) returns (relevant: bool, error: bool)
    ensures relevant == Relevant(r.network, ec)
    ensures error <==> Splits(r.network, ec)
  {
    relevant, error := false, false;
    var hasBeenSet, i := false, 0;
    while i < |ec| && !error
      invariant i <= |ec| && (hasBeenSet <==> i > 0)
      invariant i > 0 ==> relevant == Relevant(r.network, ec)
      invariant i == 0 ==> !relevant && !error
      invariant error ==> Splits(r.network, ec)
      invariant !error ==> forall x :: x in ec[..i] ==> Holds(r.network, x) == relevant
    {
      assert ec[..i + 1] == ec[..i] + [ec[i]];
      if hasBeenSet {
        if Holds(r.network, ec[i]) != relevant {
          assert ec[i] in ec;
          error := true;
        }
      } else {
        relevant, hasBeenSet := Holds(r.network, ec[i]), true;
      }
      i := i + 1;
    }
    if !error { assert ec[..i] == ec; }
  }

  // Which ranges of the class the network holds, by their addresses.
  lemma HeldByAddress(n: Net, ec: seq<ECRange>, x: ECRange)
    requires RangeSet(ec) && x in ec && n.Valid()
    ensures Holds(n, x) <==> forall a: Addr :: x.Contains(a) ==> n.Contains(a)
  {
    hide Net.Valid;
    LastInRange(n);
    var i :| 0 <= i < |ec| && ec[i] == x;
    assert x.Contains(x.lb) && x.Contains(x.ub);
    if Holds(n, x) {
      forall a: Addr | x.Contains(a) ensures n.Contains(a) { }
    }
  }

  // An error is raised exactly when the network holds all addresses of some range of the class and
  // misses an address of the class. Without one it is relevant exactly when it holds the whole class.
  lemma SplitMeaning(n: Net, ec: seq<ECRange>)
    requires RangeSet(ec) && n.Valid()
    ensures Splits(n, ec) <==>
            && (exists x :: x in ec && forall a: Addr :: x.Contains(a) ==> n.Contains(a))
            && exists x, a: Addr :: x in ec && x.Contains(a) && !n.Contains(a)
    ensures ec != [] && !Splits(n, ec) ==>
              (Relevant(n, ec) <==> forall x, a: Addr :: x in ec && x.Contains(a) ==> n.Contains(a))
  {
    hide Holds, Net.Valid, Net.Contains;
    forall x | x in ec ensures Holds(n, x) <==> forall a: Addr :: x.Contains(a) ==> n.Contains(a) {
      HeldByAddress(n, ec, x);
    }
    if ec != [] { assert ec[0] in ec; }
  }

  ghost function Hops(e: NodeEntry, rib: seq<Route>, dst: Addr): set<Ipnh> {
    if e.emulated then {} else Ipnhs(e.view, rib, dst)
  }

  // The routing table after the first k updates, each replacing the routes to its network.
  function Replayed(rib: seq<Route>, us: seq<Route>, k: nat, ec: seq<ECRange>): (t: seq<Route>)
    requires Sorted(rib) && k <= |us|
    ensures Sorted(t)
  {
    if k == 0 then rib else
      var t := Replayed(rib, us, k - 1, ec);
      InsertKeepsSorted(t, us[k - 1]);
      if Relevant(us[k - 1].network, ec) then Updated(t, us[k - 1]) else t
  }

  // The same with RoutingTable::insert instead of update.
  function Reinserted(rib: seq<Route>, us: seq<Route>, k: nat, ec: seq<ECRange>): (t: seq<Route>)
    requires Sorted(rib) && k <= |us|
    ensures Sorted(t)
  {
    if k == 0 then rib else
      var t := Reinserted(rib, us, k - 1, ec);
      InsertKeepsSorted(t, us[k - 1]);
      if Relevant(us[k - 1].network, ec) then Inserted(t, us[k - 1]) else t
  }

  // The network configuration and the Openflow updates.
  datatype Config = Config(nodes: map<string, NodeEntry>, updates: seq<NodeUpdates>)

  ghost predicate WellFormed(c: Config) {
    && (forall n :: n in c.nodes ==> Sorted(c.nodes[n].rib))
    && (forall i :: 0 <= i < |c.updates| ==> c.updates[i].node in c.nodes)
    && (forall i, j :: 0 <= i < j < |c.updates| ==> c.updates[i].node != c.updates[j].node)
  }

  // How many updates of each node are installed.
  ghost predicate Counts(c: Config, installed: seq<nat>) {
    |installed| == |c.updates| && forall i :: 0 <= i < |installed| ==> installed[i] <= |c.updates[i].routes|
  }

  // Next hops of node n from its routing table alone.
  ghost function Base(c: Config, ec: seq<ECRange>, n: string): set<Ipnh>
    requires ec != [] && n in c.nodes
  {
    Hops(c.nodes[n], c.nodes[n].rib, Representative(ec))
  }

  // The table update_fib resolves with at the node of entry i, with its first k updates installed.
  function ReplayedTable(c: Config, ec: seq<ECRange>, i: nat, k: nat): (t: seq<Route>)
    requires WellFormed(c) && i < |c.updates| && k <= |c.updates[i].routes|
    ensures Sorted(t)
  {
    Replayed(c.nodes[c.updates[i].node].rib, c.updates[i].routes, k, ec)
  }

  // The table install_update resolves with there, when k updates were installed before.
  function PatchedTable(c: Config, ec: seq<ECRange>, i: nat, k: nat): (t: seq<Route>)
    requires WellFormed(c) && i < |c.updates| && k < |c.updates[i].routes|
    ensures Sorted(t)
  {
    var rib, us := c.nodes[c.updates[i].node].rib, c.updates[i].routes;
    InsertKeepsSorted(Reinserted(rib, us, k, ec), us[k]);
    Updated(Reinserted(rib, us, k, ec), us[k])
  }

  // Next hops of the node of entry i with its first k updates installed.
  ghost function WithUpdates(c: Config, ec: seq<ECRange>, i: nat, k: nat): set<Ipnh>
    requires WellFormed(c) && ec != [] && i < |c.updates| && k <= |c.updates[i].routes|
  {
    Hops(c.nodes[c.updates[i].node], ReplayedTable(c, ec, i, k), Representative(ec))
  }

  // What update_fib gives to node n after the first i entries of the updates: the next hops with
  // the installed updates where there are any, otherwise those of the table alone.
  ghost function HopsUpTo(c: Config, ec: seq<ECRange>, installed: seq<nat>, n: string, i: nat): set<Ipnh>
    requires WellFormed(c) && Counts(c, installed) && ec != [] && n in c.nodes && i <= |c.updates|
  {
    if i == 0 then Base(c, ec, n)
    else if c.updates[i - 1].node == n && WithUpdates(c, ec, i - 1, installed[i - 1]) != {} then
      WithUpdates(c, ec, i - 1, installed[i - 1])
    else HopsUpTo(c, ec, installed, n, i - 1)
  }

  // The FIB update_fib builds.
  ghost function Rebuilt(c: Config, ec: seq<ECRange>, installed: seq<nat>): map<string, set<Ipnh>>
    requires WellFormed(c) && Counts(c, installed) && ec != []
  {
    map n | n in c.nodes :: HopsUpTo(c, ec, installed, n, |c.updates|)
  }

  // What install_update writes for its node when k updates were installed before.
  ghost function Patched(c: Config, ec: seq<ECRange>, i: nat, k: nat): set<Ipnh>
    requires WellFormed(c) && ec != [] && i < |c.updates| && k < |c.updates[i].routes|
  {
    Hops(c.nodes[c.updates[i].node], PatchedTable(c, ec, i, k), Representative(ec))
  }

  // No update's network splits the class, so relevance is well defined.
  ghost predicate Unsplit(c: Config, ec: seq<ECRange>) {
    forall i, r :: 0 <= i < |c.updates| && r in c.updates[i].routes ==> !Splits(r.network, ec)
  }

  // The state of the model that the data plane is made of: each connection has its own class and
  // FIB, the updates installed are those of the whole network.
  class Dataplane {
    const config: Config
    var ecs: seq<seq<ECRange>>
    var conn: nat
    var installed: seq<nat>
    var fibs: seq<map<string, set<Ipnh>>>
    var choiceCount: nat

    ghost predicate Valid()
      reads this
    {
      && WellFormed(config) && Counts(config, installed) && conn < |ecs| == |fibs|
      && forall j :: 0 <= j < |ecs| ==> ecs[j] != [] && Unsplit(config, ecs[j])
    }

    // The FIB of a connection is the one update_fib would build now.
    ghost predicate UpToDate(j: nat)
      requires Valid() && j < |ecs|
      reads this
    {
      fibs[j] == Rebuilt(config, ecs[j], installed)
    }

    // The class of the active connection.
    function Ec(): seq<ECRange>
      requires conn < |ecs|
      reads this
    {
      ecs[conn]
    }

    constructor (config: Config, ecs: seq<seq<ECRange>>)
      requires WellFormed(config) && ecs != []
      requires forall j :: 0 <= j < |ecs| ==> ecs[j] != [] && Unsplit(config, ecs[j])
      ensures Valid() && this.config == config && this.ecs == ecs
      ensures forall i :: 0 <= i < |installed| ==> installed[i] == 0
    {
      this.config, this.ecs := config, ecs;
      conn, installed, choiceCount := 0, seq(|config.updates|, _ => 0), 1;
      fibs := seq(|ecs|, _ => map[]);
    }

    method GetHops(n: string, rib: seq<Route>) returns (hops: set<Ipnh>)
      requires Valid() && n in config.nodes
      ensures hops == Hops(config.nodes[n], rib, Representative(Ec()))
    {
      if config.nodes[n].emulated {
        hops := {};
      } else {
        hops := GetIpnhsOf(config.nodes[n].view, rib, Representative(Ec()));
      }
    }

    // One entry of OpenflowProcess::get_installed_updates.
    method InstalledUpdatesOf(i: nat) returns (hops: set<Ipnh>)
      requires Valid() && i < |config.updates|
      ensures hops == WithUpdates(config, Ec(), i, installed[i])
    {
      hide Hops, Ipnhs, Updated, LowerBound, UpperBound, Relevant;
      var rib, us := config.nodes[config.updates[i].node].rib, config.updates[i].routes;
      var table := new RoutingTable.Copy(rib);
      var k := 0;
      while k < installed[i]
        invariant k <= installed[i]
        invariant table.Valid() && table.tbl == Replayed(rib, us, k, Ec()) && fresh(table)
      {
        var relevant, error := RelevantToEc(us[k], Ec());
        assert us[k] in us;
        if relevant {
          table.Update(us[k]);
        }
        k := k + 1;
      }
      hops := GetHops(config.updates[i].node, table.tbl);
    }

    // Model::update_fib
    method UpdateFib()
      requires Valid()
      modifies this`fibs
      ensures Valid() && fibs == old(fibs)[conn := Rebuilt(config, Ec(), installed)]
    {
      hide Hops, Ipnhs, Replayed, Splits, Sorted, Mentioned, Local;
      var newFib: map<string, set<Ipnh>> := map[];
      var todo := config.nodes.Keys;
      while todo != {}
        invariant fibs == old(fibs) && todo <= config.nodes.Keys && newFib.Keys == config.nodes.Keys - todo
        invariant forall n :: n in newFib ==> newFib[n] == Base(config, Ec(), n)
        decreases todo
      {
        var n :| n in todo;
        var hops := GetHops(n, config.nodes[n].rib);
        newFib := newFib[n := hops];
        todo := todo - {n};
      }
      var i := 0;
      while i < |config.updates|
        invariant fibs == old(fibs) && i <= |config.updates| && newFib.Keys == config.nodes.Keys
        invariant forall n :: n in config.nodes ==> newFib[n] == HopsUpTo(config, Ec(), installed, n, i)
      {
        var hops := InstalledUpdatesOf(i);
        if hops != {} {
          newFib := newFib[config.updates[i].node := hops];
        }
        i := i + 1;
      }
      assert newFib == Rebuilt(config, Ec(), installed);
      fibs := fibs[conn := newFib];
    }

    // OpenflowProcess::has_updates
    method HasUpdates(n: string) returns (more: bool)
      requires Valid()
      ensures more <==> exists i :: 0 <= i < |config.updates| && config.updates[i].node == n &&
                                    installed[i] < |config.updates[i].routes|
    {
      for i := 0 to |config.updates|
        invariant forall j :: 0 <= j < i ==> config.updates[j].node != n
      {
        if config.updates[i].node == n {
          return installed[i] < |config.updates[i].routes|;
        }
      }
      return false;
    }

    // OpenflowProcess::install_update, for the node of entry i as the packet's location.
    method InstallUpdate(choice: nat, i: nat)
      requires Valid() && i < |config.updates|
      requires choice != 0 ==> installed[i] < |config.updates[i].routes|
      modifies this`fibs, this`installed, this`choiceCount
      ensures Valid()
      ensures choice == 0 ==> fibs == old(fibs) && installed == old(installed) && choiceCount == 1
      ensures choice != 0 ==> installed == old(installed)[i := old(installed)[i] + 1]
      ensures choice != 0 ==> choiceCount == if installed[i] < |config.updates[i].routes| then 2 else 1
      ensures choice != 0 ==>
                var n, k := config.updates[i].node, old(installed)[i];
                fibs == old(fibs)[conn := old(fibs)[conn][n := Patched(config, Ec(), i, k)]]
      // of FIBs that were up to date, the active connection's still is if and only if what was
      // written is due now, and another one's if and only if the same is due as before
      ensures choice != 0 && old(UpToDate(conn)) ==>
                var k := old(installed)[i];
                UpToDate(conn) <==> Patched(config, Ec(), i, k) == Due(config, Ec(), i, k + 1)
      ensures choice != 0 ==> forall j :: 0 <= j < |ecs| && j != conn && old(UpToDate(j)) ==>
                var k := old(installed)[i];
                UpToDate(j) <==> Due(config, ecs[j], i, k) == Due(config, ecs[j], i, k + 1)
    {
      hide Hops, Ipnhs, Splits, Updated, Inserted, LowerBound, UpperBound, Relevant;
      if choice == 0 {
        choiceCount := 1;
        return;
      }
      var node, us := config.updates[i].node, config.updates[i].routes;
      var numInstalled := installed[i];
      installed := installed[i := numInstalled + 1];
      if numInstalled + 1 < |us| {
        choiceCount := 2;
      } else {
        choiceCount := 1;
      }
      var rib := config.nodes[node].rib;
      var table := new RoutingTable.Copy(rib);
      var k := 0;
      while k < numInstalled
        invariant k <= numInstalled
        invariant fibs == old(fibs) && installed == old(installed)[i := numInstalled + 1]
        invariant choiceCount == if numInstalled + 1 < |us| then 2 else 1
        invariant table.Valid() && table.tbl == Reinserted(rib, us, k, Ec()) && fresh(table)
      {
        var relevant, error := RelevantToEc(us[k], Ec());
        if relevant {
          table.Insert(us[k]);
        }
        k := k + 1;
      }
      table.Update(us[numInstalled]);
      var hops := GetHops(node, table.tbl);
      fibs := fibs[conn := fibs[conn][node := hops]];
      UpdatedFibs(i);
    }

    // Which FIBs stay up to date when the state changes as InstallUpdate says.
    twostate lemma UpdatedFibs(i: nat)
      requires old(Valid()) && Valid() && i < |config.updates| && old(installed[i]) < |config.updates[i].routes|
      requires ecs == old(ecs) && conn == old(conn) && installed == old(installed[i := installed[i] + 1])
      requires var n, hops := config.updates[i].node, Patched(config, Ec(), i, old(installed[i]));
               fibs == old(fibs)[conn := old(fibs[conn])[n := hops]]
      ensures var k := old(installed[i]);
              old(UpToDate(conn)) ==>
                (UpToDate(conn) <==> Patched(config, Ec(), i, k) == Due(config, Ec(), i, k + 1))
      ensures var k := old(installed[i]);
              forall j :: 0 <= j < |ecs| && j != conn && old(UpToDate(j)) ==>
                (UpToDate(j) <==> Due(config, ecs[j], i, k) == Due(config, ecs[j], i, k + 1))
    {
      hide Rebuilt, Due, Patched, Unsplit, WellFormed;
      PatchIsLocal(config, Ec(), old(installed), i);
      forall j | 0 <= j < |ecs| && j != conn
        ensures StaysExact(config, ecs[j], old(installed), i) <==>
                Due(config, ecs[j], i, old(installed)[i]) == Due(config, ecs[j], i, old(installed)[i] + 1)
      {
        OthersAreLocal(config, ecs[j], old(installed), i);
      }
    }
  }

  lemma {:induction false} HopsWithoutUpdates(c: Config, ec: seq<ECRange>, installed: seq<nat>, n: string, k: nat)
    requires WellFormed(c) && Counts(c, installed) && ec != [] && n in c.nodes && k <= |c.updates|
    requires forall j :: 0 <= j < k ==> c.updates[j].node != n
    ensures HopsUpTo(c, ec, installed, n, k) == Base(c, ec, n)
  {
    if k > 0 { HopsWithoutUpdates(c, ec, installed, n, k - 1); }
  }

  // A middlebox is left through its emulation, not through a table: with any updates installed its
  // next hops are none.
  lemma {:induction false} EmulatedHasNone(c: Config, ec: seq<ECRange>, installed: seq<nat>, n: string, k: nat)
    requires WellFormed(c) && Counts(c, installed) && ec != [] && n in c.nodes && k <= |c.updates|
    requires c.nodes[n].emulated
    ensures HopsUpTo(c, ec, installed, n, k) == {}
  {
    hide Ipnhs, Replayed;
    if k > 0 { EmulatedHasNone(c, ec, installed, n, k - 1); }
  }

  // The FIB has an entry for every node, empty for a middlebox. For any other node without updates
  // it holds the next hops of the class's first address.
  lemma FibEntry(c: Config, ec: seq<ECRange>, installed: seq<nat>, n: string)
    requires WellFormed(c) && Counts(c, installed) && ec != []
    ensures n in Rebuilt(c, ec, installed) <==> n in c.nodes
    ensures n in c.nodes && c.nodes[n].emulated ==> Rebuilt(c, ec, installed)[n] == {}
    ensures n in c.nodes && !c.nodes[n].emulated && (forall j :: 0 <= j < |c.updates| ==> c.updates[j].node != n) ==>
              forall h :: h in Rebuilt(c, ec, installed)[n] <==>
                          IsNextHop(c.nodes[n].view, c.nodes[n].rib, ec[0].lb, h)
  {
    hide Ipnhs, IsNextHop, HopsUpTo, WithUpdates;
    if n in c.nodes {
      if c.nodes[n].emulated {
        EmulatedHasNone(c, ec, installed, n, |c.updates|);
      } else if forall j :: 0 <= j < |c.updates| ==> c.updates[j].node != n {
        HopsWithoutUpdates(c, ec, installed, n, |c.updates|);
        IpnhsAreNextHops(c.nodes[n].view, c.nodes[n].rib, ec[0].lb);
      }
    }
  }

  // Only the entry of a node itself matters to its next hops.
  lemma {:induction false} HopsOfNode(c: Config, ec: seq<ECRange>, installed: seq<nat>, i: nat, k: nat)
    requires WellFormed(c) && Counts(c, installed) && ec != [] && i < k <= |c.updates|
    ensures var n, hops := c.updates[i].node, WithUpdates(c, ec, i, installed[i]);
            HopsUpTo(c, ec, installed, n, k) == if hops != {} then hops else Base(c, ec, n)
    decreases k
  {
    if k == i + 1 {
      HopsWithoutUpdates(c, ec, installed, c.updates[i].node, i);
    } else {
      HopsOfNode(c, ec, installed, i, k - 1);
    }
  }

  // Installing an update at the node of entry i does not change what is due at other nodes.
  lemma {:induction false} OtherNodes(c: Config, ec: seq<ECRange>, installed: seq<nat>, i: nat, m: nat,
                              n: string, k: nat)
    requires WellFormed(c) && Counts(c, installed) && ec != [] && n in c.nodes && k <= |c.updates|
    requires i < |c.updates| && c.updates[i].node != n && m <= |c.updates[i].routes|
    ensures HopsUpTo(c, ec, installed[i := m], n, k) == HopsUpTo(c, ec, installed, n, k)
  {
    if k > 0 { OtherNodes(c, ec, installed, i, m, n, k - 1); }
  }

  // What is due at the node of entry i with its first k updates installed: the next hops with the
  // updates, or those of the table alone where that gives none.
  ghost function Due(c: Config, ec: seq<ECRange>, i: nat, k: nat): set<Ipnh>
    requires WellFormed(c) && ec != [] && i < |c.updates| && k <= |c.updates[i].routes|
  {
    if WithUpdates(c, ec, i, k) != {} then WithUpdates(c, ec, i, k) else Base(c, ec, c.updates[i].node)
  }

  // The FIB after install_update is the one update_fib would build from the new update state.
  ghost predicate PatchIsExact(c: Config, ec: seq<ECRange>, installed: seq<nat>, i: nat)
    requires WellFormed(c) && Counts(c, installed) && ec != [] && i < |c.updates|
    requires installed[i] < |c.updates[i].routes|
  {
    Rebuilt(c, ec, installed)[c.updates[i].node := Patched(c, ec, i, installed[i])] ==
    Rebuilt(c, ec, installed[i := installed[i] + 1])
  }

  // Any update patches a FIB that was up to date into the rebuilt one if and only if what it writes
  // for its node is due there: no other node is affected.
  lemma PatchIsLocal(c: Config, ec: seq<ECRange>, installed: seq<nat>, i: nat)
    requires WellFormed(c) && Counts(c, installed) && ec != [] && i < |c.updates|
    requires installed[i] < |c.updates[i].routes|
    ensures PatchIsExact(c, ec, installed, i) <==> Patched(c, ec, i, installed[i]) == Due(c, ec, i, installed[i] + 1)
  {
    hide Hops, Base, WithUpdates, Patched;
    var n, k := c.updates[i].node, installed[i];
    var patched := Rebuilt(c, ec, installed)[n := Patched(c, ec, i, k)];
    var rebuilt := Rebuilt(c, ec, installed[i := k + 1]);
    HopsOfNode(c, ec, installed[i := k + 1], i, |c.updates|);
    forall m | m in c.nodes && m != n
      ensures patched[m] == rebuilt[m]
    {
      OtherNodes(c, ec, installed, i, k + 1, m, |c.updates|);
    }
    assert patched.Keys == rebuilt.Keys;
    assert patched == rebuilt <==> patched[n] == rebuilt[n];
  }

  // The FIB of another class that was up to date before the update still is.
  ghost predicate StaysExact(c: Config, ec: seq<ECRange>, installed: seq<nat>, i: nat)
    requires WellFormed(c) && Counts(c, installed) && ec != [] && i < |c.updates|
    requires installed[i] < |c.updates[i].routes|
  {
    Rebuilt(c, ec, installed) == Rebuilt(c, ec, installed[i := installed[i] + 1])
  }

  // It is if and only if the update does not change what is due at its node.
  lemma OthersAreLocal(c: Config, ec: seq<ECRange>, installed: seq<nat>, i: nat)
    requires WellFormed(c) && Counts(c, installed) && ec != [] && i < |c.updates|
    requires installed[i] < |c.updates[i].routes|
    ensures StaysExact(c, ec, installed, i) <==> Due(c, ec, i, installed[i]) == Due(c, ec, i, installed[i] + 1)
  {
    hide Hops, Base, WithUpdates;
    var n, k := c.updates[i].node, installed[i];
    var before, after := Rebuilt(c, ec, installed), Rebuilt(c, ec, installed[i := k + 1]);
    HopsOfNode(c, ec, installed, i, |c.updates|);
    HopsOfNode(c, ec, installed[i := k + 1], i, |c.updates|);
    forall m | m in c.nodes && m != n
      ensures before[m] == after[m]
    {
      OtherNodes(c, ec, installed, i, k + 1, m, |c.updates|);
    }
    assert before.Keys == after.Keys;
    assert before == after <==> before[n] == after[n];
  }

  // Replaying the first k updates by insert gives the same table as replaying them by update.
  predicate SameReplay(rib: seq<Route>, us: seq<Route>, k: nat, ec: seq<ECRange>)
    requires Sorted(rib) && k <= |us|
  {
    Reinserted(rib, us, k, ec) == Replayed(rib, us, k, ec)
  }

  // The networks of the relevant updates are distinct and none is in the routing table.
  predicate NewNetworks(rib: seq<Route>, us: seq<Route>, k: nat, ec: seq<ECRange>)
    requires k <= |us|
  {
    forall i :: 0 <= i < k && Relevant(us[i].network, ec) ==>
      (forall r :: r in rib ==> r.network != us[i].network) &&
      (forall j :: 0 <= j < i && Relevant(us[j].network, ec) ==> us[j].network != us[i].network)
  }

  lemma {:induction false} NewNetworksReplayAlike(rib: seq<Route>, us: seq<Route>, k: nat, ec: seq<ECRange>)
    requires Sorted(rib) && k <= |us| && NewNetworks(rib, us, k, ec)
    ensures SameReplay(rib, us, k, ec)
    ensures forall r :: r in Replayed(rib, us, k, ec) ==>
              r in rib || exists j :: 0 <= j < k && Relevant(us[j].network, ec) && us[j] == r
  {
    if k > 0 {
      NewNetworksReplayAlike(rib, us, k - 1, ec);
      var t, u := Replayed(rib, us, k - 1, ec), us[k - 1];
      if Relevant(u.network, ec) {
        InsertEqualsUpdate(t, u);
        EqualRange(t, u);
        assert Updated(t, u) == t[..LowerBound(t, u)] + [u] + t[UpperBound(t, u)..];
      }
    }
  }

  // When a single insert does what update does: the network is new, every route to it is farther
  // away, or the one route to it is the new one already.
  lemma InsertEqualsUpdate(tbl: seq<Route>, r: Route)
    requires Sorted(tbl)
    ensures var lo, hi := LowerBound(tbl, r), UpperBound(tbl, r);
            lo <= hi &&
            (Inserted(tbl, r) == Updated(tbl, r) <==>
             lo == hi || tbl[lo].admDist > r.admDist || tbl[lo..hi] == [r])
  {
    hide LowerBound, UpperBound;
    var lo, hi := LowerBound(tbl, r), UpperBound(tbl, r);
    EqualRange(tbl, r);
    if lo < hi && tbl[lo].admDist <= r.admDist {
      SpliceUnchanged(tbl, lo, hi, r);
      if tbl[lo..hi] == [r] {
        assert tbl[lo..hi][0] == r && r.HasSamePath(r);
      }
      assert tbl[..hi] + [r] + tbl[hi..] != tbl[..lo] + [r] + tbl[hi..] by {
        assert |tbl[..hi] + [r] + tbl[hi..]| == |tbl| + 1;
      }
    }
  }

  lemma SpliceUnchanged(tbl: seq<Route>, lo: nat, hi: nat, r: Route)
    requires lo < hi <= |tbl|
    ensures tbl[..lo] + [r] + tbl[hi..] == tbl <==> tbl[lo..hi] == [r]
  {
    var u := tbl[..lo] + [r] + tbl[hi..];
    assert tbl == tbl[..lo] + tbl[lo..hi] + tbl[hi..];
    if u == tbl {
      assert |u| == |tbl| - (hi - lo) + 1 && u[lo] == r;
    }
  }
}
