/** Inputs at which the code does not do what it is for. */
module Departures {
  import opened Addressing
  import opened ConcretePackets
  import opened Dataplane
  import opened EcRanges
  import opened EmulationPool
  import opened Emulations
  import opened EcRequests
  import opened EqClasses
  import opened FibUpdates
  import opened NextHops
  import opened L2Lans
  import opened Masking
  import opened Options
  import opened PacketHistories
  import opened Protocols
  import opened Routing
  import opened Segments

  // ---- A patched FIB that is not the rebuilt one (src/process/openflow.cpp:137-194) ----

  const PEER0 := Interface("a", "eth0", false, 0, 0)
  const PEER1 := Interface("b", "eth0", false, 0, 0)

  // A router with two links.
  function Router(rib: seq<Route>): NodeEntry {
    NodeEntry(NodeView("r", {}, map["eth0" := L3Peer(PEER0), "eth1" := L3Peer(PEER1)]), rib, false)
  }

  function Setup(rib: seq<Route>, updates: seq<Route>): Config {
    Config(map["r" := Router(rib)], [NodeUpdates("r", updates)])
  }

  // The class of 0.0.0.8 to 0.0.0.11.
  const CLASS := [ECRange(8, 11, 1)]
  const NET8_30 := Net(8, 30)

  lemma SmallSizes()
    ensures Pow2(0) == 1 && Pow2(1) == 2 && Pow2(2) == 4 && Pow2(3) == 8
  {
  }

  lemma SetupIsWellFormed(rib: seq<Route>, updates: seq<Route>, installed: nat)
    requires Sorted(rib) && installed <= |updates|
    ensures WellFormed(Setup(rib, updates)) && Counts(Setup(rib, updates), [installed])
  {
  }

  function To(intf: string): Ipnh {
    if intf == "eth0" then Ipnh("a", Some(PEER0), "a", Some(PEER0)) else Ipnh("b", Some(PEER1), "b", Some(PEER1))
  }

  lemma ToDiffer()
    ensures {To("eth0")} != {To("eth1")} && {To("eth0")} != {}
  {
    assert To("eth0") in {To("eth0")} && To("eth0") !in {To("eth1")};
  }

  lemma ExitHop(rib: seq<Route>, t: seq<Route>, x: Exit)
    requires Exits(t, 8) == {x} && (x.intf == "eth0" || x.intf == "eth1")
    ensures Hops(Router(rib), t, 8) == {To(x.intf)}
  {
    OneExit(Router(rib).view, t, 8, x);
  }

  // An update that is not relevant to the class redirects the recursive lookup of its next hop;
  // rebuilding the FIB skips it.
  lemma IrrelevantUpdateRedirects()
    ensures var via := Route(Net(2, 31), 0, "eth0", 1);
            var rib := [via, Route(NET8_30, 2, "", 1)];
            var c := Setup(rib, [Route(Net(2, 32), 0, "eth1", 255)]);
            && WellFormed(c) && Counts(c, [0]) && Unsplit(c, CLASS)
            && SameReplay(rib, c.updates[0].routes, 0, CLASS)
            && Patched(c, CLASS, 0, 0) == {To("eth1")} && Due(c, CLASS, 0, 1) == {To("eth0")}
            && !PatchIsExact(c, CLASS, [0], 0)
  {
    hide Exits, Lookup, Hops, PatchIsExact, Ipnhs, Updated, Relevant, Splits, To;
    var via, r, u := Route(Net(2, 31), 0, "eth0", 1), Route(NET8_30, 2, "", 1), Route(Net(2, 32), 0, "eth1", 255);
    var rib := [via, r];
    RedirectingTables(via, r, u);
    SetupIsWellFormed(rib, [u], 0);
    ViaLookups(via, r, u);
    RecursiveExit(rib, 8, r, via);
    RecursiveExit([u, via, r], 8, r, u);
    ExitHop(rib, [u, via, r], Exit("eth1", 2));
    ExitHop(rib, rib, Exit("eth0", 2));
    PatchIsLocal(Setup(rib, [u]), CLASS, [0], 0);
    ToDiffer();
  }

  lemma RedirectingTables(via: Route, r: Route, u: Route)
    requires via == Route(Net(2, 31), 0, "eth0", 1) && r == Route(NET8_30, 2, "", 1)
    requires u == Route(Net(2, 32), 0, "eth1", 255)
    ensures var c := Setup([via, r], [u]);
            && Sorted([via, r]) && WellFormed(c) && Unsplit(c, CLASS)
            && PatchedTable(c, CLASS, 0, 0) == [u, via, r] && ReplayedTable(c, CLASS, 0, 1) == [via, r]
  {
    SmallSizes();
    var rib := [via, r];
    assert CLASS[0] == ECRange(8, 11, 1) && !Relevant(u.network, CLASS) && [u][0] == u;
    assert Updated(rib, u) == [u, via, r];
    assert Replayed(rib, [u], 0, CLASS) == rib;
  }

  lemma ViaLookups(via: Route, r: Route, u: Route)
    requires via == Route(Net(2, 31), 0, "eth0", 1) && r == Route(NET8_30, 2, "", 1)
    requires u == Route(Net(2, 32), 0, "eth1", 255)
    ensures Lookup([via, r], 8) == [r] && Lookup([via, r], 2) == [via]
    ensures Lookup([u, via, r], 8) == [r] && Lookup([u, via, r], 2) == [u]
  {
    SmallSizes();
    assert [u, via, r][1..] == [via, r] && [via, r][1..] == [r];
    assert Lookup([r], 8) == [r];
  }

  lemma AloneLookup(r: Route, w: Route)
    requires r.network == NET8_30 && w.network == Net(8, 29)
    ensures Lookup([r], 8) == [r] && Lookup([r, w], 8) == [r]
    ensures forall u: Route :: u.network == NET8_30 ==> Updated([r], u) == [u]
    ensures Updated([r], w) == [r, w]
  {
    SmallSizes();
    assert [r, w][1..] == [w] && UpperBound([w], r) == 0 && UpperBound([r, w], r) == 1;
    assert [r, w][..1] == [r];
  }

  // An update farther away than the routes the table holds for its network is ignored when it is
  // replayed by insert, but replaces them when the FIB is rebuilt.
  lemma FartherUpdateIsForgotten()
    ensures var near, far, wide := Route(NET8_30, 0, "eth0", 1), Route(NET8_30, 0, "eth1", 255),
                                   Route(Net(8, 29), 0, "eth0", 255);
            var c := Setup([near], [far, wide]);
            && WellFormed(c) && Counts(c, [1]) && Unsplit(c, CLASS)
            && Relevant(wide.network, CLASS) && !SameReplay([near], [far, wide], 1, CLASS)
            && Patched(c, CLASS, 0, 1) == {To("eth0")} && Due(c, CLASS, 0, 2) == {To("eth1")}
            && !PatchIsExact(c, CLASS, [1], 0)
  {
    hide Exits, Lookup, Hops, PatchIsExact, Ipnhs, Replayed, Reinserted, Updated, Relevant, Splits, SameReplay, To;
    var near, far := Route(NET8_30, 0, "eth0", 1), Route(NET8_30, 0, "eth1", 255);
    var wide := Route(Net(8, 29), 0, "eth0", 255);
    FartherTables(near, far, wide);
    SetupIsWellFormed([near], [far, wide], 1);
    AloneLookup(near, wide);
    AloneLookup(far, wide);
    DirectExit([near, wide], 8, near);
    DirectExit([far, wide], 8, far);
    ExitHop([near], [near, wide], Exit("eth0", 8));
    ExitHop([near], [far, wide], Exit("eth1", 8));
    PatchIsLocal(Setup([near], [far, wide]), CLASS, [1], 0);
    ToDiffer();
  }

  lemma FartherTables(near: Route, far: Route, wide: Route)
    requires near == Route(NET8_30, 0, "eth0", 1) && far == Route(NET8_30, 0, "eth1", 255)
    requires wide == Route(Net(8, 29), 0, "eth0", 255)
    ensures var us := [far, wide];
            var c := Setup([near], us);
            && Sorted([near]) && WellFormed(c) && Unsplit(c, CLASS) && Relevant(wide.network, CLASS)
            && !SameReplay([near], us, 1, CLASS)
            && PatchedTable(c, CLASS, 0, 1) == [near, wide] && ReplayedTable(c, CLASS, 0, 2) == [far, wide]
  {
    hide Lookup;
    SmallSizes();
    var rib, us := [near], [far, wide];
    AloneLookup(near, wide);
    AloneLookup(far, wide);
    assert CLASS[0] == ECRange(8, 11, 1) && us[0] == far && us[1] == wide;
    assert Relevant(far.network, CLASS) && Relevant(wide.network, CLASS);
    assert Inserted(rib, far) == rib;
    assert Reinserted(rib, us, 0, CLASS) == rib && Replayed(rib, us, 0, CLASS) == rib;
    assert Reinserted(rib, us, 1, CLASS) == rib && Replayed(rib, us, 1, CLASS) == [far];
  }

  // The same two routes show that insert and update are different replays.
  lemma InsertIsNotUpdate()
    ensures var near, far := Route(NET8_30, 0, "eth0", 1), Route(NET8_30, 0, "eth1", 255);
            Inserted([near], far) == [near] && Updated([near], far) == [far]
  {
    AloneLookup(Route(NET8_30, 0, "eth0", 1), Route(Net(8, 29), 0, "", 0));
  }

  // An update toward an interface without a peer leaves the patched FIB without a next hop; the
  // rebuilt one falls back on the routing table.
  lemma UnconnectedUpdateLosesHops()
    ensures var r, u := Route(NET8_30, 0, "eth0", 1), Route(NET8_30, 0, "eth2", 255);
            var c := Setup([r], [u]);
            && WellFormed(c) && Counts(c, [0]) && Unsplit(c, CLASS)
            && Relevant(u.network, CLASS) && SameReplay([r], [u], 0, CLASS)
            && Patched(c, CLASS, 0, 0) == {} && Due(c, CLASS, 0, 1) == {To("eth0")}
            && !PatchIsExact(c, CLASS, [0], 0)
  {
    hide Exits, Lookup, Hops, Ipnhs, Updated, Replayed, Relevant, Splits, SameReplay, PatchIsExact;
    var r, u := Route(NET8_30, 0, "eth0", 1), Route(NET8_30, 0, "eth2", 255);
    UnconnectedTables(r, u);
    SetupIsWellFormed([r], [u], 0);
    AloneLookup(r, Route(Net(8, 29), 0, "", 0));
    AloneLookup(u, Route(Net(8, 29), 0, "", 0));
    DirectExit([r], 8, r);
    DirectExit([u], 8, u);
    ExitHop([r], [r], Exit("eth0", 8));
    NoHop([r], [u], Exit("eth2", 8));
    PatchIsLocal(Setup([r], [u]), CLASS, [0], 0);
  }

  lemma NoHop(rib: seq<Route>, t: seq<Route>, x: Exit)
    requires Exits(t, 8) == {x} && x.intf == "eth2"
    ensures Hops(Router(rib), t, 8) == {}
  {
    OneExit(Router(rib).view, t, 8, x);
  }

  lemma UnconnectedTables(r: Route, u: Route)
    requires r == Route(NET8_30, 0, "eth0", 1) && u == Route(NET8_30, 0, "eth2", 255)
    ensures var c := Setup([r], [u]);
            && Sorted([r]) && WellFormed(c) && Unsplit(c, CLASS) && Relevant(u.network, CLASS)
            && SameReplay([r], [u], 0, CLASS)
            && PatchedTable(c, CLASS, 0, 0) == [u] == ReplayedTable(c, CLASS, 0, 1)
  {
    hide Lookup;
    SmallSizes();
    AloneLookup(r, Route(Net(8, 29), 0, "", 0));
    assert CLASS[0] == ECRange(8, 11, 1) && [u][0] == u && Relevant(u.network, CLASS);
    assert Replayed([r], [u], 0, CLASS) == [r];
  }

  // An update installed for one connection leaves the FIB of another one, whose class it is relevant
  // to as well, as it was.
  lemma OtherConnectionIsStale()
    ensures var r, u := Route(NET8_30, 0, "eth0", 1), Route(NET8_30, 0, "eth1", 255);
            var c := Setup([r], [u]);
            && WellFormed(c) && Counts(c, [0]) && Unsplit(c, CLASS) && Relevant(u.network, CLASS)
            && Due(c, CLASS, 0, 0) == {To("eth0")} && Due(c, CLASS, 0, 1) == {To("eth1")}
            && !StaysExact(c, CLASS, [0], 0)
  {
    hide Exits, Lookup, Hops, Ipnhs, Updated, Replayed, Relevant, Splits, StaysExact;
    var r, u := Route(NET8_30, 0, "eth0", 1), Route(NET8_30, 0, "eth1", 255);
    StaleTables(r, u);
    SetupIsWellFormed([r], [u], 0);
    AloneLookup(r, Route(Net(8, 29), 0, "", 0));
    AloneLookup(u, Route(Net(8, 29), 0, "", 0));
    DirectExit([r], 8, r);
    DirectExit([u], 8, u);
    ExitHop([r], [r], Exit("eth0", 8));
    ExitHop([r], [u], Exit("eth1", 8));
    OthersAreLocal(Setup([r], [u]), CLASS, [0], 0);
    ToDiffer();
  }

  lemma StaleTables(r: Route, u: Route)
    requires r == Route(NET8_30, 0, "eth0", 1) && u == Route(NET8_30, 0, "eth1", 255)
    ensures var c := Setup([r], [u]);
            && Sorted([r]) && WellFormed(c) && Unsplit(c, CLASS) && Relevant(u.network, CLASS)
            && ReplayedTable(c, CLASS, 0, 0) == [r] && ReplayedTable(c, CLASS, 0, 1) == [u]
  {
    hide Lookup;
    SmallSizes();
    AloneLookup(r, Route(Net(8, 29), 0, "", 0));
    assert CLASS[0] == ECRange(8, 11, 1) && [u][0] == u && Relevant(u.network, CLASS);
    assert Replayed([r], [u], 0, CLASS) == [r];
  }

  // ---- A class without addresses (src/eqclassmgr.cpp:87-103) ----

  // Adding the default route's network twice.
  method AddDefaultTwice() returns (m: EqClassMgr, ghost phantom: EcId)
    ensures m.Valid() && m.Exact() && Phantom(m.allranges, m.allEcs, phantom)
    ensures m.added == [Request(ECRange(0, MAX_ADDR, 0), false), Request(ECRange(0, MAX_ADDR, 0), false)]
  {
    hide EqClassMgr.Valid, LabelAt, Refined, UncutKept, OwnershipGrows, Coarsest, OwnershipExact;
    m := new EqClassMgr();
    m.AddEc(ECRange(0, MAX_ADDR, 0), false);
    EverythingLabelled(m.allranges, m.added);
    m.AddEc(ECRange(0, MAX_ADDR, 0), false);
    IdsArePositive(m);
    phantom := m.nextEc - 1;
  }

  lemma IdsArePositive(m: EqClassMgr)
    requires m.Valid()
    ensures 0 < m.nextEc
  {
  }

  lemma EverythingLabelled(s: seq<ECRange>, added: seq<Request>)
    requires Coarsest(s, added) && Request(ECRange(0, MAX_ADDR, 0), false) in added
    ensures AllLabelled(s, ECRange(0, MAX_ADDR, 0))
  {
    hide LabelAt, Coarsest;
    forall a: Addr ensures LabelAt(s, a) != 0 {
      assert ECRange(0, MAX_ADDR, 0).Contains(a);
      CoveredIffLabelled(s, added, a);
    }
  }

  // ---- LANs told apart by their tables only (src/l2-lan.cpp:61-63) ----

  const UNPLUGGED := Wiring({Endpoint("a", "x"), Endpoint("b", "y")}, map[], (e: Endpoint) => 0)

  // Two switches without links: their LANs compare equal.
  method CompareUnplugged() returns (a: L2Lan, b: L2Lan)
    ensures a.tbl == b.tbl && a.l2Endpoints == {Endpoint("a", "x")} && b.l2Endpoints == {Endpoint("b", "y")}
  {
    hide InComponent;
    a := new L2Lan(UNPLUGGED, "a");
    b := new L2Lan(UNPLUGGED, "b");
    forall n: string, e ensures InComponent(UNPLUGGED, n, e) <==> e in UNPLUGGED.l2 && e.node == n {
      Unplugged(n, e);
    }
    EmptyTables(a);
    EmptyTables(b);
  }

  lemma Unplugged(n: string, e: Endpoint)
    ensures InComponent(UNPLUGGED, n, e) <==> e in UNPLUGGED.l2 && e.node == n
  {
    if InComponent(UNPLUGGED, n, e) {
      var k: nat :| Spans(UNPLUGGED, n, e, k);
    }
    if e in UNPLUGGED.l2 && e.node == n { InOwnComponent(UNPLUGGED, e); }
  }

  lemma EmptyTables(a: L2Lan)
    requires a.Valid() && a.w == UNPLUGGED
    ensures a.tbl == map[]
  {
    forall n ensures n !in a.tbl {
      assert PeersOf(a.w, a.l2Endpoints, n) == {};
    }
  }

  // ---- A step below the first indexed history (src/emulationmgr.cpp:59-68) ----

  // Going back to the empty history after anything was recorded, as backtracking does.
  method GoBackToStart<S(0)>(pool: EmulationMgr<S>, mb: MbId, cs: Chains) returns (r: Option<Emulation<S>>)
    requires pool.Valid() && 1 <= pool.maxEmu && Good(cs) && forall e :: e in pool.emus ==> Stored(cs, e.nph)
    requires mb in pool.mbEmuMap && mb in pool.owner && pool.owner[mb].nph != 0
    modifies pool, pool.emus
    ensures r.None?
  {
    hide EmulationMgr.Valid, Good;
    r := pool.GetEmulation(mb, 0, cs);
  }

  // ---- Reassembly of packets that are not TCP (src/lib/net.cpp:525-541) ----

  // Two UDP packets of one flow with different payloads, as they are read from the device: not yet
  // told apart as request and reply.
  const UDP1 := Packet(1, 8, 9, 53, 4000, 0, 0, UDP_REQ, [1])
  const UDP2 := UDP1.(payload := [2])

  lemma UdpOnInterface()
    ensures OnInterface([UDP1, UDP2], 1) == [UDP1, UDP2]
  {
    assert [UDP1, UDP2][..1] == [UDP1] && [UDP1][..0] == [];
    assert OnInterface([UDP1], 1) == [UDP1];
  }

  method ReassembleUdp() returns (r: Option<map<nat, seq<Packet>>>)
    ensures r.None?
  {
    hide OnInterface, Merged;
    UdpOnInterface();
    FailsExactly([UDP1, UDP2]);
    assert FailsAt([UDP1, UDP2], 1);
    assert Merged(OnInterface([UDP1, UDP2], 1)).None?;
    r := ReassembleSegments([UDP1, UDP2]);
  }

  // ---- Answers that miss the device (src/emulation.cpp:160-233) ----

  // SYN and ACK of device 8 to 9:80.
  function Syn(port: Port, seqNo: Seq32): Packet { Packet(1, 8, 9, port, 80, seqNo, 0, RAW + TH_SYN, []) }

  function Ack(port: Port, seqNo: Seq32): Packet { Packet(1, 8, 9, port, 80, seqNo, 0, RAW + TH_ACK, []) }

  // The device opens a connection from a dynamic port and, to the same endpoint, one from a
  // well-known port. The model's answer to the second reaches another port.
  lemma SecondConnectionMissesPort(n: nat, reply: Packet)
    requires Answers(Masked({8}, NO_OFFSETS, [Syn(50000, 1), Syn(100, 1)]).1[1], n, reply)
    ensures var got := Unmasked({8}, OffsetsAfter({8}, NO_OFFSETS, [Syn(50000, 1), Syn(100, 1)]), reply);
            RightNumber(Syn(100, 1), n, got) && !RightPort(Syn(100, 1), got)
  {
  }

  // It opens two connections to one endpoint from two dynamic ports: the answer to the first has
  // number and port of the second.
  lemma SecondConnectionTakesAnswer(n: nat, reply: Packet)
    requires Answers(Masked({8}, NO_OFFSETS, [Syn(50000, 7), Syn(50001, 9)]).1[0], n, reply)
    ensures var got := Unmasked({8}, OffsetsAfter({8}, NO_OFFSETS, [Syn(50000, 7), Syn(50001, 9)]), reply);
            && !RightNumber(Syn(50000, 7), n, got) && !RightPort(Syn(50000, 7), got)
            && RightNumber(Syn(50001, 9), n, got) && RightPort(Syn(50001, 9), got)
  {
    hide Unmasked, RightNumber, RightPort, Add32;
    var batch := [Syn(50000, 7), Syn(50001, 9)];
    var seen, now := Masked({8}, NO_OFFSETS, batch), OffsetsAfter({8}, NO_OFFSETS, batch);
    assert Raw(RAW + TH_SYN) && Flags(RAW + TH_SYN) == TH_SYN && batch[1..] == [batch[1]];
    assert seen.1[0] == Syn(49152, 0) && SeqOffset(now, Key(9, 80)) == 9 && PortOffset(now, Key(9, 80)) == 849;
    assert Syn(49152, 0) == batch[0].(seqNo := Sub32(7, 7), srcPort := Sub16(50000, 848));
    assert Syn(49152, 0) == batch[1].(seqNo := Sub32(9, 9), srcPort := Sub16(50001, 849));
    ShiftedBack({8}, now, batch[0], 7, 848, n, reply);
    ShiftedBack({8}, now, batch[1], 9, 849, n, reply);
  }

  // A forwarded packet of another host comes ahead of the device's own in one batch: the own packet
  // is not masked, but the answer to it is shifted.
  lemma ForwardedPacketEndsMasking(n: nat, reply: Packet)
    requires var o := OffsetsAfter({8}, NO_OFFSETS, [Syn(50000, 7)]);
             Answers(Masked({8}, o, [Ack(50000, 8).(srcIp := 5), Ack(50000, 8)]).1[1], n, reply)
    ensures var o, batch := OffsetsAfter({8}, NO_OFFSETS, [Syn(50000, 7)]), [Ack(50000, 8).(srcIp := 5), Ack(50000, 8)];
            var got := Unmasked({8}, OffsetsAfter({8}, o, batch), reply);
            && Masked({8}, o, batch).1 == batch && Masked({8}, o, batch[1..]).1 == [Ack(DYNAMIC_PORT, 1)]
            && !RightNumber(Ack(50000, 8), n, got) && !RightPort(Ack(50000, 8), got)
  {
  }
}
