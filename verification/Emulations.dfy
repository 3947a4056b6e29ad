/** One emulated device and its replayed history (src/emulation.cpp:155-233, 242-325, 336-420). */
module Emulations {
  import opened Addressing
  import opened Protocols
  import opened PacketHistories
  import opened ConcretePackets
  import opened Sequences

  type MbId = nat

  // The opposite endpoint of a connection that ends at the device.
  datatype Key = Key(ip: Addr, port: Port)

  datatype Offsets = Offsets(seqs: map<Key, Seq32>, ports: map<Key, Port>)

  const NO_OFFSETS := Offsets(map[], map[])

  // A device is a deterministic machine; step gives the packets received in answer to one packet,
  // with segments reassembled. ips are the device's own addresses.
  datatype Middlebox<!S> = Middlebox(ips: set<Addr>, init: S, step: (S, Packet) -> (S, seq<Packet>),
                                    packetsPerInjection: nat)

  datatype EmuState<S> = EmuState(device: S, offsets: Offsets)

  function SeqOffset(o: Offsets, k: Key): Seq32 { if k in o.seqs then o.seqs[k] else 0 }

  function PortOffset(o: Offsets, k: Key): Port { if k in o.ports then o.ports[k] else 0 }

  // What the device is sent for a packet of the model.
  function Unmasked(ips: set<Addr>, o: Offsets, p: Packet): Packet {
    if !IsTcpOrRaw(p.protoState) || p.dstIp !in ips then p else
      var k := Key(p.srcIp, p.srcPort);
      p.(ackNo := Add32(p.ackNo, SeqOffset(o, k)), dstPort := Add16(p.dstPort, PortOffset(o, k)))
  }

  // Initial sequence numbers and dynamic ports chosen by the device are replaced by fixed ones.
  function MaskOne(o: Offsets, p: Packet): (Offsets, Packet) {
    var k, flags := Key(p.dstIp, p.dstPort), Flags(p.protoState);
    var (o1, p1) := if flags == TH_SYN || flags == TH_SYN + TH_ACK
                    then (o.(seqs := o.seqs[k := p.seqNo]), p.(seqNo := 0))
                    else (o, p.(seqNo := Sub32(p.seqNo, SeqOffset(o, k))));
    if flags == TH_SYN then
      if p.srcPort >= 1024
      then (o1.(ports := o.ports[k := Sub16(p.srcPort, DYNAMIC_PORT)]), p1.(srcPort := DYNAMIC_PORT))
      else (o1, p1)
    else (o1, p1.(srcPort := Sub16(p.srcPort, PortOffset(o, k))))
  }

  // What the model sees of the packets a device sends; the first packet that is not TCP or not from
  // the device itself ends the masking.
  function Masked(ips: set<Addr>, o: Offsets, pkts: seq<Packet>): (r: (Offsets, seq<Packet>))
    ensures |r.1| == |pkts|
    decreases |pkts|
  {
    if pkts == [] || !IsTcpOrRaw(pkts[0].protoState) || pkts[0].srcIp !in ips then (o, pkts) else
      var (o1, p) := MaskOne(o, pkts[0]);
      var (o2, rest) := Masked(ips, o1, pkts[1..]);
      (o2, [p] + rest)
  }

  lemma MaskedFrom(ips: set<Addr>, o: Offsets, pkts: seq<Packet>, i: nat)
    requires i <= |pkts|
    ensures i == |pkts| || !IsTcpOrRaw(pkts[i].protoState) || pkts[i].srcIp !in ips ==>
              Masked(ips, o, pkts[i..]) == (o, pkts[i..])
    ensures i < |pkts| && IsTcpOrRaw(pkts[i].protoState) && pkts[i].srcIp in ips ==>
              var (o1, p) := MaskOne(o, pkts[i]);
              var (o2, rest) := Masked(ips, o1, pkts[i + 1..]);
              Masked(ips, o, pkts[i..]) == (o2, [p] + rest)
  {
    if i < |pkts| { assert pkts[i..][1..] == pkts[i + 1..]; }
  }

  function Sent<S>(box: Middlebox<S>, st: EmuState<S>, p: Packet): (EmuState<S>, seq<Packet>) {
    var (device, out) := box.step(st.device, Unmasked(box.ips, st.offsets, p));
    var (offsets, seen) := Masked(box.ips, st.offsets, out);
    (EmuState(device, offsets), seen)
  }

  function Launched<S>(box: Middlebox<S>): EmuState<S> { EmuState(box.init, NO_OFFSETS) }

  function ReplayFrom<S>(box: Middlebox<S>, st: EmuState<S>, pkts: seq<Packet>): EmuState<S>
    decreases |pkts|
  {
    if pkts == [] then st else ReplayFrom(box, Sent(box, st, pkts[0]).0, pkts[1..])
  }

  function Replay<S>(box: Middlebox<S>, pkts: seq<Packet>): EmuState<S> {
    ReplayFrom(box, Launched(box), pkts)
  }

  lemma {:induction false} ReplayAppend<S>(box: Middlebox<S>, st: EmuState<S>, a: seq<Packet>, b: seq<Packet>)
    ensures ReplayFrom(box, st, a + b) == ReplayFrom(box, ReplayFrom(box, st, a), b)
    decreases |a|
  {
    if a == [] {
      assert a + b == b;
    } else {
      assert (a + b)[1..] == a[1..] + b;
      ReplayAppend(box, Sent(box, st, a[0]).0, a[1..], b);
    }
  }

  // ---- Histories as packets ----

  // The packets of all histories are stored, equal ones once.
  ghost predicate KnownPackets(cs: Chains, packets: map<PacketPtr, Packet>) {
    && (forall h :: h in cs ==> cs[h].last in packets)
    && (forall p, q :: p in packets && q in packets && packets[p] == packets[q] ==> p == q)
  }

  ghost predicate AllKnown(packets: map<PacketPtr, Packet>, ptrs: seq<PacketPtr>) {
    forall i :: 0 <= i < |ptrs| ==> ptrs[i] in packets
  }

  ghost function Values(packets: map<PacketPtr, Packet>, ptrs: seq<PacketPtr>): (r: seq<Packet>)
    requires AllKnown(packets, ptrs)
    ensures |r| == |ptrs| && forall i :: 0 <= i < |r| ==> r[i] == packets[ptrs[i]]
  {
    seq(|ptrs|, i requires 0 <= i < |ptrs| => packets[ptrs[i]])
  }

  lemma {:induction false} HistoryKnown(cs: Chains, packets: map<PacketPtr, Packet>, h: HistPtr)
    requires Good(cs) && Stored(cs, h) && KnownPackets(cs, packets)
    ensures AllKnown(packets, Packets(cs, h))
    decreases h
  {
    if h != 0 { HistoryKnown(cs, packets, PastOf(cs, h)); }
  }

  // The packets of a stored history.
  ghost function History(cs: Chains, packets: map<PacketPtr, Packet>, h: HistPtr): seq<Packet>
    requires Good(cs) && Stored(cs, h) && KnownPackets(cs, packets)
  {
    HistoryKnown(cs, packets, h);
    Values(packets, Packets(cs, h))
  }

  lemma ValuesPrefix(packets: map<PacketPtr, Packet>, a: seq<PacketPtr>, b: seq<PacketPtr>)
    requires KnownPackets(map[], packets) && AllKnown(packets, a) && AllKnown(packets, b)
    ensures Values(packets, a) <= Values(packets, b) <==> a <= b
    ensures a <= b ==> AllKnown(packets, b[|a|..]) && Values(packets, b[|a|..]) == Values(packets, b)[|a|..]
  {
    if Values(packets, a) <= Values(packets, b) {
      forall i | 0 <= i < |a| ensures a[i] == b[i] {
        assert Values(packets, a)[i] == Values(packets, b)[i];
      }
    }
    if a <= b {
      assert Values(packets, a) == Values(packets, b)[..|a|];
    }
  }

  // Two stored histories hold the same packets exactly when they are the same object.
  lemma SameObjectSameHistory(cs: Chains, packets: map<PacketPtr, Packet>, g: HistPtr, h: HistPtr)
    requires Good(cs) && Stored(cs, g) && Stored(cs, h) && KnownPackets(cs, packets)
    ensures g == h <==> History(cs, packets, g) == History(cs, packets, h)
  {
    HistoryKnown(cs, packets, g);
    HistoryKnown(cs, packets, h);
    SameObjectSamePackets(cs, g, h);
    ValuesPrefix(packets, Packets(cs, g), Packets(cs, h));
    ValuesPrefix(packets, Packets(cs, h), Packets(cs, g));
  }

  // What is replayed, as packets.
  lemma SinceIsSuffix(cs: Chains, packets: map<PacketPtr, Packet>, h: HistPtr, start: HistPtr)
    requires Good(cs) && Stored(cs, h) && Stored(cs, start) && KnownPackets(cs, packets)
    ensures AllKnown(packets, Since(cs, h, start))
    ensures var all, done := History(cs, packets, h), History(cs, packets, start);
            && Values(packets, Since(cs, h, start)) == (if done <= all then all[|done|..] else all)
            && (done <= all <==> Packets(cs, start) <= Packets(cs, h))
  {
    HistoryKnown(cs, packets, h);
    HistoryKnown(cs, packets, start);
    ValuesPrefix(packets, Packets(cs, start), Packets(cs, h));
  }

  lemma ReplayHead<S>(box: Middlebox<S>, st: EmuState<S>, p: Packet, rest: seq<Packet>)
    ensures ReplayFrom(box, st, [p] + rest) == ReplayFrom(box, Sent(box, st, p).0, rest)
  {
    assert ([p] + rest)[1..] == rest;
  }

  // ---- The emulation ----

  class Emulation<S(0)> {
    const boxes: MbId -> Middlebox<S>
    var mb: MbId
    var nph: HistPtr
    var device: S
    var offsets: Offsets

    constructor (boxes: MbId -> Middlebox<S>, mb: MbId)
      ensures this.boxes == boxes && this.mb == mb && nph == 0 && State() == Launched(boxes(mb))
    {
      this.boxes, this.mb, nph := boxes, mb, 0;
      device, offsets := boxes(mb).init, NO_OFFSETS;
    }

    function Box(): Middlebox<S>
      reads this
    {
      boxes(mb)
    }

    function State(): EmuState<S>
      reads this
    {
      EmuState(device, offsets)
    }

    // Takes over another middlebox, as if just constructed.
    method Init(mb: MbId)
      modifies this
      ensures this.mb == mb && nph == 0 && State() == Launched(boxes(mb))
    {
      this.mb, nph := mb, 0;
      device, offsets := boxes(mb).init, NO_OFFSETS;
    }

    method ApplyOffsets(pkt: Packet) returns (r: Packet)
      ensures r == Unmasked(Box().ips, offsets, pkt)
    {
      r := pkt;
      if !IsTcpOrRaw(pkt.protoState) { return; }
      if pkt.dstIp !in Box().ips { return; }
      var key := Key(pkt.srcIp, pkt.srcPort);
      var seqOffset: Seq32 := 0;
      if key in offsets.seqs { seqOffset := offsets.seqs[key]; }
      r := r.(ackNo := Add32(r.ackNo, seqOffset));
      var portOffset: Port := 0;
      if key in offsets.ports { portOffset := offsets.ports[key]; }
      r := r.(dstPort := Add16(r.dstPort, portOffset));
    }

    method UpdateOffsetsFor(pkt: Packet) returns (r: Packet)
      modifies `offsets
      ensures (offsets, r) == MaskOne(old(offsets), pkt)
    {
      r := pkt;
      var key, flags := Key(pkt.dstIp, pkt.dstPort), Flags(pkt.protoState);
      if flags == TH_SYN || flags == TH_SYN + TH_ACK {
        offsets := offsets.(seqs := offsets.seqs[key := r.seqNo]);
        r := r.(seqNo := 0);
      } else {
        var offset: Seq32 := 0;
        if key in offsets.seqs { offset := offsets.seqs[key]; }
        r := r.(seqNo := Sub32(r.seqNo, offset));
      }
      if flags == TH_SYN {
        if r.srcPort >= 1024 {
          offsets := offsets.(ports := offsets.ports[key := Sub16(r.srcPort, DYNAMIC_PORT)]);
          r := r.(srcPort := DYNAMIC_PORT);
        }
      } else {
        var offset: Port := 0;
        if key in offsets.ports { offset := offsets.ports[key]; }
        r := r.(srcPort := Sub16(r.srcPort, offset));
      }
    }

    method UpdateOffsets(pkts: seq<Packet>) returns (r: seq<Packet>)
      modifies `offsets
      ensures (offsets, r) == Masked(Box().ips, old(offsets), pkts)
    {
      hide Masked, MaskOne, IsTcpOrRaw;
      r := pkts;
      var i := 0;
      assert pkts[0..] == pkts && r[..0] + Masked(Box().ips, offsets, pkts).1 == Masked(Box().ips, offsets, pkts).1;
      while i < |r|
        invariant i <= |r| && |r| == |pkts| && r[i..] == pkts[i..]
        invariant var (o, rest) := Masked(Box().ips, offsets, pkts[i..]);
                  Masked(Box().ips, old(offsets), pkts) == (o, r[..i] + rest)
      {
        assert pkts[i] == r[i..][0] == r[i] && r[..i] + r[i..] == r;
        MaskedFrom(Box().ips, offsets, pkts, i);
        if !IsTcpOrRaw(r[i].protoState) {
          return;
        }
        if r[i].srcIp !in Box().ips {
          return;
        }
        var p := UpdateOffsetsFor(r[i]);
        var (o, rest) := Masked(Box().ips, offsets, pkts[i + 1..]);
        ConcatAssoc(r[..i], [p], rest);
        r := r[i := p];
        assert r[..i + 1] == r[..i] + [p];
        i := i + 1;
      }
      MaskedFrom(Box().ips, offsets, pkts, i);
      assert r[..i] + [] == r;
    }

    method SendPkt(pkt: Packet) returns (received: seq<Packet>)
      modifies `device, `offsets
      ensures (State(), received) == Sent(Box(), old(State()), pkt)
    {
      var p := ApplyOffsets(pkt);
      var (next, out) := Box().step(device, p);
      device := next;
      received := UpdateOffsets(out);
    }

    // Brings the device to the given history: nothing when it is recorded already, the missing
    // packets when the recorded history is a prefix of it, all packets after a reset otherwise.
    // The recorded history itself is not updated.
    method Rewind(cs: Chains, packets: map<PacketPtr, Packet>, to: HistPtr) returns (injections: int)
      requires Good(cs) && Stored(cs, to) && Stored(cs, nph) && KnownPackets(cs, packets)
      modifies `device, `offsets
      ensures var done, all := History(cs, packets, nph), History(cs, packets, to);
              && State() == Rewound(Box(), old(State()), done, all)
              && injections == if done == all then -1 else if done <= all then |all| - |done| else |all|
    {
      hide Chained, Shared, Packets, Values, Sent, History, Since, KnownPackets, AllKnown;
      SameObjectSameHistory(cs, packets, nph, to);
      SinceIsSuffix(cs, packets, to, nph);
      EmptyHistory(cs, packets);
      ghost var all, replayed := History(cs, packets, to), Values(packets, Since(cs, to, nph));
      if nph == to { return -1; }
      var reset := to == 0;
      if !reset {
        var contains := Contains(cs, to, nph);
        reset := !contains;
      }
      if reset {
        offsets := NO_OFFSETS;
        device := Box().init;
      }
      ghost var start := State();
      injections := 0;
      if to != 0 {
        var pkts := GetPacketsSince(cs, to, nph);
        injections := |pkts|;
        var i := 0;
        while i < |pkts|
          invariant i <= |pkts|
          invariant ReplayFrom(Box(), start, replayed) == ReplayFrom(Box(), State(), replayed[i..])
        {
          ReplayHead(Box(), State(), packets[pkts[i]], replayed[i + 1..]);
          var received := SendPkt(packets[pkts[i]]);
          i := i + 1;
        }
      }
    }
  }

  lemma EmptyHistory(cs: Chains, packets: map<PacketPtr, Packet>)
    requires Good(cs) && KnownPackets(cs, packets)
    ensures History(cs, packets, 0) == []
  {
  }

  ghost function Rewound<S>(box: Middlebox<S>, st: EmuState<S>, done: seq<Packet>, all: seq<Packet>): EmuState<S> {
    if done <= all then ReplayFrom(box, st, all[|done|..]) else Replay(box, all)
  }

  // A device that is the replay of its recorded history is, after rewinding on any branch, the
  // replay of the history asked for.
  lemma RewoundIsReplay<S>(box: Middlebox<S>, done: seq<Packet>, all: seq<Packet>)
    ensures Rewound(box, Replay(box, done), done, all) == Replay(box, all)
  {
    if done <= all {
      assert all == done + all[|done|..];
      ReplayAppend(box, Launched(box), done, all[|done|..]);
    }
  }
}
