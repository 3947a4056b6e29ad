/** Reassembly of TCP segments received from a device (src/lib/net.cpp:409-413, 518-552). */
module Segments {
  import opened Addressing
  import opened Options
  import opened ConcretePackets
  import opened Protocols
  import opened Sequences

  predicate SameFlow(a: Packet, b: Packet) {
    a.srcIp == b.srcIp && a.dstIp == b.dstIp && a.srcPort == b.srcPort && a.dstPort == b.dstPort
  }

  predicate IsAck(p: Packet) {
    p.protoState == RAW + TH_ACK || p.protoState == RAW + TH_PUSH + TH_ACK
  }

  // b continues a.
  predicate Continues(a: Packet, b: Packet) {
    SameFlow(a, b) && IsAck(a) && IsAck(b) && Add32(a.seqNo, |a.payload|) == b.seqNo && a.ackNo == b.ackNo
  }

  // Looking at the flags of a packet that is not TCP fails an assertion.
  predicate Fails(a: Packet, b: Packet) {
    SameFlow(a, b) && (!Raw(a.protoState) || (IsAck(a) && !Raw(b.protoState)))
  }

  // The packets of one interface so far, and one more; None for a failed assertion.
  function Push(acc: seq<Packet>, p: Packet): Option<seq<Packet>> {
    if acc == [] then Some([p])
    else if Fails(Last(acc), p) then None
    else if Continues(Last(acc), p) then Some(Front(acc) + [Last(acc).(payload := Last(acc).payload + p.payload)])
    else Some(acc + [p])
  }

  function Merged(pkts: seq<Packet>): Option<seq<Packet>>
    decreases |pkts|
  {
    if pkts == [] then Some([]) else
      match Merged(Front(pkts))
      case None => None
      case Some(acc) => Push(acc, Last(pkts))
  }

  function OnInterface(pkts: seq<Packet>, i: nat): seq<Packet>
    decreases |pkts|
  {
    if pkts == [] then [] else
      OnInterface(Front(pkts), i) + if Last(pkts).interface == i then [Last(pkts)] else []
  }

  function Bucket(buckets: map<nat, seq<Packet>>, i: nat): seq<Packet> {
    if i in buckets then buckets[i] else []
  }

  // Packets are reassembled interface by interface, in the order received.
  method ReassembleSegments(pkts: seq<Packet>) returns (r: Option<map<nat, seq<Packet>>>)
    ensures r.None? <==> exists i :: Merged(OnInterface(pkts, i)).None?
    ensures r.Some? ==> forall i :: Merged(OnInterface(pkts, i)) == Some(Bucket(r.value, i))
    // nothing that could be joined is left, and a single stream comes back as one packet
    ensures r.Some? ==> forall i {:trigger Bucket(r.value, i)} :: NoneSuccessive(Bucket(r.value, i))
    ensures OneStream(pkts) ==> r.Some? && forall i :: Bucket(r.value, i) == WholeStream(pkts, i)
  {
    hide Merged, OnInterface, OneStream, NoneSuccessive;
    StreamOnInterface(pkts);
    var buckets: map<nat, seq<Packet>> := map[];
    var k := 0;
    assert pkts[..0] == [];
    forall i ensures Merged(OnInterface([], i)) == Some([]) { EmptyMerged(i); }
    while k < |pkts|
      invariant k <= |pkts|
      invariant forall i :: Merged(OnInterface(pkts[..k], i)) == Some(Bucket(buckets, i))
    {
      var p := pkts[k];
      forall i ensures Merged(OnInterface(pkts[..k + 1], i)) ==
                       if p.interface == i then Push(Bucket(buckets, i), p) else Some(Bucket(buckets, i))
      {
        OneMore(pkts, k, i);
      }
      var list := Bucket(buckets, p.interface);
      ghost var located := list;
      var joined := false;
      if list != [] {
        var lp := list[|list| - 1];
        if SameFlow(lp, p) {
          if !Raw(lp.protoState) || (IsAck(lp) && !Raw(p.protoState)) {
            StaysFailed(pkts, k + 1, p.interface);
            return None;
          }
          if IsAck(lp) && IsAck(p) && Add32(lp.seqNo, |lp.payload|) == p.seqNo && lp.ackNo == p.ackNo {
            list := list[..|list| - 1] + [lp.(payload := lp.payload + p.payload)];
            joined := true;
          }
        }
      }
      if !joined { list := list + [p]; }
      assert located == [] ==> list == [p];
      assert located != [] ==> joined == Continues(Last(located), p) && !Fails(Last(located), p);
      assert Push(located, p) == Some(list);
      ghost var was := buckets;
      buckets := buckets[p.interface := list];
      forall i ensures Bucket(buckets, i) == if p.interface == i then list else Bucket(was, i) {
      }
      k := k + 1;
    }
    assert pkts[..k] == pkts;
    forall i ensures NoneSuccessive(Bucket(buckets, i)) { NothingSuccessive(OnInterface(pkts, i)); }
    r := Some(buckets);
  }

  lemma EmptyMerged(i: nat)
    ensures Merged(OnInterface([], i)) == Some([])
  {
  }

  lemma OneMore(pkts: seq<Packet>, k: nat, i: nat)
    requires k < |pkts| && Merged(OnInterface(pkts[..k], i)).Some?
    ensures Merged(OnInterface(pkts[..k + 1], i)) ==
            if pkts[k].interface == i then Push(Merged(OnInterface(pkts[..k], i)).value, pkts[k])
            else Merged(OnInterface(pkts[..k], i))
  {
    var s := pkts[..k + 1];
    assert Front(s) == pkts[..k] && Last(s) == pkts[k];
    var before := OnInterface(pkts[..k], i);
    if pkts[k].interface == i { FrontOfSnoc(before, pkts[k]); } else { assert before + [] == before; }
  }

  lemma {:induction false} StaysFailed(pkts: seq<Packet>, k: nat, i: nat)
    requires k <= |pkts| && Merged(OnInterface(pkts[..k], i)).None?
    ensures Merged(OnInterface(pkts, i)).None?
    decreases |pkts|
  {
    if k == |pkts| {
      assert pkts[..k] == pkts;
    } else {
      assert Front(pkts)[..k] == pkts[..k];
      StaysFailed(Front(pkts), k, i);
      var before := OnInterface(Front(pkts), i);
      if Last(pkts).interface == i { FrontOfSnoc(before, Last(pkts)); } else { assert before + [] == before; }
    }
  }

  // ---- What reassembly keeps ----

  // A byte of a flow with its sequence number and the acknowledgement it came with.
  datatype Placed = Placed(srcIp: Addr, dstIp: Addr, srcPort: Port, dstPort: Port, ackNo: Seq32, at: Seq32, byte: Byte)

  function PlacedBytes(p: Packet): (r: seq<Placed>)
    ensures |r| == |p.payload|
  {
    seq(|p.payload|, j requires 0 <= j < |p.payload| =>
      Placed(p.srcIp, p.dstIp, p.srcPort, p.dstPort, p.ackNo, Add32(p.seqNo, j), p.payload[j]))
  }

  function AllBytes(pkts: seq<Packet>): seq<Placed>
    decreases |pkts|
  {
    if pkts == [] then [] else AllBytes(Front(pkts)) + PlacedBytes(Last(pkts))
  }

  lemma JoinPlaces(a: Packet, b: Packet)
    requires Continues(a, b)
    ensures PlacedBytes(a.(payload := a.payload + b.payload)) == PlacedBytes(a) + PlacedBytes(b)
  {
    forall j | 0 <= j < |b.payload| ensures Add32(a.seqNo, |a.payload| + j) == Add32(b.seqNo, j) {
      Shifted(a.seqNo, |a.payload|, j);
    }
  }

  lemma Shifted(s: Seq32, n: nat, j: nat)
    ensures Add32(s, n + j) == Add32(Add32(s, n), j)
  {
  }

  // Reassembly keeps every byte of the interface, in order and at its sequence number.
  lemma {:induction false} BytesKept(pkts: seq<Packet>)
    requires Merged(pkts).Some?
    ensures AllBytes(Merged(pkts).value) == AllBytes(pkts)
    decreases |pkts|
  {
    if pkts != [] {
      BytesKept(Front(pkts));
      var acc, p := Merged(Front(pkts)).value, Last(pkts);
      if acc == [] {
        assert Front([p]) == [] && [] + PlacedBytes(p) == PlacedBytes(p);
      } else if Continues(Last(acc), p) {
        var joined := Last(acc).(payload := Last(acc).payload + p.payload);
        JoinPlaces(Last(acc), p);
        FrontOfSnoc(Front(acc), joined);
        ConcatAssoc(AllBytes(Front(acc)), PlacedBytes(Last(acc)), PlacedBytes(p));
      } else {
        FrontOfSnoc(acc, p);
      }
    }
  }

  // ---- What is joined, with the flags on the wire ----

  // Flags ACK or PSH and ACK, and the bit for flags that are not converted yet.
  predicate PlainAck(p: Packet) { p.protoState == 0x810 || p.protoState == 0x818 }

  // b is the next segment of a's flow.
  predicate Successive(a: Packet, b: Packet) {
    && a.srcIp == b.srcIp && a.dstIp == b.dstIp && a.srcPort == b.srcPort && a.dstPort == b.dstPort
    && PlainAck(a) && PlainAck(b) && b.seqNo == (a.seqNo + |a.payload|) % 0x1_0000_0000 && a.ackNo == b.ackNo
  }

  ghost predicate NoneSuccessive(pkts: seq<Packet>) {
    forall k :: 0 < k < |pkts| ==> !Successive(pkts[k - 1], pkts[k])
  }

  // All packets arrive at one interface, each the next segment of the one before.
  ghost predicate OneStream(pkts: seq<Packet>) {
    pkts != [] && forall k :: 0 < k < |pkts| ==>
      Successive(pkts[k - 1], pkts[k]) && pkts[k].interface == pkts[k - 1].interface
  }

  function Payloads(pkts: seq<Packet>): seq<Byte>
    decreases |pkts|
  {
    if pkts == [] then [] else Payloads(Front(pkts)) + Last(pkts).payload
  }

  // One packet, where the stream arrived.
  function WholeStream(pkts: seq<Packet>, i: nat): seq<Packet>
    requires pkts != []
  {
    if i == pkts[0].interface then [pkts[0].(payload := Payloads(pkts))] else []
  }

  lemma Joins(a: Packet, payload: seq<Byte>, last: Packet, p: Packet)
    requires Successive(last, p) && SameFlow(a, last) && PlainAck(a) && a.ackNo == last.ackNo
    requires Add32(a.seqNo, |payload|) == Add32(last.seqNo, |last.payload|)
    ensures Push([a.(payload := payload)], p) == Some([a.(payload := payload + p.payload)])
    ensures Add32(a.seqNo, |payload + p.payload|) == Add32(p.seqNo, |p.payload|)
  {
    var joined := a.(payload := payload);
    Shifted(a.seqNo, |payload|, |p.payload|);
    assert Last([joined]) == joined && Front([joined]) == [];
    assert [] + [a.(payload := payload + p.payload)] == [a.(payload := payload + p.payload)];
  }

  lemma {:induction false} StreamMerged(pkts: seq<Packet>)
    requires OneStream(pkts)
    ensures Merged(pkts) == Some([pkts[0].(payload := Payloads(pkts))])
    ensures Add32(pkts[0].seqNo, |Payloads(pkts)|) == Add32(Last(pkts).seqNo, |Last(pkts).payload|)
    ensures |pkts| > 1 ==> PlainAck(pkts[0])
    ensures pkts[0].ackNo == Last(pkts).ackNo && SameFlow(pkts[0], Last(pkts))
    decreases |pkts|
  {
    hide Push, Add32;
    var front, p := Front(pkts), Last(pkts);
    if front == [] {
      assert Payloads([]) == [] && [] + p.payload == p.payload && pkts[0] == p;
      assert Merged([]) == Some([]) && Push([], p) == Some([p]) by { PushFirst(p); }
    } else {
      StreamMerged(front);
      assert Last(front) == pkts[|pkts| - 2] && pkts[0] == front[0];
      Joins(pkts[0], Payloads(front), Last(front), p);
    }
  }

  lemma PushFirst(p: Packet)
    ensures Push([], p) == Some([p])
  {
  }

  lemma {:induction false} OneInterface(pkts: seq<Packet>, i: nat)
    requires OneStream(pkts)
    ensures Last(pkts).interface == pkts[0].interface
    ensures OnInterface(pkts, i) == if i == pkts[0].interface then pkts else []
    decreases |pkts|
  {
    var front := Front(pkts);
    FrontLast(pkts);
    if front == [] {
      assert OnInterface([], i) == [];
    } else {
      OneInterface(front, i);
      assert Last(front) == pkts[|pkts| - 2];
    }
  }

  lemma StreamOnInterface(pkts: seq<Packet>)
    ensures OneStream(pkts) ==> forall i :: Merged(OnInterface(pkts, i)) == Some(WholeStream(pkts, i))
  {
    if OneStream(pkts) {
      hide Payloads, OneStream;
      StreamMerged(pkts);
      assert Merged([]) == Some([]);
      forall i ensures Merged(OnInterface(pkts, i)) == Some(WholeStream(pkts, i)) { OneInterface(pkts, i); }
    }
  }

  lemma NothingSuccessive(pkts: seq<Packet>)
    requires Merged(pkts).Some?
    ensures NoneSuccessive(Merged(pkts).value)
  {
    hide Merged;
    MergedApart(pkts);
    var r := Merged(pkts).value;
    forall k | 0 < k < |r| ensures !Successive(r[k - 1], r[k]) {
      assert !Continues(r[k - 1], r[k]);
    }
  }

  // The packets of an interface are all packets that arrived there, in their order.
  lemma {:induction false} OnInterfaceIs(a: seq<Packet>, b: seq<Packet>, p: Packet, i: nat)
    ensures OnInterface([], i) == [] && OnInterface([p], i) == if p.interface == i then [p] else []
    ensures OnInterface(a + b, i) == OnInterface(a, i) + OnInterface(b, i)
    decreases |b|
  {
    assert Front([p]) == [] && Last([p]) == p;
    if b == [] {
      assert a + b == a;
    } else {
      OnInterfaceIs(a, Front(b), p, i);
      FrontLast(b);
      assert Front(a + b) == a + Front(b) && Last(a + b) == Last(b);
    }
  }

  // ---- Nothing is left to join ----

  ghost predicate Apart(pkts: seq<Packet>) {
    forall k :: 0 < k < |pkts| ==> !Continues(pkts[k - 1], pkts[k]) && !Fails(pkts[k - 1], pkts[k])
  }

  lemma PushApart(acc: seq<Packet>, p: Packet)
    requires Apart(acc) && Push(acc, p).Some?
    ensures Apart(Push(acc, p).value)
  {
    if acc != [] && Continues(Last(acc), p) {
      var r := Push(acc, p).value;
      forall k | 0 < k < |r| ensures !Continues(r[k - 1], r[k]) && !Fails(r[k - 1], r[k]) {
        assert !Continues(acc[k - 1], acc[k]) && !Fails(acc[k - 1], acc[k]);
      }
    }
  }

  lemma {:induction false} MergedApart(pkts: seq<Packet>)
    requires Merged(pkts).Some?
    ensures Apart(Merged(pkts).value)
    decreases |pkts|
  {
    if pkts != [] {
      MergedApart(Front(pkts));
      PushApart(Merged(Front(pkts)).value, Last(pkts));
    }
  }

  lemma {:induction false} ApartStays(pkts: seq<Packet>)
    requires Apart(pkts)
    ensures Merged(pkts) == Some(pkts)
    decreases |pkts|
  {
    if pkts != [] {
      ApartStays(Front(pkts));
      FrontLast(pkts);
      if |pkts| > 1 { assert Last(Front(pkts)) == pkts[|pkts| - 2]; }
    }
  }

  // Reassembling what was reassembled changes nothing.
  lemma MergedOnce(pkts: seq<Packet>)
    requires Merged(pkts).Some?
    ensures Merged(Merged(pkts).value) == Merged(pkts)
  {
    MergedApart(pkts);
    ApartStays(Merged(pkts).value);
  }

  // ---- When reassembly fails ----

  // Flags that cannot be read, because the packet is not TCP.
  predicate NotTcp(p: Packet) { p.protoState / 0x800 % 2 == 0 }

  // Two packets of one flow in a row of which the first is not TCP, or only the second is not and
  // the first is an acknowledgement.
  ghost predicate FailsAt(pkts: seq<Packet>, k: nat) {
    0 < k < |pkts| &&
    var a, b := pkts[k - 1], pkts[k];
    && a.srcIp == b.srcIp && a.dstIp == b.dstIp && a.srcPort == b.srcPort && a.dstPort == b.dstPort
    && (NotTcp(a) || (PlainAck(a) && NotTcp(b)))
  }

  predicate Alike(a: Packet, b: Packet) {
    SameFlow(a, b) && (IsAck(a) <==> IsAck(b)) && (Raw(a.protoState) <==> Raw(b.protoState))
  }

  lemma AckIsRaw(p: Packet)
    requires IsAck(p)
    ensures Raw(p.protoState)
  {
  }

  // Reassembly fails exactly when such two packets arrive at one interface next to each other.
  lemma {:induction false} FailsExactly(pkts: seq<Packet>)
    ensures Merged(pkts).None? <==> exists k: nat :: FailsAt(pkts, k)
    ensures Merged(pkts).Some? && pkts != [] ==>
              Merged(pkts).value != [] && Alike(Last(Merged(pkts).value), Last(pkts))
    decreases |pkts|
  {
    if pkts != [] {
      FailsExactly(Front(pkts));
      if Merged(Front(pkts)).None? {
        var k: nat :| FailsAt(Front(pkts), k);
        assert FailsAt(pkts, k);
      } else {
        var acc, p, n := Merged(Front(pkts)).value, Last(pkts), |pkts| - 1;
        forall k: nat | k < n ensures !FailsAt(pkts, k) {
          assert !FailsAt(Front(pkts), k);
        }
        if acc != [] && Continues(Last(acc), p) { AckIsRaw(p); AckIsRaw(Last(acc)); }
        if |pkts| > 1 {
          assert Last(Front(pkts)) == pkts[n - 1];
          assert Fails(Last(acc), p) <==> FailsAt(pkts, n);
        }
      }
    }
  }

  // So it never fails on TCP packets.
  lemma TcpNeverFails(pkts: seq<Packet>)
    requires forall k :: 0 <= k < |pkts| ==> Raw(pkts[k].protoState)
    ensures Merged(pkts).Some?
  {
    FailsExactly(pkts);
  }
}
