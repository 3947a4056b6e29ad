/** When an answer reaches the device as the device expects it (src/emulation.cpp:160-233). */
module Masking {
  import opened Addressing
  import opened ConcretePackets
  import opened Emulations
  import opened Options
  import opened Protocols

  // ---- What update_offsets gets to ----

  // A TCP packet of the device itself.
  predicate Maskable(ips: set<Addr>, p: Packet) {
    IsTcpOrRaw(p.protoState) && p.srcIp in ips
  }

  // Packet i is masked: nothing up to it ends the loop.
  predicate IsMasked(ips: set<Addr>, pkts: seq<Packet>, i: nat) {
    i < |pkts| && forall j :: 0 <= j <= i ==> Maskable(ips, pkts[j])
  }

  function Reached(ips: set<Addr>, pkts: seq<Packet>): seq<Packet>
    decreases |pkts|
  {
    if pkts == [] || !Maskable(ips, pkts[0]) then [] else [pkts[0]] + Reached(ips, pkts[1..])
  }

  function ReachedInAll(ips: set<Addr>, batches: seq<seq<Packet>>): seq<Packet>
    decreases |batches|
  {
    if batches == [] then [] else Reached(ips, batches[0]) + ReachedInAll(ips, batches[1..])
  }

  // The offsets after one batch and after several.
  function OffsetsAfter(ips: set<Addr>, o: Offsets, pkts: seq<Packet>): Offsets {
    Masked(ips, o, pkts).0
  }

  function OffsetsAfterAll(ips: set<Addr>, o: Offsets, batches: seq<seq<Packet>>): Offsets
    decreases |batches|
  {
    if batches == [] then o else OffsetsAfterAll(ips, OffsetsAfter(ips, o, batches[0]), batches[1..])
  }

  // What the device sends in answer to each of the packets it is sent.
  function Outputs<S>(box: Middlebox<S>, st: EmuState<S>, pkts: seq<Packet>): seq<seq<Packet>>
    decreases |pkts|
  {
    if pkts == [] then [] else
      [box.step(st.device, Unmasked(box.ips, st.offsets, pkts[0])).1] +
      Outputs(box, Sent(box, st, pkts[0]).0, pkts[1..])
  }

  // Between two resets the offsets depend on the batches the device has sent only.
  lemma {:induction false} OffsetsOfReplay<S>(box: Middlebox<S>, st: EmuState<S>, pkts: seq<Packet>)
    ensures ReplayFrom(box, st, pkts).offsets == OffsetsAfterAll(box.ips, st.offsets, Outputs(box, st, pkts))
    decreases |pkts|
  {
    hide Unmasked, Masked;
    if pkts != [] { OffsetsOfReplay(box, Sent(box, st, pkts[0]).0, pkts[1..]); }
  }

  // ---- What sets the offsets of an endpoint ----

  function KeyOf(p: Packet): Key { Key(p.dstIp, p.dstPort) }

  // SYN and SYN/ACK record their sequence number.
  function NewSeq(k: Key): Packet -> Option<Seq32> {
    p => if KeyOf(p) == k && (Flags(p.protoState) == TH_SYN || Flags(p.protoState) == TH_SYN + TH_ACK)
         then Some(p.seqNo) else None
  }

  // SYN records its distance from the fixed dynamic port, unless its port is well known.
  function NewPort(k: Key): Packet -> Option<Port> {
    p => if KeyOf(p) == k && Flags(p.protoState) == TH_SYN && p.srcPort >= 1024
         then Some(Sub16(p.srcPort, DYNAMIC_PORT)) else None
  }

  // An offset after some packets, where record gives what a packet sets it to.
  function After<T>(v: T, pkts: seq<Packet>, record: Packet -> Option<T>): T
    decreases |pkts|
  {
    if pkts == [] then v else After(if record(pkts[0]).Some? then record(pkts[0]).value else v, pkts[1..], record)
  }

  lemma {:induction false} AfterBoth<T>(v: T, a: seq<Packet>, b: seq<Packet>, record: Packet -> Option<T>)
    ensures After(v, a + b, record) == After(After(v, a, record), b, record)
    decreases |a|
  {
    if a == [] {
      assert a + b == b;
    } else {
      assert (a + b)[0] == a[0] && (a + b)[1..] == a[1..] + b;
      AfterBoth(if record(a[0]).Some? then record(a[0]).value else v, a[1..], b, record);
    }
  }

  // The packets from position l on leave the offset alone.
  predicate SilentFrom<T>(pkts: seq<Packet>, record: Packet -> Option<T>, l: nat) {
    forall j :: l <= j < |pkts| ==> record(pkts[j]).None?
  }

  predicate LastSets<T(==)>(pkts: seq<Packet>, record: Packet -> Option<T>, l: nat, w: T) {
    l < |pkts| && record(pkts[l]) == Some(w) && SilentFrom(pkts, record, l + 1)
  }

  // The last packet that sets the offset sets it to w; it was w before if there is none.
  ghost predicate EndsAt<T>(v: T, pkts: seq<Packet>, record: Packet -> Option<T>, w: T) {
    if SilentFrom(pkts, record, 0) then v == w else exists l: nat :: LastSets(pkts, record, l, w)
  }

  lemma {:induction false} AfterIs<T>(v: T, pkts: seq<Packet>, record: Packet -> Option<T>, w: T)
    ensures After(v, pkts, record) == w <==> EndsAt(v, pkts, record, w)
    decreases |pkts|
  {
    if pkts != [] {
      var v' := if record(pkts[0]).Some? then record(pkts[0]).value else v;
      AfterIs(v', pkts[1..], record, w);
      EndsAtRest(v, pkts, record, w);
    }
  }

  lemma EndsAtRest<T>(v: T, pkts: seq<Packet>, record: Packet -> Option<T>, w: T)
    requires pkts != []
    ensures var v' := if record(pkts[0]).Some? then record(pkts[0]).value else v;
            EndsAt(v, pkts, record, w) <==> EndsAt(v', pkts[1..], record, w)
  {
    var rest := pkts[1..];
    assert forall j :: 0 <= j < |rest| ==> rest[j] == pkts[j + 1];
    SilentRest(pkts, record, 0);
    if record(pkts[0]).Some? && SilentFrom(rest, record, 0) {
      assert LastSets(pkts, record, 0, record(pkts[0]).value);
    }
    if l: nat :| LastSets(rest, record, l, w) {
      SilentRest(pkts, record, l + 1);
      assert LastSets(pkts, record, l + 1, w);
    }
    if l: nat :| LastSets(pkts, record, l, w) {
      if l > 0 {
        SilentRest(pkts, record, l);
        assert LastSets(rest, record, l - 1, w);
      }
    }
  }

  lemma SilentRest<T>(pkts: seq<Packet>, record: Packet -> Option<T>, l: nat)
    requires pkts != []
    ensures SilentFrom(pkts, record, l + 1) <==> SilentFrom(pkts[1..], record, l)
    ensures SilentFrom(pkts, record, 0) <==> record(pkts[0]).None? && SilentFrom(pkts, record, 1)
  {
    var rest := pkts[1..];
    assert forall j :: 0 <= j < |rest| ==> rest[j] == pkts[j + 1];
    if SilentFrom(rest, record, l) {
      forall j | l + 1 <= j < |pkts| ensures record(pkts[j]).None? {
        assert rest[j - 1] == pkts[j];
      }
    }
  }

  lemma MaskOneSets(o: Offsets, p: Packet, k: Key)
    ensures SeqOffset(MaskOne(o, p).0, k) == if NewSeq(k)(p).Some? then NewSeq(k)(p).value else SeqOffset(o, k)
    ensures PortOffset(MaskOne(o, p).0, k) == if NewPort(k)(p).Some? then NewPort(k)(p).value else PortOffset(o, k)
  {
  }

  lemma {:induction false} BatchSets(ips: set<Addr>, o: Offsets, pkts: seq<Packet>, k: Key)
    ensures SeqOffset(OffsetsAfter(ips, o, pkts), k) == After(SeqOffset(o, k), Reached(ips, pkts), NewSeq(k))
    ensures PortOffset(OffsetsAfter(ips, o, pkts), k) == After(PortOffset(o, k), Reached(ips, pkts), NewPort(k))
    decreases |pkts|
  {
    hide MaskOne, SeqOffset, PortOffset, NewSeq, NewPort;
    if pkts != [] && Maskable(ips, pkts[0]) {
      MaskOneSets(o, pkts[0], k);
      BatchSets(ips, MaskOne(o, pkts[0]).0, pkts[1..], k);
      assert ([pkts[0]] + Reached(ips, pkts[1..]))[1..] == Reached(ips, pkts[1..]);
    }
  }

  lemma {:induction false} BatchesSet(ips: set<Addr>, o: Offsets, batches: seq<seq<Packet>>, k: Key)
    ensures SeqOffset(OffsetsAfterAll(ips, o, batches), k) ==
            After(SeqOffset(o, k), ReachedInAll(ips, batches), NewSeq(k))
    ensures PortOffset(OffsetsAfterAll(ips, o, batches), k) ==
            After(PortOffset(o, k), ReachedInAll(ips, batches), NewPort(k))
    decreases |batches|
  {
    hide SeqOffset, PortOffset, NewSeq, NewPort, OffsetsAfter, Reached;
    if batches != [] {
      var o', rest := OffsetsAfter(ips, o, batches[0]), ReachedInAll(ips, batches[1..]);
      BatchSets(ips, o, batches[0], k);
      BatchesSet(ips, o', batches[1..], k);
      AfterBoth(SeqOffset(o, k), Reached(ips, batches[0]), rest, NewSeq(k));
      AfterBoth(PortOffset(o, k), Reached(ips, batches[0]), rest, NewPort(k));
    }
  }

  // ---- One packet of a batch ----

  // A batch is masked up to packet i and then from the offsets at that point on.
  lemma {:induction false} BatchSplit(ips: set<Addr>, o: Offsets, pkts: seq<Packet>, i: nat)
    requires IsMasked(ips, pkts, i)
    ensures var at := OffsetsAfter(ips, o, pkts[..i]);
            && OffsetsAfter(ips, o, pkts) == OffsetsAfter(ips, MaskOne(at, pkts[i]).0, pkts[i + 1..])
            && Masked(ips, o, pkts).1[i] == MaskOne(at, pkts[i]).1
    decreases |pkts|
  {
    hide MaskOne;
    if i == 0 {
      assert pkts[..0] == [];
    } else {
      assert pkts[1..][..i - 1] == pkts[..i][1..] && pkts[1..][i - 1] == pkts[i] && pkts[1..][i..] == pkts[i + 1..];
      BatchSplit(ips, MaskOne(o, pkts[0]).0, pkts[1..], i - 1);
    }
  }

  // A packet the loop does not get to stays as the device sent it.
  lemma {:induction false} NotMasked(ips: set<Addr>, o: Offsets, pkts: seq<Packet>, i: nat)
    requires i < |pkts| && !IsMasked(ips, pkts, i)
    ensures Masked(ips, o, pkts).1[i] == pkts[i]
    decreases |pkts|
  {
    hide MaskOne;
    if Maskable(ips, pkts[0]) {
      assert i > 0 && pkts[1..][i - 1] == pkts[i];
      if IsMasked(ips, pkts[1..], i - 1) {
        forall j | 0 <= j <= i ensures Maskable(ips, pkts[j]) {
          assert j > 0 ==> pkts[1..][j - 1] == pkts[j];
        }
      }
      NotMasked(ips, MaskOne(o, pkts[0]).0, pkts[1..], i - 1);
    }
  }

  // ---- Answers ----

  // The model's answer to a packet it sees: it addresses the seen port and acknowledges n more than
  // the seen sequence number.
  ghost predicate Answers(seen: Packet, n: nat, reply: Packet) {
    && reply.srcIp == seen.dstIp && reply.srcPort == seen.dstPort
    && reply.dstIp == seen.srcIp && reply.dstPort == seen.srcPort
    && reply.ackNo == Add32(seen.seqNo, n) && IsTcpOrRaw(reply.protoState)
  }

  // What the device expects in answer to its packet p.
  predicate RightNumber(p: Packet, n: nat, got: Packet) { got.ackNo == Add32(p.seqNo, n) }

  predicate RightPort(p: Packet, got: Packet) { got.dstPort == p.srcPort }

  // A SYN from a well-known port is sent on as it is, whatever port offset is recorded.
  predicate KeepsPort(p: Packet) { Flags(p.protoState) == TH_SYN && p.srcPort < 1024 }

  // What was subtracted from a masked packet, where o are the offsets right after it.
  function SeqTaken(o: Offsets, p: Packet): Seq32 { SeqOffset(o, KeyOf(p)) }

  function PortTaken(o: Offsets, p: Packet): Port { if KeepsPort(p) then 0 else PortOffset(o, KeyOf(p)) }

  lemma Taken(o: Offsets, p: Packet)
    ensures var (o', seen) := MaskOne(o, p);
            && seen == p.(seqNo := Sub32(p.seqNo, SeqTaken(o', p)), srcPort := Sub16(p.srcPort, PortTaken(o', p)))
  {
  }

  lemma SameShift32(s: Seq32, a: Seq32, b: Seq32, n: nat)
    ensures Add32(Add32(Sub32(s, a), n), b) == Add32(s, n) <==> a == b
  {
  }

  lemma SameShift16(s: Port, a: Port, b: Port)
    ensures Add16(Sub16(s, a), b) == s <==> a == b
  {
  }

  // An answer sent with offsets o to a packet from which taken and port were subtracted.
  lemma ShiftedBack(ips: set<Addr>, o: Offsets, p: Packet, taken: Seq32, port: Port, n: nat, reply: Packet)
    requires p.srcIp in ips
    requires Answers(p.(seqNo := Sub32(p.seqNo, taken), srcPort := Sub16(p.srcPort, port)), n, reply)
    ensures RightNumber(p, n, Unmasked(ips, o, reply)) <==> SeqOffset(o, KeyOf(p)) == taken
    ensures RightPort(p, Unmasked(ips, o, reply)) <==> PortOffset(o, KeyOf(p)) == port
  {
    hide SeqOffset, PortOffset, Add32, Sub32, Add16, Sub16, IsTcpOrRaw;
    SameShift32(p.seqNo, taken, SeqOffset(o, KeyOf(p)), n);
    SameShift16(p.srcPort, port, PortOffset(o, KeyOf(p)));
  }

  // The offsets right after packet i was masked, or at the end of the batch if the loop ended first.
  function OffsetsAt(ips: set<Addr>, o: Offsets, batch: seq<Packet>, i: nat): Offsets
    requires i < |batch|
  {
    if IsMasked(ips, batch, i) then MaskOne(OffsetsAfter(ips, o, batch[..i]), batch[i]).0
    else OffsetsAfter(ips, o, batch)
  }

  // What was subtracted from packet i before the model saw it.
  function TakenAt(ips: set<Addr>, o: Offsets, batch: seq<Packet>, i: nat): (Seq32, Port)
    requires i < |batch|
  {
    var at := OffsetsAt(ips, o, batch, i);
    if IsMasked(ips, batch, i) then (SeqTaken(at, batch[i]), PortTaken(at, batch[i])) else (0, 0)
  }

  // The packets the loop got to since then, in this batch and later ones.
  function Since(ips: set<Addr>, batch: seq<Packet>, i: nat, later: seq<seq<Packet>>): seq<Packet>
    requires i < |batch|
  {
    (if IsMasked(ips, batch, i) then Reached(ips, batch[i + 1..]) else []) + ReachedInAll(ips, later)
  }

  lemma SeenAt(ips: set<Addr>, o: Offsets, batch: seq<Packet>, i: nat)
    requires i < |batch|
    ensures var (taken, port) := TakenAt(ips, o, batch, i);
            Masked(ips, o, batch).1[i] ==
            batch[i].(seqNo := Sub32(batch[i].seqNo, taken), srcPort := Sub16(batch[i].srcPort, port))
  {
    hide Masked, MaskOne, Sub32, Sub16, SeqTaken, PortTaken;
    if IsMasked(ips, batch, i) {
      BatchSplit(ips, o, batch, i);
      Taken(OffsetsAfter(ips, o, batch[..i]), batch[i]);
    } else {
      NotMasked(ips, o, batch, i);
      SubZero(batch[i].seqNo, batch[i].srcPort);
    }
  }

  lemma SubZero(s: Seq32, port: Port)
    ensures Sub32(s, 0) == s && Sub16(port, 0) == port
  {
  }

  // What the model sees of the device's answer to a packet: packet i with what was taken from its
  // number and port, so a SYN that was reached shows number 0, and port 49152 unless it is well known.
  lemma SeenOfAnswer<S>(box: Middlebox<S>, st: EmuState<S>, p: Packet, i: nat)
    requires i < |box.step(st.device, Unmasked(box.ips, st.offsets, p)).1|
    ensures var out, seen := box.step(st.device, Unmasked(box.ips, st.offsets, p)).1, Sent(box, st, p).1;
            var (taken, port) := TakenAt(box.ips, st.offsets, out, i);
            && |seen| == |out|
            && seen[i] == out[i].(seqNo := Sub32(out[i].seqNo, taken), srcPort := Sub16(out[i].srcPort, port))
            && (IsMasked(box.ips, out, i) && Flags(out[i].protoState) == 0x02 ==>
                  seen[i].seqNo == 0 && seen[i].srcPort == if out[i].srcPort >= 1024 then 49152 else out[i].srcPort)
            && (!IsMasked(box.ips, out, i) ==> seen[i] == out[i])
  {
    hide Masked;
    var out := box.step(st.device, Unmasked(box.ips, st.offsets, p)).1;
    SeenAt(box.ips, st.offsets, out, i);
    if !IsMasked(box.ips, out, i) { SubZero(out[i].seqNo, out[i].srcPort); }
  }

  lemma OffsetsSince(ips: set<Addr>, o: Offsets, batch: seq<Packet>, i: nat, later: seq<seq<Packet>>, k: Key)
    requires i < |batch|
    ensures var at, now := OffsetsAt(ips, o, batch, i), OffsetsAfterAll(ips, o, [batch] + later);
            && SeqOffset(now, k) == After(SeqOffset(at, k), Since(ips, batch, i, later), NewSeq(k))
            && PortOffset(now, k) == After(PortOffset(at, k), Since(ips, batch, i, later), NewPort(k))
  {
    hide OffsetsAfter, MaskOne, SeqOffset, PortOffset, NewSeq, NewPort, Reached, ReachedInAll, IsMasked;
    var at, end, since := OffsetsAt(ips, o, batch, i), OffsetsAfter(ips, o, batch), ReachedInAll(ips, later);
    assert ([batch] + later)[1..] == later;
    BatchesSet(ips, end, later, k);
    if IsMasked(ips, batch, i) {
      BatchSplit(ips, o, batch, i);
      BatchSets(ips, at, batch[i + 1..], k);
      AfterBoth(SeqOffset(at, k), Reached(ips, batch[i + 1..]), since, NewSeq(k));
      AfterBoth(PortOffset(at, k), Reached(ips, batch[i + 1..]), since, NewPort(k));
    } else {
      assert [] + since == since;
    }
  }

  // An answer to packet i of a batch, given after the whole batch and any later ones, reaches the
  // device with the number it expects exactly when the recorded sequence offset is then what was
  // subtracted from the packet, and with the port it expects exactly when the port offset is.
  lemma AnswerIsUnmasked(ips: set<Addr>, o: Offsets, batch: seq<Packet>, i: nat, later: seq<seq<Packet>>, n: nat,
                         reply: Packet)
    requires i < |batch| && batch[i].srcIp in ips && Answers(Masked(ips, o, batch).1[i], n, reply)
    ensures var p, now := batch[i], OffsetsAfterAll(ips, o, [batch] + later);
            var got, (taken, port) := Unmasked(ips, now, reply), TakenAt(ips, o, batch, i);
            && (RightNumber(p, n, got) <==> SeqOffset(now, KeyOf(p)) == taken)
            && (RightPort(p, got) <==> PortOffset(now, KeyOf(p)) == port)
  {
    hide *;
    SeenAt(ips, o, batch, i);
    var now := OffsetsAfterAll(ips, o, [batch] + later);
    var (taken, port) := TakenAt(ips, o, batch, i);
    ShiftedBack(ips, now, batch[i], taken, port, n, reply);
  }

  // In terms of packets: exactly when, of the packets to the same endpoint the loop got to since,
  // the last that sets the offset sets it to what was subtracted, or none does and it still is.
  lemma AnswerDependsOnLast(ips: set<Addr>, o: Offsets, batch: seq<Packet>, i: nat, later: seq<seq<Packet>>, n: nat,
                            reply: Packet)
    requires i < |batch| && batch[i].srcIp in ips && Answers(Masked(ips, o, batch).1[i], n, reply)
    ensures var p, k, at := batch[i], KeyOf(batch[i]), OffsetsAt(ips, o, batch, i);
            var got := Unmasked(ips, OffsetsAfterAll(ips, o, [batch] + later), reply);
            var (taken, port), since := TakenAt(ips, o, batch, i), Since(ips, batch, i, later);
            && (RightNumber(p, n, got) <==> EndsAt(SeqOffset(at, k), since, NewSeq(k), taken))
            && (RightPort(p, got) <==> EndsAt(PortOffset(at, k), since, NewPort(k), port))
  {
    hide *;
    var k, at, since := KeyOf(batch[i]), OffsetsAt(ips, o, batch, i), Since(ips, batch, i, later);
    var (taken, port) := TakenAt(ips, o, batch, i);
    AnswerIsUnmasked(ips, o, batch, i, later, n, reply);
    OffsetsSince(ips, o, batch, i, later, k);
    AfterIs(SeqOffset(at, k), since, NewSeq(k), taken);
    AfterIs(PortOffset(at, k), since, NewPort(k), port);
  }

  // Every SYN and SYN/ACK to the same endpoint among the packets repeats p.
  predicate OnlyRepeats(pkts: seq<Packet>, p: Packet) {
    forall j :: 0 <= j < |pkts| && NewSeq(KeyOf(p))(pkts[j]).Some? ==>
      pkts[j].seqNo == p.seqNo && pkts[j].srcPort == p.srcPort && Flags(pkts[j].protoState) == Flags(p.protoState)
  }

  lemma KeptBySame<T>(v: T, pkts: seq<Packet>, record: Packet -> Option<T>)
    requires forall j :: 0 <= j < |pkts| && record(pkts[j]).Some? ==> record(pkts[j]).value == v
    ensures EndsAt(v, pkts, record, v)
  {
    AfterIs(v, pkts, record, v);
    AfterSame(v, pkts, record);
  }

  lemma {:induction false} AfterSame<T>(v: T, pkts: seq<Packet>, record: Packet -> Option<T>)
    requires forall j :: 0 <= j < |pkts| && record(pkts[j]).Some? ==> record(pkts[j]).value == v
    ensures After(v, pkts, record) == v
    decreases |pkts|
  {
    if pkts != [] { AfterSame(v, pkts[1..], record); }
  }

  // A caller's check: packet i opens or accepts a connection, nothing ahead of it in the batch ends
  // the loop, the packet replaces the port offset or there was none, and no other connection to the
  // endpoint is opened or accepted since. Then number and port are right.
  lemma AnswerReachesDevice(ips: set<Addr>, o: Offsets, batch: seq<Packet>, i: nat, later: seq<seq<Packet>>, n: nat,
                            reply: Packet)
    requires IsMasked(ips, batch, i) && Answers(Masked(ips, o, batch).1[i], n, reply)
    requires NewSeq(KeyOf(batch[i]))(batch[i]).Some?
    requires NewPort(KeyOf(batch[i]))(batch[i]).Some? ||
             PortOffset(OffsetsAfter(ips, o, batch[..i]), KeyOf(batch[i])) == 0
    requires OnlyRepeats(Since(ips, batch, i, later), batch[i])
    ensures var got := Unmasked(ips, OffsetsAfterAll(ips, o, [batch] + later), reply);
            RightNumber(batch[i], n, got) && RightPort(batch[i], got)
  {
    hide Masked, Unmasked, Since, OffsetsAfter, OffsetsAfterAll, RightNumber, RightPort, Sub16, EndsAt, Answers;
    var p, k, at, since := batch[i], KeyOf(batch[i]), OffsetsAt(ips, o, batch, i), Since(ips, batch, i, later);
    AnswerDependsOnLast(ips, o, batch, i, later, n, reply);
    KeptBySame(SeqOffset(at, k), since, NewSeq(k));
    KeptBySame(PortOffset(at, k), since, NewPort(k));
  }
}
