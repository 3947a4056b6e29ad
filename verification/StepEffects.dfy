/** What one step changes in a connection, and what it leaves alone
    (src/process/forwarding.cpp:64-324). */
module StepEffects {
  import opened Forwarding
  import opened NextHops
  import opened Options

  // ---- Collecting and forwarding ----

  // A remembered choice is the only candidate while it is one of several next hops; otherwise all
  // next hops are on offer, in particular when the remembered one is none any more.
  lemma CandidatesOffered(c: Conn, count: nat)
    requires c.loc in c.fib && c.fib[c.loc] != []
    ensures CollectNextHops(c, count).Some?
    ensures var hops, e := c.fib[c.loc], CollectNextHops(c, count).value;
            && e.c == c.(mode := ForwardPacket, candidates := e.c.candidates)
            && e.c.candidates.Some? && e.count == |e.c.candidates.value|
            && forall h :: h in e.c.candidates.value <==>
                 h in hops && (|hops| == 1 || (c.dstEc, c.loc) !in c.choices || c.choices[(c.dstEc, c.loc)] == h ||
                               c.choices[(c.dstEc, c.loc)] !in hops)
  {
    assert c.fib[c.loc][0] in c.fib[c.loc];
  }

  // A packet without a next hop is dropped on the spot, but at its first node it is left in the mode
  // for its first hop; a dropped packet is only marked.
  lemma DropEffect(env: Env, c: Conn, choice: nat, count: nat)
    requires c.mode == Dropped || ((c.mode == FirstCollect || c.mode == CollectNhops) &&
                                   c.loc !in env.emulated && c.loc in c.fib && c.fib[c.loc] == [])
    ensures Step(env, c, choice, count) ==
            Some(Effect(c.(mode := if c.mode == FirstCollect then FirstForward else Dropped, executable := 0), count))
  {
  }

  // The candidates on offer, in the mode for the first hop at the first node; no step at a middlebox
  // or at a node without a FIB entry.
  lemma FirstCandidates(env: Env, c: Conn, choice: nat, count: nat)
    requires c.mode == FirstCollect || c.mode == CollectNhops
    ensures c.loc in env.emulated || c.loc !in c.fib ==> Step(env, c, choice, count).None?
    ensures c.loc !in env.emulated && c.loc in c.fib && c.fib[c.loc] != [] ==>
              var e := CollectNextHops(c, count);
              var mode := if c.mode == FirstCollect then FirstForward else ForwardPacket;
              e.Some? && Step(env, c, choice, count) == Some(Effect(e.value.c.(mode := mode), e.value.count))
  {
  }

  // The hop chosen decides where the packet goes, where it enters, who receives the connection's
  // first packet and what is remembered. Nothing else changes.
  lemma HopEffect(env: Env, c: Conn, choice: nat)
    ensures DoForwardPacket(env, c, choice).None? <==>
            c.candidates.None? || choice >= |c.candidates.value| ||
            (|c.candidates.value| > 1 && (c.dstEc, c.loc) in c.choices)
    ensures DoForwardPacket(env, c, choice).Some? ==>
              var e, hop := DoForwardPacket(env, c, choice).value, c.candidates.value[choice];
              var here, first := hop.l3Node == c.loc, c.protoState == 1 || c.protoState == 11 || c.protoState == 13;
              && e.c.mode == (if here then Accepted else CollectNhops) && e.c.loc == hop.l3Node && e.count == 1
              && e.c.ingress == (if here then c.ingress else hop.l3Intf)
              && e.c.executable == (if !here && hop.l3Node in env.emulated then 1 else c.executable)
              && e.c.rxNode == (if first && (here || hop.l3Node in env.emulated) then Some(hop.l3Node) else c.rxNode)
              && e.c.choices == (if |c.candidates.value| > 1 then c.choices[(c.dstEc, c.loc) := hop] else c.choices)
              && e.c == c.(mode := e.c.mode, loc := e.c.loc, ingress := e.c.ingress, executable := e.c.executable,
                           rxNode := e.c.rxNode, choices := e.c.choices)
  {
  }

  // The first packet of a connection without a source address gets that of the interface it leaves
  // through, or the loopback interface's when it stays at its node; every other packet keeps its own.
  lemma SourceGiven(env: Env, c: Conn, choice: nat)
    requires DoFirstForward(env, c, choice).Some?
    ensures c.candidates.Some? && choice < |c.candidates.value|
    ensures var d, hop := DoFirstForward(env, c, choice).value.c, c.candidates.value[choice];
            var unset := (c.protoState == 1 || c.protoState == 11 || c.protoState == 13) && c.srcIp == 0;
            && (unset && hop.l2Intf.Some? ==> Some(d.srcIp) == env.egressAddr(c.loc, hop))
            && (unset && hop.l2Intf.None? ==>
                  hop == Ipnh(c.loc, None, c.loc, None) && Some(d.srcIp) == env.loopback(c.loc))
            && (!unset ==> d.srcIp == c.srcIp)
            && Some(Effect(d, 1)) == DoForwardPacket(env, c.(srcIp := d.srcIp), choice)
  {
  }

  // ---- Delivered packets ----

  // States whose packet is answered from where it was delivered; the server's last acknowledgement
  // is followed by the server itself only when a middlebox received it.
  predicate Answered(ps: nat, atMiddlebox: bool) {
    ps == 1 || ps == 2 || ps == 4 || ps == 6 || ps == 8 || ps == 9 || ps == 11 || ps == 13 || (ps == 7 && !atMiddlebox)
  }

  // States whose sender goes on.
  predicate Continued(ps: nat, atMiddlebox: bool) { ps == 3 || ps == 5 || (ps == 7 && atMiddlebox) }

  // What a delivered TCP packet adds to its sender's sequence number.
  function Advance(ps: nat, payload: nat): nat {
    if payload > 0 then payload else if ps == 1 || ps == 2 || ps == 8 || ps == 9 then 1 else 0
  }

  // The fields every new packet has.
  predicate Restarted(env: Env, c: Conn, d: Conn) {
    && d.protoState == c.protoState + 1 && d.mode == FirstCollect && d.ingress == None && d.candidates == None
    && d.payload == env.payloadOf(d.dstEc, d.dstPort, d.protoState)
    && d.executable == c.executable && d.txNode == c.txNode && d.rxNode == c.rxNode && d.choices == c.choices
  }

  // The answer goes from the node of the delivery back to the class of the source address: ports
  // change places, so do the numbers, and the address it comes from is the class's representative.
  lemma TurnEffect(env: Env, c: Conn, count: nat)
    requires Answered(c.protoState, false) && c.loc !in env.emulated
    ensures DoAccepted(env, c, count).None? <==> env.ecOf(c.srcIp) == 0
    ensures DoAccepted(env, c, count).Some? ==>
              var e := DoAccepted(env, c, count).value;
              && e.count == count && Restarted(env, c, e.c)
              && e.c.srcPort == c.dstPort && e.c.dstPort == c.srcPort
              && e.c.srcNode == c.loc && e.c.loc == c.loc
              && e.c.srcIp == env.repOf(c.dstEc) && e.c.dstEc == env.ecOf(c.srcIp)
              && e.c.fib == env.fibOf(env.ecOf(c.srcIp))
              && (e.c.seqNo, e.c.ackNo) ==
                 if c.protoState <= 10 then (c.ackNo, (c.seqNo + Advance(c.protoState, c.payload)) % 0x1_0000_0000)
                 else (c.seqNo, c.ackNo)
  {
  }

  // The next packet of the same sender starts where the last one did, between the same endpoints.
  lemma StayEffect(env: Env, c: Conn, count: nat)
    requires Continued(c.protoState, c.loc in env.emulated) && c.srcNode !in env.emulated
    ensures DoAccepted(env, c, count).Some?
    ensures var e := DoAccepted(env, c, count).value;
            && e.count == count && Restarted(env, c, e.c)
            && e.c.srcPort == c.srcPort && e.c.dstPort == c.dstPort && e.c.srcNode == c.srcNode && e.c.loc == c.srcNode
            && e.c.srcIp == c.srcIp && e.c.dstEc == c.dstEc && e.c.fib == c.fib
            && e.c.seqNo == (c.seqNo + Advance(c.protoState, c.payload)) % 0x1_0000_0000 && e.c.ackNo == c.ackNo
  {
  }

  // After its last packet, and when a middlebox has to send the next one, the connection only stops
  // being executable. In no other state is anything defined.
  lemma StopEffect(env: Env, c: Conn, count: nat)
    ensures var ps, emulated := c.protoState, c.loc in env.emulated;
            (ps == 10 || ps == 12 || ps == 14 || (Answered(ps, emulated) && emulated) ||
             (Continued(ps, emulated) && c.srcNode in env.emulated)) ==>
              DoAccepted(env, c, count) == Some(Effect(c.(executable := 0), count))
    ensures c.protoState == 0 || c.protoState > 14 ==> DoAccepted(env, c, count).None?
  {
  }
}
