/** Sequence numbers and endpoints over a session (src/process/forwarding.cpp:203-324,
    src/lib/net.cpp:671-710). */
module TcpSessions {
  import opened Addressing
  import opened Protocols
  import opened EcRanges
  import opened EcRequests
  import opened EqClasses
  import opened Forwarding
  import opened StepEffects
  import Exactness

  // ---- Sequence numbers count bytes, SYN and FIN ----

  // A delivered packet of a session.
  datatype Segment = Segment(state: nat, payload: nat)

  // The server opens the termination when both ends are modelled.
  predicate ServerSends(ps: nat) {
    ps == TCP_INIT_2 || ps == TCP_L7_REQ_A || ps == TCP_L7_REP || ps == TCP_TERM_1 || ps == TCP_TERM_3
  }

  // The sequence space of a segment (section 3.4 of RFC 9293): its bytes, and one each for SYN
  // and FIN.
  function Length(s: Segment): nat {
    s.payload + (if HasSyn(s.state) then 1 else 0) + (if HasFin(s.state) then 1 else 0)
  }

  // What one side has sent.
  function SentBy(sent: seq<Segment>, server: bool): nat
    decreases |sent|
  {
    if sent == [] then 0
    else SentBy(sent[..|sent| - 1], server) +
         if ServerSends(sent[|sent| - 1].state) == server then Length(sent[|sent| - 1]) else 0
  }

  // Payloads are carried by requests and replies only.
  ghost predicate PayloadsSound(env: Env) {
    forall e, port, ps :: env.payloadOf(e, port, ps) > 0 ==> ps == TCP_L7_REQ || ps == TCP_L7_REP
  }

  // The delivered packets of a run, each followed by the next packet of the session.
  function Delivered(env: Env, c: Conn, choices: seq<nat>): seq<Segment>
    decreases |choices|
  {
    if choices == [] || Step(env, c, choices[0], ChoiceCount(c)).None? then [] else
      var next := Step(env, c, choices[0], ChoiceCount(c)).value.c;
      (if c.mode == Accepted && next.mode == FirstCollect then [Segment(c.protoState, c.payload)] else []) +
      Delivered(env, next, choices[1..])
  }

  // The current packet starts where its sender's earlier packets end, and acknowledges the other
  // side's.
  ghost predicate NumbersCount(c: Conn, sent: seq<Segment>) {
    NumbersAre(c, SentBy(sent, false), SentBy(sent, true))
  }

  // The same for what client and server have sent so far.
  predicate NumbersAre(c: Conn, client: nat, server: nat) {
    if ServerSends(c.protoState)
    then c.seqNo == server % 0x1_0000_0000 && c.ackNo == client % 0x1_0000_0000
    else c.seqNo == client % 0x1_0000_0000 && c.ackNo == server % 0x1_0000_0000
  }

  ghost predicate TcpSound(c: Conn) {
    IsTcp(c.protoState) && (c.payload > 0 ==> c.protoState == TCP_L7_REQ || c.protoState == TCP_L7_REP)
  }

  lemma Snoc(sent: seq<Segment>, s: Segment, server: bool)
    ensures SentBy(sent + [s], server) == SentBy(sent, server) + if ServerSends(s.state) == server then Length(s) else 0
  {
    assert (sent + [s])[..|sent|] == sent;
  }

  lemma AddSent(total: nat, n: nat)
    ensures Add32(total % 0x1_0000_0000, n) == (total + n) % 0x1_0000_0000
  {
  }

  lemma PhaseNumbers(env: Env, c: Conn, ps: nat, turn: bool)
    requires env.emulated == {} && PayloadsSound(env) && IsTcp(c.protoState) && IsTcp(ps)
    requires PhaseTransition(env, c, ps, turn).Some?
    ensures var next := PhaseTransition(env, c, ps, turn).value;
            var s := Add32(c.seqNo, Occupies(c.protoState, c.payload));
            && next.mode == FirstCollect && next.protoState == ps && TcpSound(next)
            && (next.seqNo, next.ackNo) == if turn then (c.ackNo, s) else (s, c.ackNo)
  {
  }

  // A phase change adds the delivered packet to what its sender has sent.
  lemma PhaseCounts(env: Env, c: Conn, client: nat, server: nat)
    requires env.emulated == {} && PayloadsSound(env) && TcpSound(c) && NumbersAre(c, client, server)
    requires c.mode == Accepted && DoAccepted(env, c, 1).Some?
    ensures var next, s := DoAccepted(env, c, 1).value.c, Segment(c.protoState, c.payload);
            TcpSound(next) &&
            if next.mode != FirstCollect then NumbersAre(next, client, server) && next.mode == Accepted
            else if ServerSends(s.state) then NumbersAre(next, client, server + Length(s))
            else NumbersAre(next, client + Length(s), server)
  {
    hide PhaseTransition, NextNumbers, Occupies, Add32;
    match After(c.protoState, false) {
      case Next(ps, turn) => PhaseNumbers(env, c, ps, turn);
      case Final =>
    }
    OccupiesIsLength(c.protoState, c.payload);
    AddSent(client, Length(Segment(c.protoState, c.payload)));
    AddSent(server, Length(Segment(c.protoState, c.payload)));
  }

  predicate SameHeader(c: Conn, d: Conn) {
    && d.protoState == c.protoState && d.payload == c.payload && d.seqNo == c.seqNo && d.ackNo == c.ackNo
    && d.srcPort == c.srcPort && d.dstPort == c.dstPort
  }

  lemma CollectKeeps(c: Conn, count: nat)
    requires CollectNextHops(c, count).Some?
    ensures SameHeader(c, CollectNextHops(c, count).value.c)
  {
  }

  lemma ForwardKeeps(env: Env, c: Conn, choice: nat)
    ensures DoForwardPacket(env, c, choice).Some? ==> SameHeader(c, DoForwardPacket(env, c, choice).value.c)
  {
  }

  lemma HeaderKept(env: Env, c: Conn, choice: nat)
    requires c.mode != Accepted && Step(env, c, choice, ChoiceCount(c)).Some?
    ensures var next := Step(env, c, choice, ChoiceCount(c)).value.c;
            SameHeader(c, next)
  {
    hide CollectNextHops, DoForwardPacket;
    match c.mode {
      case FirstForward =>
        ForwardKeeps(env, c, choice);
        if Choosable(c, choice) && SourceAddr(env, c, c.candidates.value[choice]).Some? {
          ForwardKeeps(env, c.(srcIp := SourceAddr(env, c, c.candidates.value[choice]).value), choice);
        }
      case ForwardPacket => ForwardKeeps(env, c, choice);
      case FirstCollect => CollectKeeps(c, ChoiceCount(c));
      case CollectNhops => CollectKeeps(c, ChoiceCount(c));
      case Dropped =>
    }
  }

  lemma {:induction false} CountsAlong(env: Env, c: Conn, choices: seq<nat>, sent: seq<Segment>)
    requires env.emulated == {} && PayloadsSound(env) && TcpSound(c) && NumbersCount(c, sent)
    requires LocalRun(env, c, choices).Some?
    ensures var d := LocalRun(env, c, choices).value;
            TcpSound(d) && NumbersCount(d, sent + Delivered(env, c, choices))
    decreases |choices|
  {
    hide NumbersCount, TcpSound, PayloadsSound, Step, SentBy;
    if choices == [] {
      assert sent + [] == sent;
    } else {
      var next := Step(env, c, choices[0], ChoiceCount(c)).value.c;
      StepCounts(env, c, choices[0], sent);
      var now := if c.mode == Accepted && next.mode == FirstCollect then [Segment(c.protoState, c.payload)] else [];
      if now == [] { assert sent + now == sent; }
      CountsAlong(env, next, choices[1..], sent + now);
      assert sent + now + Delivered(env, next, choices[1..]) == sent + (now + Delivered(env, next, choices[1..]));
    }
  }

  lemma StepCounts(env: Env, c: Conn, choice: nat, sent: seq<Segment>)
    requires env.emulated == {} && PayloadsSound(env) && TcpSound(c) && NumbersCount(c, sent)
    requires Step(env, c, choice, ChoiceCount(c)).Some?
    ensures var next := Step(env, c, choice, ChoiceCount(c)).value.c;
            TcpSound(next) &&
            NumbersCount(next, sent + if c.mode == Accepted && next.mode == FirstCollect
                                      then [Segment(c.protoState, c.payload)] else [])
  {
    hide PayloadsSound, SentBy, DoAccepted, DoFirstCollect, DoFirstForward, DoForwardPacket, CollectNextHops;
    assert sent + [] == sent;
    if c.mode == Accepted {
      PhaseCounts(env, c, SentBy(sent, false), SentBy(sent, true));
      Snoc(sent, Segment(c.protoState, c.payload), false);
      Snoc(sent, Segment(c.protoState, c.payload), true);
    } else {
      HeaderKept(env, c, choice);
    }
  }

  // At every point of every session between modelled endpoints, from its start with both numbers 0,
  // the sequence number is what the sender has sent so far and the acknowledgement number is what
  // it has received.
  lemma SessionCounts(env: Env, c: Conn, choices: seq<nat>)
    requires env.emulated == {} && PayloadsSound(env)
    requires c.protoState == TCP_INIT_1 && c.seqNo == 0 && c.ackNo == 0 && c.payload == 0
    requires LocalRun(env, c, choices).Some?
    ensures NumbersCount(LocalRun(env, c, choices).value, Delivered(env, c, choices))
  {
    hide LocalRun, Delivered;
    CountsAlong(env, c, choices, []);
    assert [] + Delivered(env, c, choices) == Delivered(env, c, choices);
  }

  // ---- Ports change with the direction ----

  predicate FromServer(ps: nat) { ServerSends(ps) || ps == UDP_REP || ps == ICMP_REP }

  // Packets go between these two ports, from the server's when the server sends.
  predicate PortsAre(c: Conn, client: nat, server: nat) {
    if FromServer(c.protoState) then c.srcPort == server && c.dstPort == client
    else c.srcPort == client && c.dstPort == server
  }

  lemma PhasePorts(env: Env, c: Conn, client: nat, server: nat)
    requires env.emulated == {} && PortsAre(c, client, server) && DoAccepted(env, c, 1).Some?
    ensures PortsAre(DoAccepted(env, c, 1).value.c, client, server)
  {
    hide DoAccepted;
    StopEffect(env, c, 1);
    if Answered(c.protoState, false) {
      TurnEffect(env, c, 1);
    } else if Continued(c.protoState, false) && c.srcNode !in env.emulated {
      StayEffect(env, c, 1);
    }
  }

  // At every point of every session between modelled endpoints, of any protocol, the ports are
  // those it started with, in the order of the packet's direction.
  lemma {:induction false} PortsFollow(env: Env, c: Conn, choices: seq<nat>, client: nat, server: nat)
    requires env.emulated == {} && PortsAre(c, client, server) && LocalRun(env, c, choices).Some?
    ensures PortsAre(LocalRun(env, c, choices).value, client, server)
    decreases |choices|
  {
    hide PortsAre, DoAccepted, DoFirstCollect, DoFirstForward, DoForwardPacket, CollectNextHops;
    if choices != [] {
      var next := Step(env, c, choices[0], ChoiceCount(c)).value.c;
      if c.mode == Accepted {
        PhasePorts(env, c, client, server);
      } else {
        HeaderKept(env, c, choices[0]);
        SameHeaderPorts(c, next, client, server);
      }
      PortsFollow(env, next, choices[1..], client, server);
    }
  }

  lemma SameHeaderPorts(c: Conn, d: Conn, client: nat, server: nat)
    requires SameHeader(c, d) && PortsAre(c, client, server)
    ensures PortsAre(d, client, server)
  {
  }

  // The numbers are advanced by the sequence space of the packet exactly when a payload does not
  // come with SYN or FIN.
  lemma OccupiesIsLength(ps: nat, payload: nat)
    ensures Occupies(ps, payload) == Length(Segment(ps, payload)) <==>
            !(payload > 0 && (HasSyn(ps) || HasFin(ps)))
  {
  }

  // ---- What is accepted from a middlebox ----

  // A received TCP packet after its connection and state were identified.
  datatype Received = Received(isNew: bool, nextPhase: bool, oppositeDir: bool,
                               seqNo: Seq32, ackNo: Seq32, samePayload: bool)

  // False for a failed assertion.
  method CheckSeqAck(c: Conn, tcp: bool, p: Received) returns (ok: bool)
    ensures !tcp ==> ok
    ensures tcp && p.isNew ==> (ok <==> p.seqNo == 0 && p.ackNo == 0)
    ensures tcp && !p.isNew && !p.nextPhase ==> (ok <==> p.seqNo == c.seqNo && p.ackNo == c.ackNo && p.samePayload)
    ensures tcp && !p.isNew && p.nextPhase && IsTcp(c.protoState) ==>
              (ok <==> (p.seqNo, p.ackNo) == NextNumbers(c, p.oppositeDir))
  {
    if !tcp { return true; }
    if p.isNew { return p.seqNo == 0 && p.ackNo == 0; }
    if p.nextPhase {
      var oldSeq, oldAck := c.seqNo, c.ackNo;
      if c.payload > 0 {
        oldSeq := (oldSeq + c.payload) % 0x1_0000_0000;
      } else if HasSyn(c.protoState) || HasFin(c.protoState) {
        oldSeq := (oldSeq + 1) % 0x1_0000_0000;
      }
      if p.oppositeDir {
        ok := p.seqNo == oldAck && p.ackNo == oldSeq;
      } else {
        ok := p.seqNo == oldSeq && p.ackNo == oldAck;
      }
      return;
    }
    return p.seqNo == c.seqNo && p.ackNo == c.ackNo && p.samePayload;
  }

  // Answering a request without acknowledging it first leads to the same state as acknowledging it.
  lemma SkippingRequestAck(env: Env, c: Conn)
    requires env.emulated == {} && PayloadsSound(env) && c.protoState == TCP_L7_REQ && env.ecOf(c.srcIp) != 0
    ensures PhaseTransition(env, c, TCP_L7_REQ_A, true).Some?
    ensures PhaseTransition(env, PhaseTransition(env, c, TCP_L7_REQ_A, true).value, TCP_L7_REP, false) ==
            PhaseTransition(env, c, TCP_L7_REP, true)
  {
    var a := PhaseTransition(env, c, TCP_L7_REQ_A, true).value;
    assert a.payload == 0 && NextNumbers(a, false) == (a.seqNo, a.ackNo);
  }

  // ---- Turning twice comes back ----

  // Who talks to whom.
  predicate SameEndpoints(c: Conn, d: Conn) {
    c.srcIp == d.srcIp && c.dstEc == d.dstEc && c.srcPort == d.srcPort && c.dstPort == d.dstPort
  }

  // The packet was accepted and its answer goes the other way.
  predicate Turns(env: Env, c: Conn) {
    c.mode == Accepted && Known(c.protoState) &&
    match After(c.protoState, c.loc in env.emulated)
    case Final => false
    case Next(_, turn) => turn
  }

  // The connection after that.
  function Turned(env: Env, c: Conn): Conn
    requires Turns(env, c) && DoAccepted(env, c, 1).Some?
  {
    DoAccepted(env, c, 1).value.c
  }

  // No step of the run changes the direction.
  predicate KeepsDirection(env: Env, c: Conn, choices: seq<nat>)
    decreases |choices|
  {
    choices == [] ||
    (!Turns(env, c) &&
     (Step(env, c, choices[0], ChoiceCount(c)).Some? ==>
        KeepsDirection(env, Step(env, c, choices[0], ChoiceCount(c)).value.c, choices[1..])))
  }

  // The source address is not chosen any more.
  predicate Sourced(c: Conn) { c.srcIp != 0 || !IsFirst(c.protoState) }

  lemma FlowKeptByForwarding(env: Env, c: Conn, choice: nat)
    requires Step(env, c, choice, ChoiceCount(c)).Some? && c.mode != Accepted && Sourced(c)
    ensures var next := Step(env, c, choice, ChoiceCount(c)).value.c; SameEndpoints(c, next) && Sourced(next)
  {
  }

  // Packets of one direction, of one phase or several, are all sent between the same endpoints.
  lemma FlowKept(env: Env, c: Conn, choice: nat)
    requires Step(env, c, choice, ChoiceCount(c)).Some? && !Turns(env, c) && Sourced(c)
    ensures var next := Step(env, c, choice, ChoiceCount(c)).value.c; SameEndpoints(c, next) && Sourced(next)
  {
    if c.mode != Accepted {
      hide Step, Turns;
      FlowKeptByForwarding(env, c, choice);
    }
  }

  lemma {:induction false} FlowKeptAlong(env: Env, c: Conn, choices: seq<nat>)
    requires LocalRun(env, c, choices).Some? && KeepsDirection(env, c, choices) && Sourced(c)
    ensures SameEndpoints(c, LocalRun(env, c, choices).value)
    decreases |choices|
  {
    hide Step, Turns, Sourced, ChoiceCount;
    if choices != [] {
      FlowKept(env, c, choices[0]);
      FlowKeptAlong(env, Step(env, c, choices[0], ChoiceCount(c)).value.c, choices[1..]);
    }
  }

  // From one change of direction to the next, with any steps and phases in between, addresses,
  // class and ports are restored exactly when the source address represents its class.
  lemma TwoTurnsRestore(env: Env, c: Conn, between: seq<nat>)
    requires env.emulated == {} && env.ecOf(env.repOf(c.dstEc)) == c.dstEc != 0
    requires Turns(env, c) && env.ecOf(c.srcIp) != 0
    ensures DoAccepted(env, c, 1).Some?
    ensures var run := LocalRun(env, Turned(env, c), between);
            (run.Some? && KeepsDirection(env, Turned(env, c), between) && Turns(env, run.value)) ==>
            (DoAccepted(env, run.value, 1).Some? &&
             (SameEndpoints(Turned(env, run.value), c) <==> env.repOf(env.ecOf(c.srcIp)) == c.srcIp))
  {
    hide Step, LocalRun, KeepsDirection;
    var t := Turned(env, c);
    assert Sourced(t);
    var run := LocalRun(env, t, between);
    if run.Some? && KeepsDirection(env, t, between) {
      FlowKeptAlong(env, t, between);
    }
  }

  // Which every interface address does, once the initial classes were computed: its class is owned
  // and holds nothing else.
  lemma InterfaceAddressReturns(env: Env, s: seq<ECRange>, owned: set<EcId>, nodes: seq<NodeSources>,
                                updates: seq<seq<Net>>, mbs: seq<MbSources>, rest: seq<Request>,
                                c: Conn, between: seq<nat>)
    requires env.emulated == {} && SourcesValid(nodes, updates, mbs) && NoneOwned(rest)
    requires Coarsest(s, InitialRequests(nodes, updates, mbs) + rest)
    requires OwnershipExact(s, owned, InitialRequests(nodes, updates, mbs) + rest)
    requires forall a: Addr :: env.ecOf(a) == LabelAt(s, a)
    requires forall a: Addr :: LabelAt(s, a) != 0 ==> LabelAt(s, env.repOf(LabelAt(s, a))) == LabelAt(s, a)
    requires c.dstEc != 0 && exists a: Addr :: LabelAt(s, a) == c.dstEc
    requires Turns(env, c) && IsInterfaceAddress(nodes, c.srcIp)
    ensures DoAccepted(env, c, 1).Some?
    ensures var run := LocalRun(env, Turned(env, c), between);
            run.Some? && KeepsDirection(env, Turned(env, c), between) && Turns(env, run.value) ==>
              DoAccepted(env, run.value, 1).Some? && SameEndpoints(Turned(env, run.value), c)
  {
    hide Coarsest, OwnershipExact, InitialRequests, LabelAt, LocalRun,
      KeepsDirection, IsInterfaceAddress, Turns, DoAccepted;
    var a: Addr :| LabelAt(s, a) == c.dstEc;
    assert env.ecOf(env.repOf(LabelAt(s, a))) == LabelAt(s, env.repOf(LabelAt(s, a)));
    Exactness.OwnedClassesAreSingletons(s, owned, nodes, updates, mbs, rest, c.srcIp);
    OwnedIsLabelled(s, owned, nodes, updates, mbs, rest, c.srcIp);
    assert SameEc(s, c.srcIp, env.repOf(LabelAt(s, c.srcIp)));
    TwoTurnsRestore(env, c, between);
  }

  lemma OwnedIsLabelled(s: seq<ECRange>, owned: set<EcId>, nodes: seq<NodeSources>, updates: seq<seq<Net>>,
                        mbs: seq<MbSources>, rest: seq<Request>, a: Addr)
    requires SourcesValid(nodes, updates, mbs) && IsInterfaceAddress(nodes, a)
    requires Coarsest(s, InitialRequests(nodes, updates, mbs) + rest)
    ensures LabelAt(s, a) != 0
  {
    hide Coarsest, LabelAt, InitialRequests;
    var q := Request(ECRange(a, a, 0), true);
    InitialMembers(nodes, updates, mbs, q);
    assert q in InitialRequests(nodes, updates, mbs) + rest && q.range.Contains(a);
    CoveredIffLabelled(s, InitialRequests(nodes, updates, mbs) + rest, a);
  }
}
