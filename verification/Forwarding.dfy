/** Forwarding of one connection's packets through modelled nodes (src/process/forwarding.cpp). */
module Forwarding {
  import opened Addressing
  import opened NextHops
  import opened Options
  import opened Protocols
  import opened EcRanges

  datatype Mode = FirstCollect | FirstForward | CollectNhops | ChooseInjRes | ForwardPacket | Accepted | Dropped

  type Fib = map<string, seq<Ipnh>>

  // The per-connection part of the state vector. payload is the payload's size, 0 for none;
  // candidates is None for the null pointer.
  datatype Conn = Conn(
    executable: nat, protoState: nat, srcIp: Addr, dstEc: EcId, srcPort: nat, dstPort: nat,
    seqNo: Seq32, ackNo: Seq32, payload: nat, srcNode: string, txNode: string, rxNode: Option<string>,
    mode: Mode, loc: string, ingress: Option<Interface>, candidates: Option<seq<Ipnh>>,
    fib: Fib, choices: map<(EcId, string), Ipnh>)

  // What the handlers read of the network and of the managers of classes and payloads.
  datatype Env = Env(
    nodes: set<string>, emulated: set<string>, ecs: set<EcId>,
    fibOf: EcId -> Fib, repOf: EcId -> Addr, ecOf: Addr -> EcId,
    payloadOf: (EcId, nat, nat) -> nat,
    egressAddr: (string, Ipnh) -> Option<Addr>, loopback: string -> Option<Addr>)

  // A handler's effect: the connection and the number of choices for the next step.
  datatype Effect = Effect(c: Conn, count: nat)

  // None stands for an exception, a failed assertion or a null pointer being followed.
  function CollectNextHops(c: Conn, count: nat): Option<Effect> {
    if c.loc !in c.fib then None
    else if c.fib[c.loc] == [] then Some(Effect(c.(mode := Dropped, executable := 0), count))
    else
      var hops, key := c.fib[c.loc], (c.dstEc, c.loc);
      var cands := if |hops| > 1 && key in c.choices && c.choices[key] in hops then [c.choices[key]] else hops;
      Some(Effect(c.(candidates := Some(cands), mode := ForwardPacket), |cands|))
  }

  function DoFirstCollect(c: Conn, count: nat): Option<Effect> {
    match CollectNextHops(c, count)
    case None => None
    case Some(e) => Some(e.(c := e.c.(mode := FirstForward)))
  }

  // The choice is an index into an existing candidate list.
  predicate Choosable(c: Conn, choice: nat) {
    c.candidates.Some? && choice < |c.candidates.value|
  }

  function DoForwardPacket(env: Env, c: Conn, choice: nat): Option<Effect> {
    if !Choosable(c, choice) then None else
      var cands, key := c.candidates.value, (c.dstEc, c.loc);
      var hop := cands[choice];
      if |cands| > 1 && key in c.choices then None else
        var c1 := if |cands| > 1 then c.(choices := c.choices[key := hop]) else c;
        if hop.l3Node == c.loc then
          var c2 := if IsFirst(c.protoState) then c1.(rxNode := Some(c.loc)) else c1;
          Some(Effect(c2.(mode := Accepted), 1))
        else
          var c2 := if hop.l3Node in env.emulated then
                      (if IsFirst(c.protoState) then c1.(rxNode := Some(hop.l3Node)) else c1).(executable := 1)
                    else c1;
          Some(Effect(c2.(loc := hop.l3Node, ingress := hop.l3Intf, mode := CollectNhops), 1))
  }

  // The source address given to the first packet of a connection.
  function SourceAddr(env: Env, c: Conn, hop: Ipnh): Option<Addr> {
    if hop.l2Intf.Some? then env.egressAddr(c.loc, hop)
    else if hop.l3Intf.Some? || hop.l3Node != hop.l2Node || hop.l2Node != c.loc then None
    else env.loopback(c.loc)
  }

  function DoFirstForward(env: Env, c: Conn, choice: nat): Option<Effect> {
    if IsFirst(c.protoState) && c.srcIp == 0 then
      if !Choosable(c, choice) then None else
        match SourceAddr(env, c, c.candidates.value[choice])
        case None => None
        case Some(ip) => DoForwardPacket(env, c.(srcIp := ip), choice)
    else DoForwardPacket(env, c, choice)
  }

  // Sequence and acknowledgement number of the next packet.
  function NextNumbers(c: Conn, turn: bool): (Seq32, Seq32) {
    if !IsTcp(c.protoState) then (c.seqNo, c.ackNo) else
      var s := Add32(c.seqNo, Occupies(c.protoState, c.payload));
      if turn then (c.ackNo, s) else (s, c.ackNo)
  }

  // Source and destination exchanged; the packets go from here to the class of the source address.
  function TurnedAround(env: Env, c: Conn): Conn {
    c.(srcIp := env.repOf(c.dstEc), dstEc := env.ecOf(c.srcIp), srcNode := c.loc,
       srcPort := c.dstPort, dstPort := c.srcPort, fib := env.fibOf(env.ecOf(c.srcIp)))
  }

  function PhaseTransition(env: Env, c: Conn, next: nat, turn: bool): Option<Conn> {
    var newSrc := if turn then c.loc else c.srcNode;
    if newSrc in env.emulated then Some(c.(executable := 0)) else
      var (s, a) := NextNumbers(c, turn);
      var c1 := c.(seqNo := s, ackNo := a, protoState := next);
      if turn && env.ecOf(c.srcIp) == 0 then None else
        var c2 := if turn then TurnedAround(env, c1) else c1.(loc := c.srcNode);
        Some(c2.(payload := env.payloadOf(c2.dstEc, c2.dstPort, next), mode := FirstCollect,
                 ingress := None, candidates := None))
  }

  function DoAccepted(env: Env, c: Conn, count: nat): Option<Effect> {
    if !Known(c.protoState) then None else
      match After(c.protoState, c.loc in env.emulated)
      case Final => Some(Effect(c.(executable := 0), count))
      case Next(ps, turn) =>
        match PhaseTransition(env, c, ps, turn)
        case None => None
        case Some(c') => Some(Effect(c', count))
  }

  // One step of the forwarding process. A packet at a middlebox is injected instead of being looked
  // up; what comes of that is not a step of this machine.
  function Step(env: Env, c: Conn, choice: nat, count: nat): Option<Effect> {
    match c.mode
    case FirstCollect => if c.loc in env.emulated then None else DoFirstCollect(c, count)
    case FirstForward => DoFirstForward(env, c, choice)
    case CollectNhops => if c.loc in env.emulated then None else CollectNextHops(c, count)
    case ForwardPacket => DoForwardPacket(env, c, choice)
    case Accepted => DoAccepted(env, c, count)
    case Dropped => Some(Effect(c.(executable := 0), count))
    case ChooseInjRes => None
  }

  // ---- What a network without middleboxes guarantees the handlers ----

  // Every class is routed at every node, hops stay in the network, a hop without an ingress
  // interface is the node itself, every egress interface is an L3 interface, and every source
  // address belongs to a class.
  ghost predicate Sound(env: Env) {
    && env.emulated == {} && 0 !in env.ecs
    && (forall e, n {:trigger HopsSound(env, e, n)} :: e in env.ecs && n in env.nodes ==> HopsSound(env, e, n))
    && (forall e {:trigger env.repOf(e)} :: e in env.ecs ==> env.ecOf(env.repOf(e)) == e)
    && (forall n {:trigger env.loopback(n)} :: n in env.nodes ==>
          env.loopback(n).Some? && env.ecOf(env.loopback(n).value) in env.ecs)
  }

  ghost predicate HopsSound(env: Env, e: EcId, n: string) {
    && n in env.fibOf(e)
    && (forall i, j :: 0 <= i < j < |env.fibOf(e)[n]| ==> env.fibOf(e)[n][i] != env.fibOf(e)[n][j])
    && (forall h :: h in env.fibOf(e)[n] ==> h.l3Node in env.nodes)
    && (forall h :: h in env.fibOf(e)[n] && h.l2Intf.None? ==> h == Ipnh(n, None, n, None))
    && (forall h :: h in env.fibOf(e)[n] && h.l2Intf.Some? ==>
          env.egressAddr(n, h).Some? && env.ecOf(env.egressAddr(n, h).value) in env.ecs)
  }

  // Remembered choices are among several hops of the class they were made for.
  ghost predicate ChoicesSound(env: Env, c: Conn) {
    forall k :: k in c.choices ==>
      (k.0 in env.ecs && k.1 in env.nodes && k.1 in env.fibOf(k.0) &&
       c.choices[k] in env.fibOf(k.0)[k.1] && |env.fibOf(k.0)[k.1]| > 1)
  }

  // The candidates of a connection about to forward: all hops when there is one or no choice was
  // made yet, otherwise the remembered hop alone.
  ghost predicate CandidatesSound(env: Env, c: Conn)
    requires c.loc in c.fib
  {
    c.candidates.Some? &&
    var cands, hops, key := c.candidates.value, c.fib[c.loc], (c.dstEc, c.loc);
    cands != [] &&
    if |hops| > 1 && key in c.choices then cands == [c.choices[key]] else cands == hops
  }

  // The number of choices the next forwarding step has.
  function ChoiceCount(c: Conn): nat {
    if c.mode == ForwardPacket || c.mode == FirstForward then
      if c.candidates.Some? then |c.candidates.value| else 0
    else 1
  }

  ghost predicate Inv(env: Env, c: Conn) {
    && c.dstEc in env.ecs && c.loc in env.nodes && c.srcNode in env.nodes && Known(c.protoState)
    && c.fib == env.fibOf(c.dstEc) && c.loc in c.fib && ChoicesSound(env, c)
    && (c.executable == 0 || c.executable == 2)
    && (c.executable == 2 ==>
          && c.mode != Dropped && c.mode != ChooseInjRes
          && (c.mode == ForwardPacket || c.mode == FirstForward ==> CandidatesSound(env, c))
          && (c.mode == FirstCollect || c.mode == FirstForward ==> c.loc == c.srcNode)
          && ((IsFirst(c.protoState) && (c.mode == FirstCollect || c.mode == FirstForward) && c.srcIp == 0) ||
              env.ecOf(c.srcIp) in env.ecs))
    && (c.executable == 0 ==>
          c.mode == Dropped || c.mode == FirstForward || (c.mode == Accepted && IsLast(c.protoState)))
  }

  lemma CollectSafe(env: Env, c: Conn)
    requires Sound(env) && Inv(env, c) && c.executable == 2
    ensures CollectNextHops(c, 1).Some?
    ensures var e := CollectNextHops(c, 1).value;
            if c.fib[c.loc] == [] then e.c == c.(mode := Dropped, executable := 0)
            else e.c == c.(candidates := e.c.candidates, mode := ForwardPacket) && CandidatesSound(env, e.c) &&
                 e.c.candidates.Some? && e.count == |e.c.candidates.value|
  {
  }

  lemma ForwardSafe(env: Env, c: Conn, choice: nat)
    requires Sound(env) && Inv(env, c) && c.executable == 2 && CandidatesSound(env, c)
    requires c.candidates.Some? && choice < |c.candidates.value| && env.ecOf(c.srcIp) in env.ecs
    ensures DoForwardPacket(env, c, choice).Some?
    ensures var e := DoForwardPacket(env, c, choice).value;
            Inv(env, e.c) && e.c.executable == 2 && e.count == 1 == ChoiceCount(e.c)
  {
    CandidatesAreHops(env, c);
    var hop := c.candidates.value[choice];
    assert hop in c.candidates.value && hop in c.fib[c.loc];
    assert HopsSound(env, c.dstEc, c.loc);
    assert HopsSound(env, c.dstEc, hop.l3Node);
  }

  lemma CandidatesAreHops(env: Env, c: Conn)
    requires Inv(env, c) && CandidatesSound(env, c)
    ensures c.candidates.Some? && forall h :: h in c.candidates.value ==> h in c.fib[c.loc]
    ensures |c.candidates.value| > 1 ==> (c.dstEc, c.loc) !in c.choices
    ensures |c.candidates.value| == 1 && |c.fib[c.loc]| > 1 ==>
              (c.dstEc, c.loc) in c.choices && c.candidates.value[0] == c.choices[(c.dstEc, c.loc)]
  {
  }

  lemma SourceSafe(env: Env, c: Conn, choice: nat)
    requires Sound(env) && Inv(env, c) && c.executable == 2 && CandidatesSound(env, c)
    requires c.candidates.Some? && choice < |c.candidates.value|
    ensures SourceAddr(env, c, c.candidates.value[choice]).Some?
    ensures env.ecOf(SourceAddr(env, c, c.candidates.value[choice]).value) in env.ecs
  {
    CandidatesAreHops(env, c);
    var hop := c.candidates.value[choice];
    assert hop in c.candidates.value && hop in c.fib[c.loc];
    assert HopsSound(env, c.dstEc, c.loc);
  }

  lemma AcceptedSafe(env: Env, c: Conn)
    requires Sound(env) && Inv(env, c) && c.executable == 2 && c.mode == Accepted
    ensures DoAccepted(env, c, 1).Some?
    ensures var e := DoAccepted(env, c, 1).value; Inv(env, e.c) && e.count == 1
    ensures var e := DoAccepted(env, c, 1).value; e.c.executable == 2 ==> e.c.mode == FirstCollect
  {
    assert HopsSound(env, c.dstEc, c.srcNode) && HopsSound(env, env.ecOf(c.srcIp), c.loc);
  }

  // In a network without middleboxes and updates every choice below the choice count can be
  // executed: no candidate is out of range, no path choice is recorded twice, no assertion fails;
  // and the invariant and the choice count are re-established.
  lemma StepSafe(env: Env, c: Conn, choice: nat)
    requires Sound(env) && Inv(env, c) && c.executable == 2 && choice < ChoiceCount(c)
    ensures Step(env, c, choice, ChoiceCount(c)).Some?
    ensures var e := Step(env, c, choice, ChoiceCount(c)).value;
            Inv(env, e.c) && (e.c.executable == 2 ==> e.count == ChoiceCount(e.c))
  {
    match c.mode {
      case FirstCollect => CollectSafe(env, c);
      case CollectNhops => CollectSafe(env, c);
      case ForwardPacket => ForwardSafe(env, c, choice);
      case FirstForward =>
        if IsFirst(c.protoState) && c.srcIp == 0 {
          SourceSafe(env, c, choice);
          var ip := SourceAddr(env, c, c.candidates.value[choice]).value;
          ForwardSafe(env, c.(srcIp := ip), choice);
        } else {
          ForwardSafe(env, c, choice);
        }
      case Accepted => AcceptedSafe(env, c);
    }
  }

  // ---- Packets of one connection toward one class take one next hop per node ----

  // The hop a forwarding step takes.
  function HopTaken(c: Conn, choice: nat): Ipnh
    requires Choosable(c, choice)
  {
    c.candidates.value[choice]
  }

  predicate Forwards(c: Conn, choice: nat) {
    (c.mode == ForwardPacket || c.mode == FirstForward) && Choosable(c, choice)
  }

  // Toward class e node n can only use h from now on.
  ghost predicate Pinned(env: Env, c: Conn, e: EcId, n: string, h: Ipnh) {
    n in env.fibOf(e) && (env.fibOf(e)[n] == [h] || ((e, n) in c.choices && c.choices[(e, n)] == h))
  }

  lemma ForwardingPins(env: Env, c: Conn, choice: nat)
    requires Sound(env) && Inv(env, c) && c.executable == 2 && Forwards(c, choice)
    requires Step(env, c, choice, ChoiceCount(c)).Some?
    ensures Pinned(env, Step(env, c, choice, ChoiceCount(c)).value.c, c.dstEc, c.loc, HopTaken(c, choice))
  {
    CandidatesAreHops(env, c);
  }

  lemma PhaseKeepsChoices(env: Env, c: Conn, count: nat)
    requires DoAccepted(env, c, count).Some?
    ensures DoAccepted(env, c, count).value.c.choices == c.choices
  {
  }

  // A remembered hop is never replaced: where there is one, no choice is offered.
  lemma ForwardKeepsChoice(env: Env, c: Conn, choice: nat, k: (EcId, string))
    requires DoForwardPacket(env, c, choice).Some?
    ensures k in c.choices ==>
              k in DoForwardPacket(env, c, choice).value.c.choices &&
              DoForwardPacket(env, c, choice).value.c.choices[k] == c.choices[k]
  {
  }

  lemma PinnedStays(env: Env, c: Conn, choice: nat, count: nat, e: EcId, n: string, h: Ipnh)
    requires Pinned(env, c, e, n, h) && Step(env, c, choice, count).Some?
    ensures Pinned(env, Step(env, c, choice, count).value.c, e, n, h)
  {
    hide DoAccepted, DoForwardPacket;
    match c.mode {
      case Accepted => PhaseKeepsChoices(env, c, count);
      case ForwardPacket => ForwardKeepsChoice(env, c, choice, (e, n));
      case FirstForward =>
        if IsFirst(c.protoState) && c.srcIp == 0 {
          var ip := SourceAddr(env, c, c.candidates.value[choice]).value;
          ForwardKeepsChoice(env, c.(srcIp := ip), choice, (e, n));
        } else {
          ForwardKeepsChoice(env, c, choice, (e, n));
        }
      case _ =>
    }
  }

  lemma PinnedIsTaken(env: Env, c: Conn, choice: nat, h: Ipnh)
    requires Sound(env) && Inv(env, c) && c.executable == 2 && Forwards(c, choice)
    requires Pinned(env, c, c.dstEc, c.loc, h)
    ensures HopTaken(c, choice) == h
  {
    CandidatesAreHops(env, c);
  }

  // The states a connection goes through when the given choices are made; None once a choice is
  // not below the choice count, the connection is not executable or a step fails.
  function LocalRun(env: Env, c: Conn, choices: seq<nat>): Option<Conn>
    decreases |choices|
  {
    if choices == [] then Some(c)
    else if c.executable != 2 || choices[0] >= ChoiceCount(c) then None
    else match Step(env, c, choices[0], ChoiceCount(c))
      case None => None
      case Some(e) => LocalRun(env, e.c, choices[1..])
  }

  lemma {:induction false} LocalRunKeepsInv(env: Env, c: Conn, choices: seq<nat>)
    requires Sound(env) && Inv(env, c) && LocalRun(env, c, choices).Some?
    ensures Inv(env, LocalRun(env, c, choices).value)
    decreases |choices|
  {
    if choices != [] {
      StepSafe(env, c, choices[0]);
      LocalRunKeepsInv(env, Step(env, c, choices[0], ChoiceCount(c)).value.c, choices[1..]);
    }
  }

  lemma {:induction false} LocalRunKeepsPinned(env: Env, c: Conn, choices: seq<nat>, e: EcId, n: string, h: Ipnh)
    requires Pinned(env, c, e, n, h) && LocalRun(env, c, choices).Some?
    ensures Pinned(env, LocalRun(env, c, choices).value, e, n, h)
    decreases |choices|
  {
    if choices != [] {
      PinnedStays(env, c, choices[0], ChoiceCount(c), e, n, h);
      LocalRunKeepsPinned(env, Step(env, c, choices[0], ChoiceCount(c)).value.c, choices[1..], e, n, h);
    }
  }

  // Multipath consistency: when a connection forwards at a node toward a class, and after any
  // further steps forwards at the same node toward the same class again, it takes the same hop.
  lemma SameHopAgain(env: Env, c: Conn, first: nat, between: seq<nat>, second: nat)
    requires Sound(env) && Inv(env, c)
    requires LocalRun(env, c, [first] + between).Some?
    requires c.executable == 2 && Forwards(c, first)
    requires var d := LocalRun(env, c, [first] + between).value;
             d.executable == 2 && Forwards(d, second) && d.dstEc == c.dstEc && d.loc == c.loc
    ensures HopTaken(LocalRun(env, c, [first] + between).value, second) == HopTaken(c, first)
  {
    var all := [first] + between;
    assert all[0] == first && all[1..] == between;
    StepSafe(env, c, first);
    ForwardingPins(env, c, first);
    var c1 := Step(env, c, first, ChoiceCount(c)).value.c;
    LocalRunKeepsPinned(env, c1, between, c.dstEc, c.loc, HopTaken(c, first));
    LocalRunKeepsInv(env, c1, between);
    PinnedIsTaken(env, LocalRun(env, c, all).value, second, HopTaken(c, first));
  }
}
