/** The explorer's step on the state vector, updated in place (src/process/forwarding.cpp:35-324,
    src/process/choose_conn.cpp, src/plankton.cpp:426-495). */
module Plankton {
  import opened NextHops
  import opened Options
  import opened Protocols
  import F = Forwarding
  import S = Scheduler

  type Conn = F.Conn

  predicate KnownExecutable(conns: seq<Conn>) {
    forall i :: 0 <= i < |conns| ==> conns[i].executable <= 2
  }

  // Every method returns false for an exception, a failed assertion or a null pointer followed.
  class Explorer {
    const env: F.Env
    var conns: seq<Conn>
    var process: S.Process
    var conn: nat
    var choice: nat
    var choiceCount: nat

    constructor (env: F.Env, conns: seq<Conn>)
      requires conns != [] && KnownExecutable(conns)
      ensures Valid() && this.env == env
      ensures View() == S.State(conns, S.Forward, 0, 1)
      ensures F.Sound(env) && (forall i :: 0 <= i < |conns| ==> S.Initial(env, conns[i])) ==> Safe()
    {
      this.env := env;
      this.conns, process, conn := conns, S.Forward, 0;
      choice, choiceCount := 0, 1;
      new;
      hide F.Sound, F.Inv, S.Initial, S.ChooseCount;
      if F.Sound(env) && forall i :: 0 <= i < |conns| ==> S.Initial(env, conns[i]) {
        S.InitialisedInv(env, View());
      }
    }

    predicate Valid()
      reads this
    {
      conn < |conns| && KnownExecutable(conns)
    }

    // The network is one of modelled nodes and the state vector satisfies the invariant of all runs.
    ghost predicate Safe()
      reads this
    {
      Valid() && F.Sound(env) && S.SysInv(env, View())
    }

    function View(): S.State
      reads this
    {
      S.State(conns, process, conn, choiceCount)
    }

    function Active(): Conn
      requires Valid()
      reads this
    {
      conns[conn]
    }

    // The effect r of a handler was carried out on the active connection, or none is defined.
    twostate predicate Did(ok: bool, r: Option<F.Effect>)
      requires old(Valid())
      reads this
    {
      && ok == r.Some?
      && (ok ==> Valid() && conns == old(conns)[old(conn) := r.value.c] && choiceCount == r.value.count)
    }

    // Sets the active connection of the state vector, which was was before the current step.
    method Set(c: Conn, ghost was: seq<Conn>)
      requires Valid() && c.executable <= 2 && conn < |was| && conns == was[conn := Active()]
      modifies `conns
      ensures Valid() && Active() == c && conns == was[conn := c]
    {
      conns := conns[conn := c];
    }

    method CollectNextHops() returns (ok: bool)
      requires Valid()
      modifies `conns, `choiceCount
      ensures Did(ok, F.CollectNextHops(old(Active()), old(choiceCount)))
    {
      ghost var was := conns;
      var node := Active().loc;
      if node !in Active().fib { return false; }
      var hops := Active().fib[node];
      if hops == [] {
        Set(Active().(mode := F.Dropped), was);
        Set(Active().(executable := 0), was);
        return true;
      }
      var candidates: seq<Ipnh> := [];
      var key := (Active().dstEc, node);
      if |hops| > 1 && key in Active().choices && Active().choices[key] in hops {
        candidates := [Active().choices[key]];
      } else {
        for i := 0 to |hops|
          invariant candidates == hops[..i]
        {
          candidates := candidates + [hops[i]];
        }
        assert candidates == hops;
      }
      choiceCount := |candidates|;
      Set(Active().(candidates := Some(candidates)), was);
      Set(Active().(mode := F.ForwardPacket), was);
      ok := true;
    }

    method FirstCollect() returns (ok: bool)
      requires Valid()
      modifies `conns, `choiceCount
      ensures Did(ok, F.DoFirstCollect(old(Active()), old(choiceCount)))
    {
      hide F.CollectNextHops;
      ghost var was := conns;
      ok := CollectNextHops();
      if ok { Set(Active().(mode := F.FirstForward), was); }
    }

    method ForwardPacket() returns (ok: bool)
      requires Valid()
      modifies `conns, `choiceCount
      ensures Did(ok, F.DoForwardPacket(env, old(Active()), choice))
    {
      ghost var was := conns;
      if Active().candidates.None? { return false; }
      var candidates, node := Active().candidates.value, Active().loc;
      if choice >= |candidates| { return false; }
      if |candidates| > 1 {
        var key := (Active().dstEc, node);
        if key in Active().choices { return false; }
        Set(Active().(choices := Active().choices[key := candidates[choice]]), was);
      }
      var nextHop, ingress := candidates[choice].l3Node, candidates[choice].l3Intf;
      if nextHop == node {
        if IsFirst(Active().protoState) { Set(Active().(rxNode := Some(node)), was); }
        Set(Active().(mode := F.Accepted), was);
      } else {
        if nextHop in env.emulated {
          if IsFirst(Active().protoState) { Set(Active().(rxNode := Some(nextHop)), was); }
          Set(Active().(executable := 1), was);
        }
        Set(Active().(loc := nextHop), was);
        Set(Active().(ingress := ingress), was);
        Set(Active().(mode := F.CollectNhops), was);
      }
      choiceCount := 1;
      ok := true;
    }

    method FirstForward() returns (ok: bool)
      requires Valid()
      modifies `conns, `choiceCount
      ensures Did(ok, F.DoFirstForward(env, old(Active()), choice))
    {
      hide F.DoForwardPacket;
      ghost var was := conns;
      if IsFirst(Active().protoState) && Active().srcIp == 0 {
        if Active().candidates.None? || choice >= |Active().candidates.value| { return false; }
        var hop := Active().candidates.value[choice];
        if hop.l2Intf.Some? {
          if env.egressAddr(Active().loc, hop).None? { return false; }
          Set(Active().(srcIp := env.egressAddr(Active().loc, hop).value), was);
        } else {
          if hop.l3Intf.Some? { return false; }
          if hop.l3Node != hop.l2Node || hop.l2Node != Active().loc { return false; }
          if env.loopback(Active().loc).None? { return false; }
          Set(Active().(srcIp := env.loopback(Active().loc).value), was);
        }
      }
      ok := ForwardPacket();
    }

    // Sequence and acknowledgement number of the next packet of a TCP connection.
    method UpdateNumbers(turn: bool, ghost was: seq<Conn>)
      requires Valid() && conn < |was| && conns == was[conn := Active()]
      modifies `conns
      ensures Valid()
      ensures var (s, a) := F.NextNumbers(old(Active()), turn);
              conns == was[conn := old(Active()).(seqNo := s, ackNo := a)]
    {
      if IsTcp(Active().protoState) {
        var seqNo, ackNo := Active().seqNo, Active().ackNo;
        if Active().payload > 0 {
          seqNo := (seqNo + Active().payload) % 0x1_0000_0000;
        } else if HasSyn(Active().protoState) || HasFin(Active().protoState) {
          seqNo := (seqNo + 1) % 0x1_0000_0000;
        }
        if turn { seqNo, ackNo := ackNo, seqNo; }
        Set(Active().(seqNo := seqNo), was);
        Set(Active().(ackNo := ackNo), was);
      }
    }

    // Source and destination change places.
    method TurnAround(ghost was: seq<Conn>) returns (ok: bool)
      requires Valid() && conn < |was| && conns == was[conn := Active()]
      modifies `conns
      ensures ok == (env.ecOf(old(Active()).srcIp) != 0)
      ensures ok ==> Valid() && conns == was[conn := F.TurnedAround(env, old(Active()))]
    {
      var srcIp, dstEc := Active().srcIp, Active().dstEc;
      Set(Active().(srcIp := env.repOf(dstEc)), was);
      var nextDst := env.ecOf(srcIp);
      if nextDst == 0 { return false; }
      Set(Active().(dstEc := nextDst), was);
      Set(Active().(srcNode := Active().loc), was);
      var srcPort, dstPort := Active().srcPort, Active().dstPort;
      Set(Active().(srcPort := dstPort), was);
      Set(Active().(dstPort := srcPort), was);
      Set(Active().(fib := env.fibOf(nextDst)), was);
      ok := true;
    }

    method PhaseTransition(next: nat, turn: bool) returns (ok: bool)
      requires Valid()
      modifies `conns
      ensures ok == F.PhaseTransition(env, old(Active()), next, turn).Some?
      ensures ok ==> Valid() && conns == old(conns)[conn := F.PhaseTransition(env, old(Active()), next, turn).value]
    {
      hide F.NextNumbers;
      ghost var was := conns;
      var newSrc := if turn then Active().loc else Active().srcNode;
      if newSrc in env.emulated {
        Set(Active().(executable := 0), was);
        return true;
      }
      UpdateNumbers(turn, was);
      Set(Active().(protoState := next), was);
      if turn {
        ok := TurnAround(was);
        if !ok { return; }
      } else {
        Set(Active().(loc := Active().srcNode), was);
      }
      Set(Active().(payload := env.payloadOf(Active().dstEc, Active().dstPort, Active().protoState)), was);
      Set(Active().(mode := F.FirstCollect), was);
      Set(Active().(ingress := None), was);
      Set(Active().(candidates := None), was);
      ok := true;
    }

    method Accepted() returns (ok: bool)
      requires Valid()
      modifies `conns
      ensures ok == F.DoAccepted(env, old(Active()), choiceCount).Some?
      ensures ok ==> Valid() &&
                     conns == old(conns)[conn := F.DoAccepted(env, old(Active()), choiceCount).value.c]
    {
      hide F.PhaseTransition;
      ghost var was := conns;
      var ps := Active().protoState;
      if ps == TCP_INIT_1 { ok := PhaseTransition(TCP_INIT_2, true); }
      else if ps == TCP_INIT_2 { ok := PhaseTransition(TCP_INIT_3, true); }
      else if ps == TCP_INIT_3 { ok := PhaseTransition(TCP_L7_REQ, false); }
      else if ps == TCP_L7_REQ { ok := PhaseTransition(TCP_L7_REQ_A, true); }
      else if ps == TCP_L7_REQ_A { ok := PhaseTransition(TCP_L7_REP, false); }
      else if ps == TCP_L7_REP { ok := PhaseTransition(TCP_L7_REP_A, true); }
      else if ps == TCP_L7_REP_A { ok := PhaseTransition(TCP_TERM_1, Active().loc !in env.emulated); }
      else if ps == TCP_TERM_1 { ok := PhaseTransition(TCP_TERM_2, true); }
      else if ps == TCP_TERM_2 { ok := PhaseTransition(TCP_TERM_3, true); }
      else if ps == UDP_REQ { ok := PhaseTransition(UDP_REP, true); }
      else if ps == ICMP_REQ { ok := PhaseTransition(ICMP_REP, true); }
      else if ps == TCP_TERM_3 || ps == UDP_REP || ps == ICMP_REP {
        Set(Active().(executable := 0), was);
        ok := true;
      } else {
        ok := false;
      }
    }

    // The step of the forwarding process.
    method ForwardingStep() returns (ok: bool)
      requires Valid()
      modifies `conns, `choiceCount
      ensures Did(ok, F.Step(env, old(Active()), choice, old(choiceCount)))
    {
      hide F.DoAccepted, F.DoFirstForward, F.DoForwardPacket, F.CollectNextHops, F.DoFirstCollect;
      ghost var was := conns;
      match Active().mode {
        case FirstCollect =>
          if Active().loc in env.emulated { return false; }
          ok := FirstCollect();
        case FirstForward => ok := FirstForward();
        case CollectNhops =>
          if Active().loc in env.emulated { return false; }
          ok := CollectNextHops();
        case ForwardPacket => ok := ForwardPacket();
        case Accepted =>
          ok := Accepted();
          if ok { AcceptedKeepsCount(env, old(Active()), choiceCount); }
        case Dropped =>
          Set(Active().(executable := 0), was);
          ok := true;
        case ChooseInjRes => ok := false;
      }
    }

    // The unfinished connections by executable value.
    method GetConnMap() returns (map2: seq<nat>, map1: seq<nat>, map0: seq<nat>)
      requires Valid()
      ensures map2 == S.Grouped(conns, 2) && map1 == S.Grouped(conns, 1) && map0 == S.Grouped(conns, 0)
    {
      map2, map1, map0 := [], [], [];
      for i := 0 to |conns|
        invariant map2 == S.Group(conns, 2, i) && map1 == S.Group(conns, 1, i) && map0 == S.Group(conns, 0, i)
      {
        var c := conns[i];
        if (c.executable == 0 && c.mode == F.Dropped) ||
           (c.executable == 0 && c.mode == F.Accepted && IsLast(c.protoState)) {
          continue;
        }
        if c.executable == 2 { map2 := map2 + [i]; }
        else if c.executable == 1 { map1 := map1 + [i]; }
        else { map0 := map0 + [i]; }
      }
    }

    method UpdateChoiceCount()
      requires Valid()
      modifies `choiceCount
      ensures choiceCount == S.ChooseCount(conns)
    {
      var map2, map1, map0 := GetConnMap();
      if map2 != [] { choiceCount := 1; }
      else if map1 != [] { choiceCount := |map1|; }
      else if map0 != [] { choiceCount := 1; }
      else { choiceCount := 0; }
    }

    // The step of the connection scheduler.
    method ChooseConnStep() returns (ok: bool)
      requires Valid()
      modifies `conns, `conn, `choiceCount
      ensures ok == S.ChooseStep(old(View()), choice).Some?
      ensures ok ==> Valid() && View() == S.ChooseStep(old(View()), choice).value
    {
      hide S.Group;
      ghost var was := conns;
      var map2, map1, map0 := GetConnMap();
      assert map2 != [] ==> map2[0] in map2;
      assert choice < |map1| ==> map1[choice] in map1;
      assert map0 != [] ==> map0[0] in map0;
      if map2 != [] {
        if choice != 0 { return false; }
        conn := map2[0];
      } else if map1 != [] {
        if choice >= |map1| { return false; }
        conn := map1[choice];
        Set(Active().(executable := 2), was);
      } else if map0 != [] {
        if choice != 0 { return false; }
        conn := map0[0];
        if !(Active().mode == F.Dropped) && !(Active().mode == F.Accepted && IsLast(Active().protoState)) {
          Set(Active().(mode := F.Dropped), was);
        }
      } else {
        return false;
      }
      if Active().mode == F.ForwardPacket || Active().mode == F.FirstForward {
        if Active().candidates.None? { return false; }
        choiceCount := |Active().candidates.value|;
      } else {
        choiceCount := 1;
      }
      ok := true;
    }

    // Which process runs next; no update is waiting to be installed.
    method CheckToSwitch()
      requires Valid()
      modifies `process, `choiceCount
      ensures View() == S.Switch(old(View()))
    {
      if Active().executable != 2 {
        process := S.ChooseConn;
        UpdateChoiceCount();
        return;
      }
      if process == S.ChooseConn { process := S.Forward; }
    }

    // One step of the whole system with the given choice. In a network of modelled nodes any choice
    // below the choice count succeeds and leaves a state that is safe again.
    method ExecStep(choice: nat) returns (ok: bool)
      requires Valid()
      modifies this
      ensures ok == S.ExecStep(env, old(View()), choice).Some?
      ensures ok ==> Valid() && View() == S.ExecStep(env, old(View()), choice).value
      ensures old(Safe()) && choice < old(choiceCount) ==> ok && Safe()
    {
      hide F.Step, S.ChooseStep, S.Switch, S.SysInv, F.Sound;
      ghost var was, safe := View(), Safe();
      if safe && choice < choiceCount { StepIsSafe(env, was, choice); }
      this.choice := choice;
      if process == S.ChooseConn { ok := ChooseConnStep(); } else { ok := ForwardingStep(); }
      if ok { CheckToSwitch(); }
    }

    // Exploring ends when no choice is left: exactly when every connection is dropped or has
    // accepted its last packet.
    method Ended() returns (end: bool)
      requires Valid()
      ensures end == (choiceCount == 0)
      ensures Safe() ==> (end <==> S.AllFinished(conns))
    {
      hide F.Sound, S.SysInv;
      if Safe() { S.StopsWhenFinished(env, View()); }
      end := choiceCount == 0;
    }

    // One path of the exploration: steps as long as choices are left and given. From a safe state
    // every step succeeds, the path is a legal run and the state after it is safe.
    method Explore(choices: seq<nat>) returns (ok: bool, steps: nat)
      requires Valid()
      modifies this
      ensures steps <= |choices|
      ensures ok ==> Valid() && S.Run(env, old(View()), choices[..steps]) == Options.Some(View())
      ensures old(Safe()) ==> ok && Safe() && S.Legal(env, old(View()), choices[..steps])
      ensures old(Safe()) && steps < |choices| ==> choices[steps] >= choiceCount
      ensures old(Safe()) && choiceCount == 0 ==> S.AllFinished(conns)
    {
      hide S.ExecStep, S.SysInv, F.Sound, S.AllFinished;
      ok, steps := true, 0;
      var ended := Ended();
      while ok && !ended && steps < |choices| && choices[steps] < choiceCount
        invariant steps <= |choices|
        invariant ok ==> Valid() && S.Run(env, old(View()), choices[..steps]) == Options.Some(View())
        invariant ok ==> S.Legal(env, old(View()), choices[..steps])
        invariant old(Safe()) ==> ok && Safe()
        invariant ok ==> (ended <==> choiceCount == 0) && (ended && Safe() ==> S.AllFinished(conns))
        decreases |choices| - steps, ok
      {
        S.RunSnoc(env, old(View()), choices[..steps], choices[steps]);
        assert choices[..steps + 1] == choices[..steps] + [choices[steps]];
        ok := ExecStep(choices[steps]);
        if ok {
          steps := steps + 1;
          ended := Ended();
        }
      }
    }
  }

  lemma StepIsSafe(env: F.Env, s: S.State, choice: nat)
    requires F.Sound(env) && S.SysInv(env, s) && choice < s.count
    ensures S.ExecStep(env, s, choice).Some? && S.SysInv(env, S.ExecStep(env, s, choice).value)
  {
    hide F.Sound, S.SysInv, S.ExecStep;
    if s.process == S.Forward { S.ForwardStepInv(env, s, choice); } else { S.ChooseStepInv(env, s, choice); }
  }

  lemma AcceptedKeepsCount(env: F.Env, c: Conn, count: nat)
    requires F.DoAccepted(env, c, count).Some?
    ensures F.DoAccepted(env, c, count).value.count == count
  {
  }
}
