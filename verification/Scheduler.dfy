/** Interleaving of connections: the scheduler fixes an order where a free scheduler branches
    (src/process/choose_conn.cpp, src/plankton.cpp:388-495). */
module Scheduler {
  import opened Options
  import opened Protocols
  import opened Forwarding

  datatype Process = Forward | ChooseConn

  // The state vector: the connections, the running process, the active connection and the number
  // of choices of the next step.
  datatype State = State(conns: seq<Conn>, process: Process, current: nat, count: nat)

  // A connection nothing more happens to.
  predicate Finished(c: Conn) {
    c.executable == 0 && (c.mode == Dropped || (c.mode == Accepted && IsLast(c.protoState)))
  }

  predicate Listed(c: Conn, exec: nat) { c.executable == exec && !Finished(c) }

  // The unfinished connections with the given executable value among the first n, in order.
  function Group(conns: seq<Conn>, exec: nat, n: nat): (r: seq<nat>)
    requires n <= |conns|
    ensures forall i :: i in r <==> 0 <= i < n && Listed(conns[i], exec)
    ensures forall j, k :: 0 <= j < k < |r| ==> r[j] < r[k]
  {
    if n == 0 then [] else
      var rest := Group(conns, exec, n - 1);
      assert forall j :: 0 <= j < |rest| ==> rest[j] in rest;
      if Listed(conns[n - 1], exec) then rest + [n - 1] else rest
  }

  function Grouped(conns: seq<Conn>, exec: nat): seq<nat> { Group(conns, exec, |conns|) }

  // The number of choices the connection scheduler has.
  function ChooseCount(conns: seq<Conn>): nat {
    if Grouped(conns, 2) != [] then 1
    else if Grouped(conns, 1) != [] then |Grouped(conns, 1)|
    else if Grouped(conns, 0) != [] then 1
    else 0
  }

  // The number of choices left for the connection that was chosen; None if it is about to forward
  // without candidates.
  function CountAfterChoosing(c: Conn): Option<nat> {
    if (c.mode == ForwardPacket || c.mode == FirstForward) && c.candidates.None? then None
    else Some(ChoiceCount(c))
  }

  // The connection chosen next and its new state; None for an exception or a failed assertion.
  function Chosen(conns: seq<Conn>, choice: nat): (r: Option<(nat, Conn)>)
    ensures r.Some? ==> r.value.0 < |conns|
  {
    var g2, g1, g0 := Grouped(conns, 2), Grouped(conns, 1), Grouped(conns, 0);
    if g2 != [] then
      assert g2[0] in g2;
      if choice != 0 then None else Some((g2[0], conns[g2[0]]))
    else if g1 != [] then
      if choice >= |g1| then None else
        assert g1[choice] in g1;
        Some((g1[choice], conns[g1[choice]].(executable := 2)))
    else if g0 != [] then
      assert g0[0] in g0;
      if choice != 0 then None else Some((g0[0], conns[g0[0]].(mode := Dropped)))
    else None
  }

  function ChooseStep(s: State, choice: nat): Option<State> {
    match Chosen(s.conns, choice)
    case None => None
    case Some((i, c)) =>
      match CountAfterChoosing(c)
      case None => None
      case Some(n) => Some(s.(conns := s.conns[i := c], current := i, count := n))
  }

  function ForwardStep(env: Env, s: State, choice: nat): Option<State>
    requires s.current < |s.conns|
  {
    match Step(env, s.conns[s.current], choice, s.count)
    case None => None
    case Some(e) => Some(s.(conns := s.conns[s.current := e.c], count := e.count))
  }

  function Switch(s: State): State
    requires s.current < |s.conns|
  {
    if s.conns[s.current].executable != 2 then s.(process := ChooseConn, count := ChooseCount(s.conns))
    else s.(process := Forward)
  }

  // One step of the whole system.
  function ExecStep(env: Env, s: State, choice: nat): (r: Option<State>)
    requires s.current < |s.conns|
    ensures r.Some? ==> |r.value.conns| == |s.conns| && r.value.current < |s.conns|
  {
    match if s.process == ChooseConn then ChooseStep(s, choice) else ForwardStep(env, s, choice)
    case None => None
    case Some(t) => Some(Switch(t))
  }

  // ---- Safety over all runs ----

  ghost predicate AllInv(env: Env, conns: seq<Conn>) {
    forall i :: 0 <= i < |conns| ==> Inv(env, conns[i])
  }

  ghost predicate SysInv(env: Env, s: State) {
    && s.current < |s.conns| && AllInv(env, s.conns)
    && (s.process == Forward ==> s.conns[s.current].executable == 2 && s.count == ChoiceCount(s.conns[s.current]))
    && (s.process == ChooseConn ==> s.count == ChooseCount(s.conns))
  }

  // A connection as it is initialised toward a class of the network.
  ghost predicate Initial(env: Env, c: Conn) {
    && c.executable == 2 && c.mode == FirstCollect && IsFirst(c.protoState)
    && c.dstEc in env.ecs && c.srcNode in env.nodes && c.loc == c.srcNode
    && c.fib == env.fibOf(c.dstEc) && c.choices == map[] && c.srcIp == 0
  }

  // The state before the first step.
  ghost predicate Initialised(env: Env, s: State) {
    && s.conns != [] && s.process == Forward && s.current == 0 && s.count == 1
    && forall i :: 0 <= i < |s.conns| ==> Initial(env, s.conns[i])
  }

  lemma InitialisedInv(env: Env, s: State)
    requires Sound(env) && Initialised(env, s)
    ensures SysInv(env, s)
  {
    forall i | 0 <= i < |s.conns| ensures Inv(env, s.conns[i]) {
      assert Initial(env, s.conns[i]) && HopsSound(env, s.conns[i].dstEc, s.conns[i].srcNode);
    }
  }

  lemma FirstOfGroup(conns: seq<Conn>, exec: nat)
    requires Grouped(conns, exec) != []
    ensures Grouped(conns, exec)[0] < |conns| && Listed(conns[Grouped(conns, exec)[0]], exec)
  {
    assert Grouped(conns, exec)[0] in Grouped(conns, exec);
  }

  lemma EmptyGroup(conns: seq<Conn>, exec: nat)
    ensures Grouped(conns, exec) == [] <==> forall i :: 0 <= i < |conns| ==> !Listed(conns[i], exec)
  {
    if Grouped(conns, exec) != [] {
      FirstOfGroup(conns, exec);
    } else {
      forall i | 0 <= i < |conns| ensures !Listed(conns[i], exec) {
        assert i !in Grouped(conns, exec);
      }
    }
  }

  // ---- Which connection a choice activates ----

  // The rank of i in s: how many members are smaller.
  ghost function Below(s: set<nat>, i: nat): nat { |Smaller(s, i)| }

  ghost function Smaller(s: set<nat>, i: nat): set<nat> { set j | j in s && j < i }

  ghost function Elements(g: seq<nat>): set<nat> { set i: nat | i in g }

  predicate Increasing(g: seq<nat>) { forall i, j :: 0 <= i < j < |g| ==> g[i] < g[j] }

  lemma {:induction false} ElementsSize(g: seq<nat>)
    requires Increasing(g)
    ensures |Elements(g)| == |g|
    decreases |g|
  {
    if g == [] {
      assert Elements(g) == {};
    } else {
      var front := g[..|g| - 1];
      assert g == front + [g[|g| - 1]];
      ElementsSize(front);
      assert Elements(g) == Elements(front) + {g[|g| - 1]};
    }
  }

  // The element at k of a strictly increasing list has k elements below it.
  lemma SortedRank(g: seq<nat>, k: nat)
    requires Increasing(g) && k < |g|
    ensures Below(Elements(g), g[k]) == k
  {
    ElementsSize(g[..k]);
    var below := Smaller(Elements(g), g[k]);
    forall j ensures j in below <==> j in Elements(g[..k]) {
      if j in below { var l :| 0 <= l < |g| && g[l] == j; }
      if j in Elements(g[..k]) { var l :| 0 <= l < k && g[l] == j; }
    }
    assert below == Elements(g[..k]);
  }

  // The connections about to enter a middlebox.
  ghost function Entering(conns: seq<Conn>): set<nat> { set i: nat | i < |conns| && conns[i].executable == 1 }

  // The step makes connection i, now c, the active one and offers its candidates, or one choice when
  // it is not about to forward; without candidates to forward to it is not defined.
  ghost predicate Activates(s: State, choice: nat, i: nat, c: Conn) {
    i < |s.conns| &&
    if c.mode != ForwardPacket && c.mode != FirstForward then
      ChooseStep(s, choice) == Some(State(s.conns[i := c], s.process, i, 1))
    else if c.candidates.Some? then
      ChooseStep(s, choice) == Some(State(s.conns[i := c], s.process, i, |c.candidates.value|))
    else ChooseStep(s, choice).None?
  }

  lemma GroupOne(conns: seq<Conn>, k: nat)
    requires k <= |Grouped(conns, 1)|
    ensures |Entering(conns)| == |Grouped(conns, 1)|
    ensures k < |Grouped(conns, 1)| ==>
              Grouped(conns, 1)[k] in Entering(conns) && Below(Entering(conns), Grouped(conns, 1)[k]) == k
  {
    var g := Grouped(conns, 1);
    ElementsSize(g);
    assert Elements(g) == Entering(conns);
    if k < |g| { SortedRank(g, k); }
  }

  // Ranks are distinct, in the order of the members.
  lemma RankIsUnique(s: set<nat>, i: nat, j: nat)
    requires i in s && j in s && i < j
    ensures Below(s, i) < Below(s, j) < |s|
  {
    var below, above := Smaller(s, i), Smaller(s, j);
    assert below + {i} <= above;
    SubsetSize(below + {i}, above);
    SubsetSize(above + {j}, s);
  }

  lemma {:induction false} SubsetSize(a: set<nat>, b: set<nat>)
    requires a <= b
    ensures |a| <= |b|
  {
    if a != {} {
      var x :| x in a;
      SubsetSize(a - {x}, b - {x});
    }
  }

  // When only connections about to enter a middlebox are executable there is one choice for each,
  // in the order of the connections: choice k activates the one with k such connections before it.
  lemma EnteringByRank(s: State, i: nat)
    requires i in Entering(s.conns) && forall j :: 0 <= j < |s.conns| ==> s.conns[j].executable != 2
    ensures ChooseCount(s.conns) == |Entering(s.conns)| && Below(Entering(s.conns), i) < |Entering(s.conns)|
    ensures Activates(s, Below(Entering(s.conns), i), i, s.conns[i].(executable := 2))
    ensures forall choice: nat :: choice >= |Entering(s.conns)| ==> ChooseStep(s, choice).None?
  {
    hide Group, Entering, Below;
    var g := Grouped(s.conns, 1);
    EmptyGroup(s.conns, 2);
    GroupOne(s.conns, |g|);
    assert i in g by { InGroupOne(s.conns, i); }
    var k :| 0 <= k < |g| && g[k] == i;
    GroupOne(s.conns, k);
  }

  // Every choice offered then activates one of them.
  lemma ChoiceEnters(conns: seq<Conn>, choice: nat) returns (i: nat)
    requires choice < |Entering(conns)|
    ensures i in Entering(conns) && Below(Entering(conns), i) == choice
  {
    GroupOne(conns, 0);
    GroupOne(conns, choice);
    i := Grouped(conns, 1)[choice];
  }

  lemma InGroupOne(conns: seq<Conn>, i: nat)
    requires i in Entering(conns)
    ensures i in Grouped(conns, 1)
  {
  }

  lemma LeastOfGroup(conns: seq<Conn>, exec: nat, i: nat)
    requires i < |conns| && Listed(conns[i], exec) && forall j :: 0 <= j < i ==> !Listed(conns[j], exec)
    ensures Grouped(conns, exec) != [] && Grouped(conns, exec)[0] == i
  {
    var g := Grouped(conns, exec);
    assert i in g && g[0] in g;
    var k :| 0 <= k < |g| && g[k] == i;
  }

  // A connection that is executable and not entering goes first, the least one, as it is.
  lemma ExecutableFirst(s: State, i: nat)
    requires i < |s.conns| && s.conns[i].executable == 2 && forall j :: 0 <= j < i ==> s.conns[j].executable != 2
    ensures ChooseCount(s.conns) == 1 && Activates(s, 0, i, s.conns[i])
    ensures forall choice: nat :: choice > 0 ==> ChooseStep(s, choice).None?
  {
    hide Group;
    LeastOfGroup(s.conns, 2, i);
  }

  // A connection that waits for a packet: neither dropped nor past its last packet.
  predicate Missing(c: Conn) {
    && c.executable == 0 && c.mode != Dropped
    && !(c.mode == Accepted && (c.protoState == 10 || c.protoState == 12 || c.protoState == 14))
  }

  // When none is executable the least one that waits for a packet is dropped, and when none waits
  // either there is no choice.
  lemma MissingIsDropped(s: State, i: nat)
    requires i <= |s.conns| && forall j :: 0 <= j < |s.conns| ==> s.conns[j].executable == 0
    requires forall j :: 0 <= j < i ==> !Missing(s.conns[j])
    ensures i < |s.conns| && Missing(s.conns[i]) ==>
              && ChooseCount(s.conns) == 1 && Activates(s, 0, i, s.conns[i].(mode := Dropped))
              && forall choice: nat :: choice > 0 ==> ChooseStep(s, choice).None?
    ensures i == |s.conns| ==> ChooseCount(s.conns) == 0 && forall choice: nat :: ChooseStep(s, choice).None?
  {
    hide Group;
    EmptyGroup(s.conns, 2);
    EmptyGroup(s.conns, 1);
    if i == |s.conns| {
      EmptyGroup(s.conns, 0);
    } else if Missing(s.conns[i]) {
      LeastOfGroup(s.conns, 0, i);
    }
  }

  lemma NoneEntering(env: Env, conns: seq<Conn>)
    requires AllInv(env, conns)
    ensures Grouped(conns, 1) == []
  {
    hide Grouped;
    EmptyGroup(conns, 1);
    forall i | 0 <= i < |conns| ensures !Listed(conns[i], 1) {
      assert Inv(env, conns[i]);
    }
  }

  lemma SwitchInv(env: Env, t: State)
    requires t.current < |t.conns| && AllInv(env, t.conns)
    requires t.conns[t.current].executable == 2 ==> t.count == ChoiceCount(t.conns[t.current])
    ensures SysInv(env, Switch(t))
  {
    hide Inv;
  }

  lemma ForwardStepInv(env: Env, s: State, choice: nat)
    requires Sound(env) && SysInv(env, s) && s.process == Forward && choice < s.count
    ensures ExecStep(env, s, choice).Some? && SysInv(env, ExecStep(env, s, choice).value)
  {
    hide Inv, Sound, Step, ChoiceCount, ChooseCount;
    StepSafe(env, s.conns[s.current], choice);
    SwitchInv(env, ForwardStep(env, s, choice).value);
  }

  lemma ChooseStepInv(env: Env, s: State, choice: nat)
    requires Sound(env) && SysInv(env, s) && s.process == ChooseConn && choice < s.count
    ensures ExecStep(env, s, choice).Some? && SysInv(env, ExecStep(env, s, choice).value)
  {
    hide Sound, Step, Group;
    NoneEntering(env, s.conns);
    if Grouped(s.conns, 2) != [] {
      FirstOfGroup(s.conns, 2);
    } else {
      FirstOfGroup(s.conns, 0);
    }
    var (i, c) := Chosen(s.conns, choice).value;
    assert Inv(env, s.conns[i]) && Inv(env, c);
    SwitchInv(env, ChooseStep(s, choice).value);
  }

  // Choices that are each below the number of choices offered at their step.
  predicate Legal(env: Env, s: State, choices: seq<nat>)
    requires s.current < |s.conns|
    decreases |choices|
  {
    choices == [] ||
    (choices[0] < s.count &&
     (ExecStep(env, s, choices[0]).Some? ==> Legal(env, ExecStep(env, s, choices[0]).value, choices[1..])))
  }

  // The state after a run; None if some step fails.
  function Run(env: Env, s: State, choices: seq<nat>): Option<State>
    requires s.current < |s.conns|
    decreases |choices|
  {
    if choices == [] then Some(s)
    else match ExecStep(env, s, choices[0])
      case None => None
      case Some(t) => Run(env, t, choices[1..])
  }

  // A run goes on with one more choice.
  lemma {:induction false} RunSnoc(env: Env, s: State, choices: seq<nat>, choice: nat)
    requires s.current < |s.conns| && Run(env, s, choices).Some?
    requires Run(env, s, choices).value.current < |Run(env, s, choices).value.conns|
    ensures Run(env, s, choices + [choice]) == ExecStep(env, Run(env, s, choices).value, choice)
    ensures Legal(env, s, choices) && choice < Run(env, s, choices).value.count ==> Legal(env, s, choices + [choice])
    decreases |choices|
  {
    hide ExecStep;
    if choices == [] {
      assert [] + [choice] == [choice] && [choice][1..] == [];
    } else {
      var t := ExecStep(env, s, choices[0]).value;
      assert (choices + [choice])[1..] == choices[1..] + [choice];
      RunSnoc(env, t, choices[1..], choice);
    }
  }

  // Every step of every legal run succeeds and keeps the invariant.
  lemma {:induction false} RunSafe(env: Env, s: State, choices: seq<nat>)
    requires Sound(env) && SysInv(env, s) && Legal(env, s, choices)
    ensures Run(env, s, choices).Some? && SysInv(env, Run(env, s, choices).value)
    decreases |choices|
  {
    hide Sound, ExecStep, Inv;
    if choices != [] {
      if s.process == Forward { ForwardStepInv(env, s, choices[0]); } else { ChooseStepInv(env, s, choices[0]); }
      RunSafe(env, ExecStep(env, s, choices[0]).value, choices[1..]);
    }
  }

  lemma CandidatesNonEmpty(env: Env, c: Conn)
    requires Inv(env, c) && c.executable == 2
    ensures ChoiceCount(c) > 0
  {
  }

  // The system stops, with no choice left, exactly when every connection is dropped or has
  // accepted its last packet.
  lemma StopsWhenFinished(env: Env, s: State)
    requires SysInv(env, s)
    ensures s.count == 0 <==> forall i :: 0 <= i < |s.conns| ==> Finished(s.conns[i])
  {
    hide ChoiceCount, Grouped;
    if s.process == Forward {
      CandidatesNonEmpty(env, s.conns[s.current]);
      assert !Finished(s.conns[s.current]);
    } else {
      NoneEntering(env, s.conns);
      EmptyGroup(s.conns, 2);
      EmptyGroup(s.conns, 0);
      forall i | 0 <= i < |s.conns|
        ensures Finished(s.conns[i]) <==> !Listed(s.conns[i], 2) && !Listed(s.conns[i], 0)
      {
        assert Inv(env, s.conns[i]);
      }
    }
  }

  // ---- Which process runs ----

  // Packets are forwarded while the active connection can be and does not enter a middlebox;
  // otherwise the next connection is chosen.
  predicate Handing(s: State) {
    s.current < |s.conns| &&
    if s.conns[s.current].executable == 2 then s.process == Forward
    else s.process == ChooseConn && s.count == ChooseCount(s.conns)
  }

  // The step itself, and which process runs after it.
  lemma StepHands(env: Env, s: State, choice: nat)
    requires s.current < |s.conns| && ExecStep(env, s, choice).Some?
    ensures Handing(ExecStep(env, s, choice).value)
    ensures s.process == Forward ==>
              var t, e := ExecStep(env, s, choice).value, Step(env, s.conns[s.current], choice, s.count);
              && e.Some? && t.conns == s.conns[s.current := e.value.c] && t.current == s.current
              && (e.value.c.executable == 2 ==> t.count == e.value.count)
    ensures s.process == ChooseConn ==>
              var t, u := ExecStep(env, s, choice).value, ChooseStep(s, choice);
              && u.Some? && t.conns == u.value.conns && t.current == u.value.current
              && (t.conns[t.current].executable == 2 ==> t.count == u.value.count)
  {
    hide Step, ChooseCount, CountAfterChoosing;
  }

  // In every run, in networks with middleboxes as well as long as no packet is injected.
  lemma {:induction false} RunHands(env: Env, s: State, choices: seq<nat>)
    requires Handing(s) && Run(env, s, choices).Some?
    ensures Handing(Run(env, s, choices).value)
    decreases |choices|
  {
    hide Handing, ExecStep;
    if choices != [] {
      HandingCurrent(s);
      StepHands(env, s, choices[0]);
      RunHands(env, ExecStep(env, s, choices[0]).value, choices[1..]);
    }
  }

  lemma HandingCurrent(s: State)
    requires Handing(s)
    ensures s.current < |s.conns|
  {
  }

  // ---- Free interleaving ----

  // A free scheduler's move: a forwarding step of any executable connection.
  datatype Move = Move(conn: nat, choice: nat)

  function FreeStep(env: Env, conns: seq<Conn>, m: Move): (r: Option<seq<Conn>>)
    ensures r.Some? ==> |r.value| == |conns|
  {
    if m.conn >= |conns| || conns[m.conn].executable != 2 || m.choice >= ChoiceCount(conns[m.conn]) then None
    else match Step(env, conns[m.conn], m.choice, ChoiceCount(conns[m.conn]))
      case None => None
      case Some(e) => Some(conns[m.conn := e.c])
  }

  function FreeRun(env: Env, conns: seq<Conn>, sched: seq<Move>): (r: Option<seq<Conn>>)
    ensures r.Some? ==> |r.value| == |conns|
    decreases |sched|
  {
    if sched == [] then Some(conns)
    else match FreeStep(env, conns, sched[0])
      case None => None
      case Some(next) => FreeRun(env, next, sched[1..])
  }

  // The choices a schedule makes for connection i, in order.
  function ChoicesOf(sched: seq<Move>, i: nat): (r: seq<nat>)
    ensures |r| <= |sched|
    decreases |sched|
  {
    if sched == [] then []
    else (if sched[0].conn == i then [sched[0].choice] else []) + ChoicesOf(sched[1..], i)
  }

  // All of a connection's choices can be made one after the other on its own.
  predicate RunsAlone(env: Env, conns: seq<Conn>, sched: seq<Move>, i: nat)
    requires i < |conns|
  {
    LocalRun(env, conns[i], ChoicesOf(sched, i)).Some?
  }

  lemma ChoicesOfHead(sched: seq<Move>, i: nat)
    requires sched != []
    ensures sched[0].conn == i ==>
              ChoicesOf(sched, i) != [] && ChoicesOf(sched, i)[0] == sched[0].choice &&
              ChoicesOf(sched, i)[1..] == ChoicesOf(sched[1..], i)
    ensures sched[0].conn != i ==> ChoicesOf(sched, i) == ChoicesOf(sched[1..], i)
  {
  }

  lemma FirstMoveLocal(env: Env, conns: seq<Conn>, sched: seq<Move>, i: nat)
    requires sched != [] && sched[0].conn < |conns| && i < |conns|
    ensures FreeStep(env, conns, sched[0]).Some? ==>
              LocalRun(env, conns[i], ChoicesOf(sched, i)) ==
              LocalRun(env, FreeStep(env, conns, sched[0]).value[i], ChoicesOf(sched[1..], i))
    ensures FreeStep(env, conns, sched[0]).None? ==> !RunsAlone(env, conns, sched, sched[0].conn)
  {
    hide Step, ChoiceCount;
    ChoicesOfHead(sched, i);
    ChoicesOfHead(sched, sched[0].conn);
  }

  // A free run succeeds exactly when every connection can make its own choices alone, and then
  // every connection ends where it ends alone: steps of different connections do not interfere.
  lemma {:induction false} RunIsLocalRuns(env: Env, conns: seq<Conn>, sched: seq<Move>)
    requires forall m :: m in sched ==> m.conn < |conns|
    ensures FreeRun(env, conns, sched).Some? <==> forall i :: 0 <= i < |conns| ==> RunsAlone(env, conns, sched, i)
    ensures FreeRun(env, conns, sched).Some? ==>
              forall i :: 0 <= i < |conns| ==>
                Some(FreeRun(env, conns, sched).value[i]) == LocalRun(env, conns[i], ChoicesOf(sched, i))
    decreases |sched|
  {
    hide FreeStep, LocalRun, ChoicesOf;
    if sched == [] {
      forall i | 0 <= i < |conns| ensures LocalRun(env, conns[i], ChoicesOf(sched, i)) == Some(conns[i]) {
        NoMoves(env, conns[i], i);
      }
    } else {
      assert sched[0] in sched;
      FirstMoveLocal(env, conns, sched, sched[0].conn);
      if FreeStep(env, conns, sched[0]).Some? {
        var next := FreeStep(env, conns, sched[0]).value;
        RunIsLocalRuns(env, next, sched[1..]);
        forall i | 0 <= i < |conns|
          ensures LocalRun(env, conns[i], ChoicesOf(sched, i)) == LocalRun(env, next[i], ChoicesOf(sched[1..], i))
          ensures RunsAlone(env, conns, sched, i) == RunsAlone(env, next, sched[1..], i)
        {
          FirstMoveLocal(env, conns, sched, i);
        }
      }
    }
  }

  lemma NoMoves(env: Env, c: Conn, i: nat)
    ensures LocalRun(env, c, ChoicesOf([], i)) == Some(c)
  {
  }

  // Schedules that make the same choices for each connection have the same outcome.
  lemma InterleavingIrrelevant(env: Env, conns: seq<Conn>, s1: seq<Move>, s2: seq<Move>)
    requires forall m :: m in s1 + s2 ==> m.conn < |conns|
    requires forall i :: 0 <= i < |conns| ==> ChoicesOf(s1, i) == ChoicesOf(s2, i)
    ensures FreeRun(env, conns, s1) == FreeRun(env, conns, s2)
  {
    hide FreeRun, LocalRun, ChoicesOf;
    forall m | m in s1 ensures m.conn < |conns| { assert m in s1 + s2; }
    forall m | m in s2 ensures m.conn < |conns| { assert m in s1 + s2; }
    RunIsLocalRuns(env, conns, s1);
    RunIsLocalRuns(env, conns, s2);
    forall i | 0 <= i < |conns| ensures RunsAlone(env, conns, s1, i) == RunsAlone(env, conns, s2, i) {
    }
    if FreeRun(env, conns, s1).Some? {
      var a, b := FreeRun(env, conns, s1).value, FreeRun(env, conns, s2).value;
      forall i | 0 <= i < |conns| ensures a[i] == b[i] {
        assert Some(a[i]) == Some(b[i]);
      }
      assert a == b;
    }
  }

  // ---- The fixed order reaches the outcomes of all interleavings, and no others ----

  // A connection that waits for a packet that never comes is dropped in the end.
  function Settled(c: Conn): Conn {
    if Listed(c, 0) then c.(mode := Dropped) else c
  }

  function AllSettled(conns: seq<Conn>): (r: seq<Conn>)
    ensures |r| == |conns|
    ensures forall i :: 0 <= i < |conns| ==> r[i] == Settled(conns[i])
  {
    seq(|conns|, i requires 0 <= i < |conns| => Settled(conns[i]))
  }

  predicate Halted(conns: seq<Conn>) {
    forall i :: 0 <= i < |conns| ==> conns[i].executable != 2
  }

  predicate AllFinished(conns: seq<Conn>) {
    forall i :: 0 <= i < |conns| ==> Finished(conns[i])
  }

  lemma SettledOnce(conns: seq<Conn>, other: seq<Conn>)
    requires AllSettled(conns) == AllSettled(other)
    ensures |conns| == |other| && (Halted(conns) <==> Halted(other))
    ensures AllFinished(conns) ==> conns == AllSettled(other)
  {
    forall i | 0 <= i < |conns| ensures conns[i].executable == other[i].executable {
      assert AllSettled(conns)[i] == AllSettled(other)[i];
    }
  }

  lemma DroppingOne(conns: seq<Conn>, i: nat)
    requires i < |conns| && Listed(conns[i], 0)
    ensures AllSettled(conns[i := conns[i].(mode := Dropped)]) == AllSettled(conns)
  {
  }

  lemma HaltedCannotMove(env: Env, conns: seq<Conn>, sched: seq<Move>)
    requires Halted(conns) && FreeRun(env, conns, sched).Some?
    ensures sched == []
  {
  }

  // The schedule without connection i's first move.
  function Without(sched: seq<Move>, i: nat): seq<Move>
    decreases |sched|
  {
    if sched == [] then []
    else if sched[0].conn == i then sched[1..]
    else [sched[0]] + Without(sched[1..], i)
  }

  lemma {:induction false} WithoutFirst(sched: seq<Move>, i: nat, j: nat)
    requires ChoicesOf(sched, i) != []
    ensures |Without(sched, i)| == |sched| - 1
    ensures ChoicesOf(Without(sched, i), j) == if j == i then ChoicesOf(sched, i)[1..] else ChoicesOf(sched, j)
    ensures forall m :: m in Without(sched, i) ==> m in sched
    decreases |sched|
  {
    ChoicesOfHead(sched, i);
    ChoicesOfHead(sched, j);
    if sched[0].conn != i {
      WithoutFirst(sched[1..], i, j);
      var w := Without(sched, i);
      assert w[0] == sched[0] && w[1..] == Without(sched[1..], i);
      ChoicesOfHead(w, j);
    }
  }

  // Connection i's first move can be made first.
  lemma MoveFirst(env: Env, conns: seq<Conn>, sched: seq<Move>, i: nat)
    requires FreeRun(env, conns, sched).Some? && forall m :: m in sched ==> m.conn < |conns|
    requires i < |conns| && ChoicesOf(sched, i) != []
    ensures var m := Move(i, ChoicesOf(sched, i)[0]);
            FreeStep(env, conns, m).Some? &&
            FreeRun(env, FreeStep(env, conns, m).value, Without(sched, i)) == FreeRun(env, conns, sched)
    ensures |Without(sched, i)| < |sched| && forall m :: m in Without(sched, i) ==> m.conn < |conns|
  {
    hide FreeStep, ChoicesOf, Without;
    var m := Move(i, ChoicesOf(sched, i)[0]);
    var moved := [m] + Without(sched, i);
    assert moved[0] == m && moved[1..] == Without(sched, i);
    WithoutFirst(sched, i, i);
    forall j | 0 <= j < |conns| ensures ChoicesOf(moved, j) == ChoicesOf(sched, j) {
      WithoutFirst(sched, i, j);
      ChoicesOfHead(moved, j);
      FirstAndRest(ChoicesOf(moved, j), ChoicesOf(sched, j), j == i);
    }
    InterleavingIrrelevant(env, conns, moved, sched);
  }

  lemma FirstAndRest(a: seq<nat>, b: seq<nat>, both: bool)
    requires both ==> a != [] && b != [] && a[0] == b[0] && a[1..] == b[1..]
    requires !both ==> a == b
    ensures a == b
  {
    if both { assert a == [a[0]] + a[1..] == [b[0]] + b[1..] == b; }
  }

  lemma {:induction false} IdleStays(env: Env, conns: seq<Conn>, sched: seq<Move>, i: nat)
    requires i < |conns| && FreeRun(env, conns, sched).Some? && ChoicesOf(sched, i) == []
    ensures FreeRun(env, conns, sched).value[i] == conns[i]
    decreases |sched|
  {
    hide ChoicesOf;
    if sched != [] {
      ChoicesOfHead(sched, i);
      IdleStays(env, FreeStep(env, conns, sched[0]).value, sched[1..], i);
    }
  }

  lemma {:induction false} MovesInRange(env: Env, conns: seq<Conn>, sched: seq<Move>)
    requires FreeRun(env, conns, sched).Some?
    ensures forall m :: m in sched ==> m.conn < |conns|
    decreases |sched|
  {
    if sched != [] {
      MovesInRange(env, FreeStep(env, conns, sched[0]).value, sched[1..]);
      forall m | m in sched ensures m.conn < |conns| {
        assert m == sched[0] || m in sched[1..];
      }
    }
  }

  // How far the first connection to be dropped is from the end.
  function ToDrop(conns: seq<Conn>): nat {
    if Grouped(conns, 0) == [] then 0 else
      assert Grouped(conns, 0)[0] in Grouped(conns, 0);
      |conns| - Grouped(conns, 0)[0]
  }

  lemma DroppingProgress(conns: seq<Conn>)
    requires Grouped(conns, 0) != [] && Grouped(conns, 0)[0] < |conns|
    ensures var i := Grouped(conns, 0)[0]; ToDrop(conns[i := conns[i].(mode := Dropped)]) < ToDrop(conns)
  {
    hide Group;
    FirstOfGroup(conns, 0);
    var i := Grouped(conns, 0)[0];
    var after := conns[i := conns[i].(mode := Dropped)];
    if Grouped(after, 0) != [] {
      FirstOfGroup(after, 0);
      assert Grouped(after, 0)[0] in Grouped(conns, 0);
    }
  }

  // The scheduler's step when some connection is executable: the first such connection goes on.
  lemma ChoosesExecutable(env: Env, s: State)
    requires SysInv(env, s) && s.process == ChooseConn && Grouped(s.conns, 2) != []
    ensures s.count == 1 && ExecStep(env, s, 0).Some?
    ensures var t := ExecStep(env, s, 0).value; t.process == Forward && t.conns == s.conns
  {
    hide Group, Inv, ChoiceCount;
    FirstOfGroup(s.conns, 2);
    assert Inv(env, s.conns[Grouped(s.conns, 2)[0]]);
    HasCandidates(env, s.conns[Grouped(s.conns, 2)[0]]);
  }

  lemma HasCandidates(env: Env, c: Conn)
    requires Inv(env, c) && c.executable == 2
    ensures CountAfterChoosing(c).Some?
  {
  }

  // The scheduler's step when none is: the first unfinished connection is dropped.
  lemma ChoosesStopped(env: Env, s: State)
    requires SysInv(env, s) && s.process == ChooseConn && Grouped(s.conns, 2) == [] && s.count != 0
    ensures s.count == 1 && Grouped(s.conns, 0) != [] && ExecStep(env, s, 0).Some?
    ensures var t, i := ExecStep(env, s, 0).value, Grouped(s.conns, 0)[0];
            i < |s.conns| && Listed(s.conns[i], 0) &&
            t.process == ChooseConn && t.conns == s.conns[i := s.conns[i].(mode := Dropped)]
  {
    hide Group, Inv;
    NoneEntering(env, s.conns);
    FirstOfGroup(s.conns, 0);
  }

  lemma NothingExecutable(s: State)
    ensures Grouped(s.conns, 2) == [] <==> Halted(s.conns)
  {
    hide Grouped;
    EmptyGroup(s.conns, 2);
    forall i | 0 <= i < |s.conns| ensures Listed(s.conns[i], 2) <==> s.conns[i].executable == 2 {
    }
  }

  // A legal run that stops with the given connections.
  ghost predicate Stops(env: Env, s: State, choices: seq<nat>, final: seq<Conn>) {
    && s.current < |s.conns| && Legal(env, s, choices)
    && Run(env, s, choices).Some? && Run(env, s, choices).value.count == 0
    && Run(env, s, choices).value.conns == final
  }

  lemma StopsLater(env: Env, s: State, choice: nat, choices: seq<nat>, final: seq<Conn>)
    requires s.current < |s.conns| && choice < s.count && ExecStep(env, s, choice).Some?
    requires Stops(env, ExecStep(env, s, choice).value, choices, final)
    ensures Stops(env, s, [choice] + choices, final)
  {
    hide ExecStep;
    assert ([choice] + choices)[1..] == choices;
  }

  lemma ForwardStepIsMove(env: Env, s: State, choice: nat)
    requires SysInv(env, s) && s.process == Forward && choice < s.count
    ensures ExecStep(env, s, choice).Some? <==> FreeStep(env, s.conns, Move(s.current, choice)).Some?
    ensures ExecStep(env, s, choice).Some? ==>
              Some(ExecStep(env, s, choice).value.conns) == FreeStep(env, s.conns, Move(s.current, choice))
  {
    hide Inv, Step, ChoiceCount, ChooseCount;
  }

  // Every halting interleaving is matched by a legal run of the fixed order.
  lemma {:induction false} Serialise(env: Env, s: State, sched: seq<Move>) returns (choices: seq<nat>)
    requires Sound(env) && SysInv(env, s)
    requires FreeRun(env, s.conns, sched).Some? && Halted(FreeRun(env, s.conns, sched).value)
    ensures Stops(env, s, choices, AllSettled(FreeRun(env, s.conns, sched).value))
    decreases |sched|, ToDrop(s.conns), s.process == ChooseConn
  {
    hide Sound, ExecStep, FreeStep, ChoicesOf, Without, Grouped, Inv, ToDrop, Settled, ChoiceCount, ChooseCount, Stops;
    var final := AllSettled(FreeRun(env, s.conns, sched).value);
    MovesInRange(env, s.conns, sched);
    NothingExecutable(s);
    if s.process == Forward {
      var i := s.current;
      if ChoicesOf(sched, i) == [] { IdleStays(env, s.conns, sched, i); }
      MoveFirst(env, s.conns, sched, i);
      var choice := ChoicesOf(sched, i)[0];
      MoveIsLegal(env, s, choice);
      ForwardStepIsMove(env, s, choice);
      ForwardStepInv(env, s, choice);
      var rest := Serialise(env, ExecStep(env, s, choice).value, Without(sched, i));
      StopsLater(env, s, choice, rest, final);
      choices := [choice] + rest;
    } else if Grouped(s.conns, 2) != [] {
      ChoosesExecutable(env, s);
      ChooseStepInv(env, s, 0);
      var rest := Serialise(env, ExecStep(env, s, 0).value, sched);
      StopsLater(env, s, 0, rest, final);
      choices := [0] + rest;
    } else {
      HaltedCannotMove(env, s.conns, sched);
      if s.count == 0 {
        StopsWhenFinished(env, s);
        choices := [];
        StopsNow(env, s);
      } else {
        ChoosesStopped(env, s);
        ChooseStepInv(env, s, 0);
        DroppingProgress(s.conns);
        DroppingOne(s.conns, Grouped(s.conns, 0)[0]);
        var t := ExecStep(env, s, 0).value;
        var rest := Serialise(env, t, []);
        StopsLater(env, s, 0, rest, final);
        choices := [0] + rest;
      }
    }
  }

  lemma MoveIsLegal(env: Env, s: State, choice: nat)
    requires SysInv(env, s) && s.process == Forward && FreeStep(env, s.conns, Move(s.current, choice)).Some?
    ensures choice < s.count
  {
    hide Inv, Step, ChoiceCount;
  }

  lemma StopsNow(env: Env, s: State)
    requires s.current < |s.conns| && s.count == 0 && AllFinished(s.conns)
    ensures Stops(env, s, [], AllSettled(s.conns))
  {
    SettledOnce(s.conns, s.conns);
  }

  // Every legal run of the fixed order is some interleaving, up to dropping stopped connections.
  lemma {:induction false} Interleave(env: Env, s: State, choices: seq<nat>) returns (sched: seq<Move>)
    requires Sound(env) && SysInv(env, s) && Legal(env, s, choices) && Run(env, s, choices).Some?
    ensures FreeRun(env, s.conns, sched).Some?
    ensures AllSettled(FreeRun(env, s.conns, sched).value) == AllSettled(Run(env, s, choices).value.conns)
    decreases |choices|
  {
    hide Sound, ExecStep, FreeStep, Grouped, Inv, Settled, ChoiceCount, ChooseCount;
    NothingExecutable(s);
    if choices == [] {
      sched := [];
    } else if s.process == Forward {
      ForwardStepInv(env, s, choices[0]);
      ForwardStepIsMove(env, s, choices[0]);
      var rest := Interleave(env, ExecStep(env, s, choices[0]).value, choices[1..]);
      sched := [Move(s.current, choices[0])] + rest;
      assert sched[1..] == rest;
    } else if Grouped(s.conns, 2) != [] {
      ChoosesExecutable(env, s);
      ChooseStepInv(env, s, choices[0]);
      sched := Interleave(env, ExecStep(env, s, 0).value, choices[1..]);
    } else {
      ChoosesStopped(env, s);
      ChooseStepInv(env, s, choices[0]);
      var t := ExecStep(env, s, 0).value;
      DroppingOne(s.conns, Grouped(s.conns, 0)[0]);
      SettledOnce(s.conns, t.conns);
      var rest := Interleave(env, t, choices[1..]);
      HaltedCannotMove(env, t.conns, rest);
      sched := [];
    }
  }

  // What the connections can end as when every interleaving is explored.
  ghost predicate FreeOutcome(env: Env, conns: seq<Conn>, final: seq<Conn>) {
    exists sched :: FreeRun(env, conns, sched).Some? && Halted(FreeRun(env, conns, sched).value) &&
                    final == AllSettled(FreeRun(env, conns, sched).value)
  }

  // What they can end as in the fixed order.
  ghost predicate FixedOutcome(env: Env, s: State, final: seq<Conn>) {
    exists choices :: Stops(env, s, choices, final)
  }

  // Fixing the order loses no outcome and adds none.
  lemma FixedOrderIsComplete(env: Env, s: State, final: seq<Conn>)
    requires Sound(env) && SysInv(env, s)
    ensures FixedOutcome(env, s, final) <==> FreeOutcome(env, s.conns, final)
  {
    hide Sound, SysInv, Legal, Run, FreeRun, Halted, AllSettled;
    if FreeOutcome(env, s.conns, final) {
      var sched :| FreeRun(env, s.conns, sched).Some? && Halted(FreeRun(env, s.conns, sched).value) &&
                   final == AllSettled(FreeRun(env, s.conns, sched).value);
      var choices := Serialise(env, s, sched);
    }
    if FixedOutcome(env, s, final) {
      var choices :| Stops(env, s, choices, final);
      var sched := Interleave(env, s, choices);
      RunSafe(env, s, choices);
      FinishedAtTheEnd(env, Run(env, s, choices).value, FreeRun(env, s.conns, sched).value);
    }
  }

  lemma FinishedAtTheEnd(env: Env, t: State, conns: seq<Conn>)
    requires SysInv(env, t) && t.count == 0 && AllSettled(conns) == AllSettled(t.conns)
    ensures Halted(conns) && t.conns == AllSettled(conns)
  {
    hide SysInv;
    StopsWhenFinished(env, t);
    SettledOnce(t.conns, conns);
  }
}
