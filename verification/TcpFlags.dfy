/** From TCP flags on the wire back to protocol states (src/lib/net.cpp:43-70, 409-516, 652-669). */
module TcpFlags {
  import opened Options
  import opened Protocols

  // The flags a packet of the given TCP state is sent with.
  function WireFlags(ps: nat): nat
    requires IsTcp(ps)
  {
    if ps == TCP_INIT_1 then TH_SYN
    else if ps == TCP_INIT_2 then TH_SYN + TH_ACK
    else if ps == TCP_L7_REQ || ps == TCP_L7_REP then TH_PUSH + TH_ACK
    else if ps == TCP_TERM_1 || ps == TCP_TERM_2 then TH_FIN + TH_ACK
    else TH_ACK
  }

  // The state meant by a received packet on a connection that is in state prev; None for an
  // exception or a failed assertion. size is the payload's size.
  method ConvertProtoState(ps: nat, prev: nat, isNew: bool, opposite: bool, size: nat) returns (r: Option<nat>)
    ensures r == Converted(ps, prev, isNew, opposite, size)
  {
    if Raw(ps) {
      var flags := Flags(ps);
      if isNew && flags != TH_SYN { return None; }
      if flags == TH_SYN {
        r := Some(TCP_INIT_1);
      } else if flags == TH_SYN + TH_ACK {
        r := Some(TCP_INIT_2);
      } else if flags == TH_ACK || flags == TH_PUSH + TH_ACK {
        if prev == TCP_INIT_2 || prev == TCP_TERM_2 {
          r := if opposite then Some(prev + 1) else None;
        } else if prev == TCP_INIT_3 || prev == TCP_L7_REQ_A {
          r := Some(if size == 0 then prev else prev + 1);
          if opposite { r := None; }
        } else if prev == TCP_L7_REQ {
          if size == 0 {
            r := if opposite then Some(prev + 1) else None;
          } else {
            r := Some(if opposite then prev + 2 else prev);
          }
        } else if prev == TCP_L7_REP {
          if size == 0 {
            r := if opposite then Some(prev + 1) else None;
          } else {
            r := if !opposite then Some(prev) else None;
          }
        } else if prev == TCP_L7_REP_A || prev == TCP_TERM_3 {
          r := if size == 0 && !opposite then Some(prev) else None;
        } else {
          r := None;
        }
      } else if flags == TH_FIN + TH_ACK {
        if prev == TCP_INIT_3 || prev == TCP_L7_REQ_A || prev == TCP_L7_REP_A {
          r := Some(TCP_TERM_1);
        } else if prev == TCP_TERM_1 {
          r := Some(if opposite then TCP_TERM_2 else prev);
        } else if prev == TCP_TERM_2 {
          r := if !opposite then Some(prev) else None;
        } else {
          r := None;
        }
      } else {
        r := None;
      }
    } else if IsUdp(ps) {
      if isNew { r := Some(UDP_REQ); }
      else if opposite { r := if prev + 1 == UDP_REP then Some(prev + 1) else None; }
      else { r := Some(prev); }
    } else if IsIcmp(ps) && isNew && ps != ICMP_REQ {
      r := None;
    } else {
      r := Some(ps);
    }
  }

  // ---- What a packet means: a table by state instead of by flags ----

  // The acknowledgement of the other side's last packet.
  predicate Acknowledges(prev: nat) {
    prev == TCP_INIT_2 || prev == TCP_L7_REQ || prev == TCP_L7_REP || prev == TCP_TERM_2
  }

  // Data may follow in the same direction.
  predicate MayCarryOn(prev: nat) { prev == TCP_INIT_3 || prev == TCP_L7_REQ_A }

  // A plain or pushed acknowledgement.
  function AckMeans(prev: nat, opposite: bool, size: nat): Option<nat> {
    if opposite then
      if !Acknowledges(prev) then None
      else if size == 0 || prev == TCP_INIT_2 || prev == TCP_TERM_2 then Some(prev + 1)
      else if prev == TCP_L7_REQ then Some(TCP_L7_REP)
      else None
    else if MayCarryOn(prev) then Some(if size == 0 then prev else prev + 1)
    else if prev == TCP_L7_REQ || prev == TCP_L7_REP then if size > 0 then Some(prev) else None
    else if prev == TCP_L7_REP_A || prev == TCP_TERM_3 then if size == 0 then Some(prev) else None
    else None
  }

  function FinMeans(prev: nat, opposite: bool): Option<nat> {
    if MayCarryOn(prev) || prev == TCP_L7_REP_A then Some(TCP_TERM_1)
    else if prev == TCP_TERM_1 then Some(if opposite then TCP_TERM_2 else TCP_TERM_1)
    else if prev == TCP_TERM_2 && !opposite then Some(TCP_TERM_2)
    else None
  }

  function Converted(ps: nat, prev: nat, isNew: bool, opposite: bool, size: nat): Option<nat> {
    if Raw(ps) then
      if Flags(ps) == TH_SYN then Some(TCP_INIT_1)
      else if isNew then None
      else if Flags(ps) == TH_SYN + TH_ACK then Some(TCP_INIT_2)
      else if Flags(ps) == TH_ACK || Flags(ps) == TH_PUSH + TH_ACK then AckMeans(prev, opposite, size)
      else if Flags(ps) == TH_FIN + TH_ACK then FinMeans(prev, opposite)
      else None
    else if IsUdp(ps) then
      if isNew then Some(UDP_REQ)
      else if !opposite then Some(prev)
      else if prev == UDP_REQ then Some(UDP_REP)
      else None
    else if IsIcmp(ps) && isNew && ps != ICMP_REQ then None
    else Some(ps)
  }

  // ---- Round trip ----

  // A request or reply with a payload, an acknowledgement without one.
  predicate PayloadFits(ps: nat, size: nat) {
    && (ps == TCP_L7_REQ || ps == TCP_L7_REP ==> size > 0)
    && (ps == TCP_L7_REQ_A || ps == TCP_L7_REP_A ==> size == 0)
  }

  // The next packet of a session, sent with the flags of its state, is read back as that state
  // exactly when its payload fits the state.
  lemma FlagsRoundTrip(prev: nat, atMiddlebox: bool, size: nat)
    requires IsTcp(prev) && !IsLast(prev)
    ensures var next := After(prev, atMiddlebox);
            Converted(RAW + WireFlags(next.state), prev, false, next.turn, size) == Some(next.state) <==>
            PayloadFits(next.state, size)
  {
    var next := After(prev, atMiddlebox).state;
    assert Raw(RAW + WireFlags(next)) && Flags(RAW + WireFlags(next)) == WireFlags(next);
  }

  // A reply that comes without a separate acknowledgement of the request is read as a reply, and a
  // termination of either end as one.
  lemma ShortcutsRoundTrip(size: nat, opposite: bool, prev: nat)
    ensures Converted(RAW + WireFlags(TCP_L7_REP), TCP_L7_REQ, false, true, size) == Some(TCP_L7_REP) <==> size > 0
    ensures Converted(RAW + WireFlags(TCP_TERM_1), prev, false, opposite, size) == Some(TCP_TERM_1) <==>
            prev == TCP_INIT_3 || prev == TCP_L7_REQ_A || prev == TCP_L7_REP_A || (prev == TCP_TERM_1 && !opposite)
  {
    assert Raw(RAW + WireFlags(TCP_L7_REP)) && Flags(RAW + WireFlags(TCP_L7_REP)) == WireFlags(TCP_L7_REP);
    assert Raw(RAW + WireFlags(TCP_TERM_1)) && Flags(RAW + WireFlags(TCP_TERM_1)) == WireFlags(TCP_TERM_1);
  }

  // A repeated packet is read as the state its connection is in.
  lemma RepeatedPacket(prev: nat, size: nat)
    requires IsTcp(prev) && PayloadFits(prev, size) && (prev == TCP_INIT_3 || prev == TCP_TERM_3 ==> size == 0)
    ensures Converted(RAW + WireFlags(prev), prev, false, false, size) == Some(prev)
  {
    assert Raw(RAW + WireFlags(prev)) && Flags(RAW + WireFlags(prev)) == WireFlags(prev);
  }

  // ---- The same with the values on the wire ----

  // Flags sent in the states 1 to 10.
  const SENT := [0x02, 0x12, 0x10, 0x18, 0x10, 0x18, 0x10, 0x11, 0x11, 0x10]

  lemma SentFlags(ps: nat)
    requires IsTcp(ps)
    ensures WireFlags(ps) == SENT[ps - 1]
  {
  }

  // The state an ACK, pushed or not, is read as, by the connection's state, whether the packet comes
  // from the opposite side and whether it has a payload.
  const ACK_STATES: map<(nat, bool, bool), nat> := map[
    (2, true, false) := 3, (2, true, true) := 3, (9, true, false) := 10, (9, true, true) := 10,
    (4, true, false) := 5, (4, true, true) := 6, (6, true, false) := 7,
    (3, false, false) := 3, (3, false, true) := 4, (5, false, false) := 5, (5, false, true) := 6,
    (4, false, true) := 4, (6, false, true) := 6, (7, false, false) := 7, (10, false, false) := 10]

  // The same for FIN and ACK.
  const FIN_STATES: map<(nat, bool), nat> := map[
    (3, true) := 8, (3, false) := 8, (5, true) := 8, (5, false) := 8, (7, true) := 8, (7, false) := 8,
    (8, true) := 9, (8, false) := 8, (9, false) := 9]

  // All other flags, states and directions fail; a new connection starts with SYN alone.
  lemma TcpIsRead(flags: nat, prev: nat, isNew: bool, opposite: bool, size: nat)
    requires flags < 0x800
    ensures Converted(0x800 + flags, prev, isNew, opposite, size) ==
            if flags == 0x02 then Some(1)
            else if isNew then None
            else if flags == 0x12 then Some(2)
            else if flags == 0x10 || flags == 0x18 then
              if (prev, opposite, size > 0) in ACK_STATES then Some(ACK_STATES[(prev, opposite, size > 0)]) else None
            else if flags == 0x11 then
              if (prev, opposite) in FIN_STATES then Some(FIN_STATES[(prev, opposite)]) else None
            else None
  {
    assert Raw(0x800 + flags) && Flags(0x800 + flags) == flags;
  }

  // UDP packets do not say whether they ask or answer: a new one asks, one from the opposite side
  // answers a request and nothing else, and any other repeats the state of its connection.
  lemma UdpIsRead(ps: nat, prev: nat, isNew: bool, opposite: bool, size: nat)
    requires ps == 11 || ps == 12
    ensures Converted(ps, prev, isNew, opposite, size) ==
            if isNew then Some(11) else if !opposite then Some(prev) else if prev == 11 then Some(12) else None
  {
  }

  // ICMP packets do; only a new one that answers fails.
  lemma IcmpIsRead(ps: nat, prev: nat, isNew: bool, opposite: bool, size: nat)
    requires ps == 13 || ps == 14
    ensures Converted(ps, prev, isNew, opposite, size) == if isNew && ps == 14 then None else Some(ps)
  {
  }

  // A request starts its connection, and its answer, from the opposite side, is read as the state
  // that follows and starts a new phase. The received UDP answer looks like a request.
  lemma RequestsAreAnswered(atMiddlebox: bool, prev: nat, size: nat)
    ensures Converted(11, prev, true, false, size) == Some(11) && Converted(13, prev, true, false, size) == Some(13)
    ensures After(11, atMiddlebox) == Next(12, true) && Converted(11, 11, false, true, size) == Some(12)
    ensures After(13, atMiddlebox) == Next(14, true) && Converted(14, 13, false, true, size) == Some(14)
    ensures IsFirst(11) && IsFirst(13) && IsLast(12) && IsLast(14)
  {
  }

  // What a packet does to its connection: the state it leads to and whether that is a new phase;
  // None for a failed assertion. An earlier state than the connection's is marked invalid.
  datatype Processed = Processed(state: nat, nextPhase: bool)

  method ProcessProtoState(ps: nat, prev: nat, isNew: bool, opposite: bool, size: nat) returns (r: Option<Processed>)
    ensures r.None? <==> Converted(ps, prev, isNew, opposite, size).None? ||
                         (isNew && !IsFirst(Converted(ps, prev, isNew, opposite, size).value))
    ensures r.Some? ==>
              var n := Converted(ps, prev, isNew, opposite, size).value;
              && (r.value.nextPhase <==> !isNew && n > prev)
              && r.value.state == if !isNew && n < prev then PS_INVALID else n
  {
    hide Converted;
    var n := ConvertProtoState(ps, prev, isNew, opposite, size);
    if n.None? { return None; }
    if isNew {
      if !IsFirst(n.value) { return None; }
      return Some(Processed(n.value, false));
    }
    if n.value == prev { return Some(Processed(n.value, false)); }
    if n.value > prev { return Some(Processed(n.value, true)); }
    return Some(Processed(PS_INVALID, n.value > prev));
  }

  // Every next packet of a session starts a new phase of its connection.
  lemma SessionAdvances(prev: nat, atMiddlebox: bool, size: nat)
    requires IsTcp(prev) && !IsLast(prev) && PayloadFits(After(prev, atMiddlebox).state, size)
    ensures var next := After(prev, atMiddlebox);
            Converted(RAW + WireFlags(next.state), prev, false, next.turn, size).Some? &&
            Converted(RAW + WireFlags(next.state), prev, false, next.turn, size).value > prev
  {
    FlagsRoundTrip(prev, atMiddlebox, size);
  }
}
