/** Protocol states of a connection (src/protocols.hpp). */
module Protocols {
  const PS_INVALID := 0
  const TCP_INIT_1 := 1
  const TCP_INIT_2 := 2
  const TCP_INIT_3 := 3
  const TCP_L7_REQ := 4
  const TCP_L7_REQ_A := 5
  const TCP_L7_REP := 6
  const TCP_L7_REP_A := 7
  const TCP_TERM_1 := 8
  const TCP_TERM_2 := 9
  const TCP_TERM_3 := 10
  const UDP_REQ := 11
  const UDP_REP := 12
  const ICMP_REQ := 13
  const ICMP_REP := 14

  predicate IsFirst(x: nat) { x == TCP_INIT_1 || x == UDP_REQ || x == ICMP_REQ }

  predicate IsLast(x: nat) { x == TCP_TERM_3 || x == UDP_REP || x == ICMP_REP }

  predicate IsTcp(x: nat) { TCP_INIT_1 <= x <= TCP_TERM_3 }

  predicate IsUdp(x: nat) { UDP_REQ <= x <= UDP_REP }

  predicate IsIcmp(x: nat) { ICMP_REQ <= x <= ICMP_REP }

  predicate HasSyn(x: nat) { x == TCP_INIT_1 || x == TCP_INIT_2 }

  predicate HasFin(x: nat) { x == TCP_TERM_1 || x == TCP_TERM_2 }

  predicate Known(x: nat) { TCP_INIT_1 <= x <= ICMP_REP }

  // The state a delivered packet is answered or followed by, and whether the direction turns;
  // final states have none. atMiddlebox: the packet was delivered at an emulated node.
  datatype Transition = Final | Next(state: nat, turn: bool)

  function After(x: nat, atMiddlebox: bool): Transition {
    if IsLast(x) then Final
    else if x == TCP_INIT_3 || x == TCP_L7_REQ_A then Next(x + 1, false)
    else if x == TCP_L7_REP_A then Next(x + 1, !atMiddlebox)
    else Next(x + 1, true)
  }

  // 32-bit sequence numbers.
  type Seq32 = n: int | 0 <= n < 0x1_0000_0000

  function Add32(a: Seq32, n: nat): Seq32 {
    (a + n) % 0x1_0000_0000
  }

  // The sequence space a packet of state ps with the given payload size occupies.
  function Occupies(ps: nat, payload: nat): nat {
    if payload > 0 then payload else if HasSyn(ps) || HasFin(ps) then 1 else 0
  }

  function Sub32(a: Seq32, n: nat): Seq32 {
    (a - n) % 0x1_0000_0000
  }

  // 16-bit port numbers.
  type Port = n: int | 0 <= n < 0x1_0000

  const DYNAMIC_PORT: Port := 49152

  function Add16(a: Port, n: nat): Port { (a + n) % 0x1_0000 }

  function Sub16(a: Port, n: nat): Port { (a - n) % 0x1_0000 }

  // The flags of a TCP packet as received, marked as not yet converted to a state.
  const RAW := 0x800
  const TH_FIN := 0x01
  const TH_SYN := 0x02
  const TH_PUSH := 0x08
  const TH_ACK := 0x10

  predicate Raw(x: nat) { x / RAW % 2 == 1 }

  predicate IsTcpOrRaw(x: nat) { IsTcp(x) || Raw(x) }

  function Flags(x: nat): nat { if Raw(x) then x - RAW else x }
}
