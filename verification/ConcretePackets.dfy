/** Concrete packets (src/packet.hpp). */
module ConcretePackets {
  import opened Addressing
  import opened Protocols

  type Byte = n: int | 0 <= n < 256

  // interface is the address of the interface object; protoState holds a protocol state, or the
  // marked flags of a received TCP packet.
  datatype Packet = Packet(interface: nat, srcIp: Addr, dstIp: Addr, srcPort: Port, dstPort: Port,
                           seqNo: Seq32, ackNo: Seq32, protoState: nat, payload: seq<Byte>)
}
