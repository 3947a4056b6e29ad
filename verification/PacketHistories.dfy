/** Shared packet histories (src/pkt-hist.cpp) and the store that shares equal ones
    (src/unique-storage.cpp:99-115). Pointers are addresses. */
module PacketHistories {
  import opened ConcretePackets
  import opened Sequences

  type PacketPtr = nat

  // 0 is the null pointer, the empty history. Two histories' addresses are only ever compared for
  // equality; they are numbered in the order of creation.
  type HistPtr = nat

  datatype Node = Node(last: PacketPtr, past: HistPtr)

  type Chains = map<HistPtr, Node>

  predicate Stored(cs: Chains, h: HistPtr) { h == 0 || h in cs }

  // The past of a history was stored before it.
  predicate LinkedAt(cs: Chains, h: HistPtr) {
    h in cs ==> cs[h].past < h && Stored(cs, cs[h].past)
  }

  ghost predicate Chained(cs: Chains) {
    forall h {:trigger LinkedAt(cs, h)} :: LinkedAt(cs, h)
  }

  ghost function PastOf(cs: Chains, h: HistPtr): (g: HistPtr)
    requires Chained(cs) && h in cs
    ensures g == cs[h].past && g < h && Stored(cs, g)
  {
    assert LinkedAt(cs, h);
    cs[h].past
  }

  // No two histories have the same last packet and the same past.
  ghost predicate Shared(cs: Chains) {
    forall g, h {:trigger cs[g], cs[h]} :: g in cs && h in cs && cs[g] == cs[h] ==> g == h
  }

  // The packets of a history, oldest first.
  ghost function Packets(cs: Chains, h: HistPtr): seq<PacketPtr>
    requires Chained(cs) && Stored(cs, h)
    decreases h
  {
    if h == 0 || h !in cs then [] else Packets(cs, PastOf(cs, h)) + [cs[h].last]
  }

  ghost predicate Good(cs: Chains) { Chained(cs) && Shared(cs) && 0 !in cs }

  // With sharing, two histories are the same object exactly when they hold the same packets.
  lemma {:induction false} SameObjectSamePackets(cs: Chains, g: HistPtr, h: HistPtr)
    requires Good(cs) && Stored(cs, g) && Stored(cs, h)
    ensures g == h <==> Packets(cs, g) == Packets(cs, h)
    decreases g
  {
    if Packets(cs, g) == Packets(cs, h) && g != 0 && h != 0 {
      FrontOfSnoc(Packets(cs, PastOf(cs, g)), cs[g].last);
      FrontOfSnoc(Packets(cs, PastOf(cs, h)), cs[h].last);
      SameObjectSamePackets(cs, PastOf(cs, g), PastOf(cs, h));
    }
  }

  // Adding histories leaves the packets of the others as they are.
  lemma {:induction false} PacketsKept(cs: Chains, more: Chains, h: HistPtr)
    requires Chained(cs) && Chained(more) && Stored(cs, h) && 0 !in cs && 0 !in more
    requires forall g :: g in cs ==> g in more && more[g] == cs[g]
    ensures Packets(more, h) == Packets(cs, h)
    decreases h
  {
    if h != 0 { PacketsKept(cs, more, PastOf(cs, h)); }
  }

  lemma GoodParts(cs: Chains)
    ensures Good(cs) <==> Chained(cs) && Shared(cs) && 0 !in cs
  {
  }

  lemma PacketsOf(cs: Chains, h: HistPtr)
    requires Good(cs) && h in cs
    ensures Packets(cs, h) == Packets(cs, PastOf(cs, h)) + [cs[h].last]
  {
  }

  lemma StaysGood(cs: Chains, h: HistPtr, node: Node)
    requires Good(cs) && h !in cs && node.past < h && Stored(cs, node.past)
    requires forall g :: g in cs ==> g < h && cs[g] != node
    ensures Good(cs[h := node])
  {
    hide Packets;
    var more := cs[h := node];
    forall g ensures LinkedAt(more, g) {
      assert LinkedAt(cs, g);
    }
  }

  // A new history at an unused address, with a new content.
  lemma Linked(cs: Chains, h: HistPtr, node: Node)
    requires Good(cs) && h !in cs && node.past < h && Stored(cs, node.past) && node !in cs.Values
    requires forall g :: g in cs ==> g < h
    ensures Good(cs[h := node]) && Packets(cs[h := node], h) == Packets(cs, node.past) + [node.last]
    ensures forall g :: Stored(cs, g) ==> Packets(cs[h := node], g) == Packets(cs, g)
  {
    hide Packets, Good, Shared, Chained;
    var more := cs[h := node];
    StaysGood(cs, h, node);
    GoodParts(more);
    GoodParts(cs);
    forall g | Stored(cs, g) ensures Packets(more, g) == Packets(cs, g) {
      PacketsKept(cs, more, g);
    }
    PacketsOf(more, h);
  }

  // ---- The store ----

  class UniqueStorage {
    var packets: map<PacketPtr, Packet>
    var chains: Chains
    var next: HistPtr

    ghost predicate Valid()
      reads this
    {
      && (forall p, q :: p in packets && q in packets && packets[p] == packets[q] ==> p == q)
      && Good(chains) && 0 < next && (forall h :: h in chains ==> h < next)
      && (forall h :: h in chains ==> chains[h].last in packets)
    }

    constructor ()
      ensures Valid() && packets == map[] && chains == map[]
    {
      packets, chains, next := map[], map[], 1;
    }

    // The stored packet equal to the given one, which was created at an unused address.
    method StorePacket(packet: Packet, address: PacketPtr) returns (p: PacketPtr)
      requires Valid() && address !in packets
      modifies `packets
      ensures Valid() && p in packets && packets[p] == packet
      ensures packets == if packet in old(packets).Values then old(packets) else old(packets)[address := packet]
    {
      if packet in packets.Values {
        p :| p in packets && packets[p] == packet;
      } else {
        p := address;
        packets := packets[p := packet];
      }
    }

    // The stored history that ends in the given packet after the given past.
    method StoreHistory(last: PacketPtr, past: HistPtr) returns (h: HistPtr)
      requires Valid() && last in packets && Stored(chains, past)
      modifies `chains, `next
      ensures Valid() && h in chains && chains[h] == Node(last, past)
      ensures Packets(chains, h) == old(Packets(chains, past)) + [last]
      ensures forall g :: g in old(chains) ==> g in chains && chains[g] == old(chains)[g]
      ensures forall g :: Stored(old(chains), g) ==> Packets(chains, g) == old(Packets(chains, g))
      ensures Node(last, past) in old(chains).Values ==> chains == old(chains)
    {
      hide Packets, Good;
      GoodParts(chains);
      if Node(last, past) in chains.Values {
        h :| h in chains && chains[h] == Node(last, past);
        PacketsOf(chains, h);
      } else {
        h := next;
        Linked(chains, h, Node(last, past));
        chains := chains[h := Node(last, past)];
        next := next + 1;
      }
    }
  }

  // ---- Walking a history ----

  method GetPackets(cs: Chains, h: HistPtr) returns (packets: seq<PacketPtr>)
    requires Good(cs) && Stored(cs, h)
    ensures packets == Packets(cs, h)
  {
    packets := [];
    var nph := h;
    while nph != 0
      invariant Stored(cs, nph) && Packets(cs, h) == Packets(cs, nph) + packets
      decreases nph
    {
      ConcatAssoc(Packets(cs, PastOf(cs, nph)), [cs[nph].last], packets);
      packets := [cs[nph].last] + packets;
      nph := cs[nph].past;
    }
  }

  lemma {:induction false} PastIsPrefix(cs: Chains, h: HistPtr, g: HistPtr)
    requires Good(cs) && Stored(cs, h) && Stored(cs, g)
    requires h != 0 && h != g
    ensures Packets(cs, g) <= Packets(cs, h) <==> Packets(cs, g) <= Packets(cs, PastOf(cs, h))
  {
    var g', h', past := Packets(cs, g), Packets(cs, h), Packets(cs, PastOf(cs, h));
    SameObjectSamePackets(cs, g, h);
    assert g' <= h' && |g'| == |h'| ==> g' == h';
    if g' <= h' && |g'| < |h'| { assert g' == h'[..|g'|] == past[..|g'|]; }
    if g' <= past { assert g' == past[..|g'|] == h'[..|g'|]; }
  }

  // Whether one history starts with another: the walk meets it exactly when its packets are a
  // prefix.
  method Contains(cs: Chains, h: HistPtr, other: HistPtr) returns (b: bool)
    requires Good(cs) && Stored(cs, h) && Stored(cs, other)
    ensures b == (Packets(cs, other) <= Packets(cs, h))
  {
    var nph := h;
    while nph != 0 && nph != other
      invariant Stored(cs, nph)
      invariant Packets(cs, other) <= Packets(cs, h) <==> Packets(cs, other) <= Packets(cs, nph)
      decreases nph
    {
      PastIsPrefix(cs, nph, other);
      nph := cs[nph].past;
    }
    SameObjectSamePackets(cs, nph, other);
    b := nph == other;
  }

  // The packets after those of start, or all packets if the history does not start with it.
  ghost function Since(cs: Chains, h: HistPtr, start: HistPtr): seq<PacketPtr>
    requires Chained(cs) && Stored(cs, h) && Stored(cs, start)
  {
    var all, done := Packets(cs, h), Packets(cs, start);
    if done <= all then all[|done|..] else all
  }

  lemma SinceStep(cs: Chains, h: HistPtr, start: HistPtr)
    requires Good(cs) && Stored(cs, h) && Stored(cs, start) && h != 0 && h != start
    ensures Since(cs, h, start) == Since(cs, PastOf(cs, h), start) + [cs[h].last]
  {
    PastIsPrefix(cs, h, start);
    var past, done := Packets(cs, PastOf(cs, h)), Packets(cs, start);
    if done <= past { assert (past + [cs[h].last])[|done|..] == past[|done|..] + [cs[h].last]; }
  }

  lemma SinceItself(cs: Chains, h: HistPtr, start: HistPtr)
    requires Good(cs) && Stored(cs, h) && Stored(cs, start) && (h == 0 || h == start)
    ensures Since(cs, h, start) == []
  {
  }

  method GetPacketsSince(cs: Chains, h: HistPtr, start: HistPtr) returns (packets: seq<PacketPtr>)
    requires Good(cs) && Stored(cs, h) && Stored(cs, start)
    ensures packets == Since(cs, h, start)
  {
    hide Since, Packets, Shared;
    packets := [];
    var nph := h;
    while nph != 0 && nph != start
      invariant Stored(cs, nph) && Since(cs, h, start) == Since(cs, nph, start) + packets
      decreases nph
    {
      SinceStep(cs, nph, start);
      ConcatAssoc(Since(cs, PastOf(cs, nph), start), [cs[nph].last], packets);
      packets := [cs[nph].last] + packets;
      nph := cs[nph].past;
    }
    SinceItself(cs, nph, start);
  }

  // ---- The order of histories ----

  // Lexicographic order of packet sequences, a proper prefix first.
  predicate Before(a: seq<PacketPtr>, b: seq<PacketPtr>) {
    if a == [] || b == [] then a == [] && b != []
    else if a[0] != b[0] then a[0] < b[0]
    else Before(a[1..], b[1..])
  }

  lemma {:induction false} BeforeIsTotal(a: seq<PacketPtr>, b: seq<PacketPtr>)
    ensures !(Before(a, b) && Before(b, a))
    ensures a != b <==> Before(a, b) || Before(b, a)
  {
    if a != [] && b != [] {
      assert a == [a[0]] + a[1..] && b == [b[0]] + b[1..];
      BeforeIsTotal(a[1..], b[1..]);
    }
  }

  lemma {:induction false} BeforeIsTransitive(a: seq<PacketPtr>, b: seq<PacketPtr>, c: seq<PacketPtr>)
    requires Before(a, b) && Before(b, c)
    ensures Before(a, c)
  {
    if a != [] && a[0] == b[0] == c[0] { BeforeIsTransitive(a[1..], b[1..], c[1..]); }
  }

  lemma {:induction false} PrefixBefore(a: seq<PacketPtr>, b: seq<PacketPtr>)
    requires a <= b && a != b
    ensures Before(a, b)
  {
    if a != [] {
      assert b[..|a|][0] == a[0] && a[1..] == b[..|a|][1..] == b[1..][..|a| - 1];
      PrefixBefore(a[1..], b[1..]);
    }
  }

  // After a common prefix of length k the first difference decides.
  lemma {:induction false} BeforeAt(a: seq<PacketPtr>, b: seq<PacketPtr>, k: nat)
    requires k <= |a| && k <= |b| && a[..k] == b[..k]
    requires k < |a| && k < |b| ==> a[k] != b[k]
    ensures Before(a, b) <==> if k < |a| && k < |b| then a[k] < b[k] else |a| < |b|
    decreases k
  {
    if k > 0 {
      assert a[0] == a[..k][0] == b[..k][0] == b[0];
      assert a[1..][..k - 1] == a[..k][1..] == b[..k][1..] == b[1..][..k - 1];
      BeforeAt(a[1..], b[1..], k - 1);
    }
  }

  lemma BeforeNull(cs: Chains, a: HistPtr, b: HistPtr)
    requires Good(cs) && Stored(cs, a) && Stored(cs, b)
    ensures Chained(cs)
    ensures a == b ==> !Before(Packets(cs, a), Packets(cs, b))
    ensures a == 0 && b != 0 ==> Before(Packets(cs, a), Packets(cs, b))
    ensures b == 0 ==> !Before(Packets(cs, a), Packets(cs, b))
  {
    SameObjectSamePackets(cs, a, b);
    BeforeIsTotal(Packets(cs, a), Packets(cs, b));
  }

  // The comparator of the index of emulations.
  method Less(cs: Chains, a: HistPtr, b: HistPtr) returns (less: bool)
    requires Good(cs) && Stored(cs, a) && Stored(cs, b)
    ensures less == Before(Packets(cs, a), Packets(cs, b))
  {
    hide Before, Good, Packets, Shared;
    BeforeNull(cs, a, b);
    if a == b { return false; }
    if a == 0 { return true; }
    if b == 0 { return false; }
    var pa := GetPackets(cs, a);
    var pb := GetPackets(cs, b);
    var i := 0;
    while i < |pa| && i < |pb|
      invariant i <= |pa| && i <= |pb| && pa[..i] == pb[..i]
    {
      if pa[i] != pb[i] {
        BeforeAt(pa, pb, i);
        return pa[i] < pb[i];
      }
      i := i + 1;
    }
    BeforeAt(pa, pb, i);
    return |pa| < |pb|;
  }

  ghost predicate Precedes(cs: Chains, a: HistPtr, b: HistPtr)
    requires Chained(cs) && Stored(cs, a) && Stored(cs, b)
  {
    Before(Packets(cs, a), Packets(cs, b))
  }

  // The comparator is a strict total order on stored histories.
  lemma ComparatorIsStrictTotal(cs: Chains, a: HistPtr, b: HistPtr, c: HistPtr)
    requires Good(cs) && Stored(cs, a) && Stored(cs, b) && Stored(cs, c)
    ensures !(Precedes(cs, a, b) && Precedes(cs, b, a))
    ensures a != b <==> Precedes(cs, a, b) || Precedes(cs, b, a)
    ensures Precedes(cs, a, b) && Precedes(cs, b, c) ==> Precedes(cs, a, c)
  {
    SameObjectSamePackets(cs, a, b);
    BeforeIsTotal(Packets(cs, a), Packets(cs, b));
    if Precedes(cs, a, b) && Precedes(cs, b, c) {
      BeforeIsTransitive(Packets(cs, a), Packets(cs, b), Packets(cs, c));
    }
  }
}
