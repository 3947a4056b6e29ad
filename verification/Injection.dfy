/** Injecting a packet into a middlebox and recording it (src/process/forwarding.cpp:326-373,
    src/middlebox.cpp:15-61, src/injection-cache.cpp). */
module Injection {
  import opened Options
  import opened PacketHistories
  import opened ConcretePackets
  import opened Emulations
  import opened EmulationPool

  // The packet is sent n times; what is received each time.
  function SentTimes<S>(box: Middlebox<S>, st: EmuState<S>, p: Packet, n: nat): (EmuState<S>, seq<seq<Packet>>)
    decreases n
  {
    if n == 0 then (st, []) else
      var (before, outs) := SentTimes(box, st, p, n - 1);
      var (after, out) := Sent(box, before, p);
      (after, outs + [out])
  }

  // The state of a device after injecting p on top of history h, when p is sent n times.
  function AfterInjection<S>(box: Middlebox<S>, h: seq<Packet>, p: Packet, n: nat): EmuState<S> {
    SentTimes(box, Replay(box, h), p, n).0
  }

  // The j-th result is what the device answers when it has been sent the packet j times before.
  lemma {:induction false} ResultsInOrder<S>(box: Middlebox<S>, st: EmuState<S>, p: Packet, n: nat, j: nat)
    requires j < n
    ensures var (end, outs) := SentTimes(box, st, p, n);
            && |outs| == n && outs[j] == Sent(box, SentTimes(box, st, p, j).0, p).1
            && end == ReplayFrom(box, st, seq(n, _ => p))
    decreases n
  {
    hide Sent;
    SentLength(box, st, p, n - 1);
    SentIsReplay(box, st, p, n);
    if j < n - 1 { ResultsInOrder(box, st, p, n - 1, j); }
  }

  lemma {:induction false} SentLength<S>(box: Middlebox<S>, st: EmuState<S>, p: Packet, n: nat)
    ensures |SentTimes(box, st, p, n).1| == n
    decreases n
  {
    hide Sent;
    if n > 0 { SentLength(box, st, p, n - 1); }
  }

  lemma {:induction false} SentIsReplay<S>(box: Middlebox<S>, st: EmuState<S>, p: Packet, n: nat)
    ensures SentTimes(box, st, p, n).0 == ReplayFrom(box, st, seq(n, _ => p))
    decreases n
  {
    hide Sent;
    if n > 0 {
      SentIsReplay(box, st, p, n - 1);
      var before := seq(n - 1, _ => p);
      assert seq(n, _ => p) == before + [p];
      ReplayAppend(box, st, before, [p]);
      assert ReplayFrom(box, ReplayFrom(box, st, before), [p]) == Sent(box, ReplayFrom(box, st, before), p).0;
    }
  }

  // One injection: the middlebox, the packet and the address at which it is created.
  datatype Injected = Injected(mb: MbId, packet: Packet, address: PacketPtr)

  function SentTo(steps: seq<Injected>, m: MbId): seq<Packet>
    decreases |steps|
  {
    if steps == [] then [] else
      SentTo(steps[..|steps| - 1], m) + if steps[|steps| - 1].mb == m then [steps[|steps| - 1].packet] else []
  }

  // What is recorded after the steps.
  function Recorded(pasts: map<MbId, seq<Packet>>, steps: seq<Injected>): map<MbId, seq<Packet>> {
    map m | m in pasts :: pasts[m] + SentTo(steps, m)
  }

  predicate NewAddresses(used: set<PacketPtr>, steps: seq<Injected>) {
    && (forall i :: 0 <= i < |steps| ==> steps[i].address !in used)
    && (forall i, j :: 0 <= i < j < |steps| ==> steps[i].address != steps[j].address)
  }

  class Injector<S(0)> {
    const mgr: EmulationMgr<S>
    const storage: UniqueStorage
    var pktHist: map<MbId, HistPtr>
    var cache: map<(MbId, HistPtr), seq<seq<Packet>>>

    constructor (mgr: EmulationMgr<S>, storage: UniqueStorage, middleboxes: set<MbId>)
      ensures this.mgr == mgr && this.storage == storage && cache == map[]
      ensures pktHist == map m | m in middleboxes :: 0
      ensures mgr.Valid() && storage.Valid() && 1 <= mgr.maxEmu && mgr.emus == {} ==>
                Valid() && Forward() && AllInSync()
    {
      this.mgr, this.storage := mgr, storage;
      pktHist, cache := map m | m in middleboxes :: 0, map[];
    }

    ghost predicate Valid()
      reads this, mgr, mgr.emus`mb, mgr.emus`nph, storage
    {
      && mgr.Valid() && storage.Valid() && 1 <= mgr.maxEmu
      && (forall e :: e in mgr.emus ==> Stored(storage.chains, e.nph))
      && (forall m :: m in pktHist ==> Stored(storage.chains, pktHist[m]))
    }

    // The packets of a stored history.
    ghost function Past(h: HistPtr): seq<Packet>
      requires storage.Valid() && Stored(storage.chains, h)
      reads storage
    {
      History(storage.chains, storage.packets, h)
    }

    // The device is the replay of the history recorded for it.
    ghost predicate InSync(e: Emulation<S>)
      requires storage.Valid() && Stored(storage.chains, e.nph)
      reads storage, e
    {
      e.State() == Replay(e.Box(), Past(e.nph))
    }

    ghost predicate AllInSync()
      requires Valid()
      reads this, mgr, mgr.emus, storage
    {
      forall e :: e in mgr.emus ==> InSync(e)
    }

    // Every emulation, or every one but one, is at the current history of its middlebox.
    ghost predicate AtCurrent(but: Option<Emulation<S>>)
      reads this`pktHist, mgr, mgr.emus`mb, mgr.emus`nph
    {
      forall e :: e in mgr.emus && but != Some(e) ==> e.mb in pktHist && e.nph == pktHist[e.mb]
    }

    // The emulation for a middlebox, nothing replayed yet.
    method Locate(mb: MbId, to: HistPtr) returns (r: Option<Emulation<S>>)
      requires Valid() && Stored(storage.chains, to)
      modifies mgr, mgr.emus
      ensures Valid() && forall e :: e in mgr.emus ==> e in old(mgr.emus) || fresh(e)
      ensures r.None? <==> mb in old(mgr.owner) && Precedes(storage.chains, to, old(mgr.owner[mb].nph))
      ensures r.Some? ==> r.value in mgr.emus && r.value.mb == mb && r.value.boxes == mgr.boxes
      ensures old(AllInSync()) ==> AllInSync()
      ensures old(AtCurrent(None)) ==> AtCurrent(r)
    {
      hide Replay, Launched, Past, Precedes, Good, EmulationMgr.Valid, UniqueStorage.Valid;
      ValidParts();
      label Before:
      r := mgr.GetEmulation(mb, to, storage.chains);
      ValidParts();
      if old(AllInSync()) {
        forall e | e in mgr.emus ensures InSync(e) {
          if mb !in old(mgr.mbEmuMap) && r == Some(e) {
            StartIsInSync(e, mb);
          } else {
            assert e in old(mgr.emus) && old(InSync(e));
          }
        }
      }
      if old(AtCurrent(None)) {
        forall e | e in mgr.emus && r != Some(e) ensures e.mb in pktHist && e.nph == pktHist[e.mb] {
          assert e in old(mgr.emus);
        }
      }
    }

    lemma StartIsInSync(e: Emulation<S>, mb: MbId)
      requires storage.Valid() && e.nph == 0 && e.mb == mb && e.boxes == mgr.boxes
      requires e.State() == Launched(mgr.boxes(mb))
      ensures Stored(storage.chains, e.nph) && InSync(e)
    {
      assert Past(0) == [];
    }

    // Brings the emulation of a middlebox to the given history.
    method Rewind(mb: MbId, to: HistPtr) returns (r: Option<Emulation<S>>)
      requires Valid() && Stored(storage.chains, to)
      modifies mgr, mgr.emus
      ensures Valid() && forall e :: e in mgr.emus ==> e in old(mgr.emus) || fresh(e)
      ensures r.None? <==> mb in old(mgr.owner) && Precedes(storage.chains, to, old(mgr.owner[mb].nph))
      ensures r.Some? ==> r.value in mgr.emus && r.value.mb == mb && r.value.boxes == mgr.boxes
      ensures r.Some? && old(AllInSync()) ==> r.value.State() == Replay(mgr.boxes(mb), Past(to))
      ensures old(AllInSync()) ==> forall e :: e in mgr.emus && r != Some(e) ==> InSync(e)
      ensures old(AtCurrent(None)) ==> AtCurrent(r)
    {
      hide Replay, Launched, Precedes, Good, EmulationMgr.Valid, UniqueStorage.Valid;
      r := Locate(mb, to);
      if r.None? { return; }
      var emu := r.value;
      ValidParts();
      ghost var done, synced := Past(emu.nph), old(AllInSync());
      assert synced ==> InSync(emu);
      label Located:
      var injections := emu.Rewind(storage.chains, storage.packets, to);
      RewoundIsReplay(emu.Box(), done, Past(to));
      if synced {
        forall e | e in mgr.emus && e != emu ensures InSync(e) {
          assert old@Located(InSync(e));
        }
      }
    }

    // Sends the packet as often as configured.
    method SendPkt(emu: Emulation<S>, pkt: Packet) returns (results: seq<seq<Packet>>)
      modifies emu`device, emu`offsets
      ensures (emu.State(), results) == SentTimes(emu.Box(), old(emu.State()), pkt, emu.Box().packetsPerInjection)
    {
      hide Sent;
      results := [];
      for i := 0 to emu.Box().packetsPerInjection
        invariant (emu.State(), results) == SentTimes(emu.Box(), old(emu.State()), pkt, i)
      {
        var received := emu.SendPkt(pkt);
        results := results + [received];
      }
    }

    // Every stored history keeps its packets.
    twostate predicate PastsKept()
      requires old(storage.Valid()) && storage.Valid()
      reads storage
    {
      forall h :: Stored(old(storage.chains), h) ==> Stored(storage.chains, h) && Past(h) == old(Past(h))
    }

    // Records packet in the stores and returns the history of the middlebox extended by it.
    method Record(packet: Packet, address: PacketPtr, current: HistPtr) returns (next: HistPtr)
      requires Valid() && Stored(storage.chains, current) && address !in storage.packets
      modifies storage
      ensures Valid() && Stored(storage.chains, next)
      ensures Past(next) == old(Past(current)) + [packet]
      ensures PastsKept() && storage.packets.Keys <= old(storage.packets.Keys) + {address}
    {
      hide Packets, Good, EmulationMgr.Valid, History, Values, AllKnown, KnownPackets;
      ValidParts();
      ghost var cs, ps := storage.chains, storage.packets;
      var p := storage.StorePacket(packet, address);
      next := storage.StoreHistory(p, current);
      ValidParts();
      HistoriesKept(cs, ps, storage.chains, storage.packets);
      HistoryExtended(cs, ps, storage.chains, storage.packets, current, next, p);
    }

    // The emulation of a middlebox and the state vector get the middlebox's next history.
    method SetHistory(emu: Emulation<S>, mb: MbId, next: HistPtr)
      requires Valid() && emu in mgr.emus && emu.mb == mb && mb in pktHist && Stored(storage.chains, next)
      modifies `pktHist, mgr, emu
      ensures Valid() && mgr.emus == old(mgr.emus) && emu.nph == next && pktHist == old(pktHist)[mb := next]
      ensures emu.mb == mb && emu.State() == old(emu.State())
      ensures old(AtCurrent(Some(emu))) ==> AtCurrent(None)
      ensures forall e :: e in mgr.emus && e != emu && old(InSync(e)) ==> InSync(e)
    {
      hide EmulationMgr.Valid, UniqueStorage.Valid, Past, Replay;
      OnlyOne(emu);
      mgr.UpdateNodePktHist(emu, next);
      pktHist := pktHist[mb := next];
    }

    lemma OnlyOne(emu: Emulation<S>)
      requires mgr.Valid() && emu in mgr.emus
      ensures forall e :: e in mgr.emus && e.mb == emu.mb ==> e == emu
    {
    }

    // Rewinds the middlebox to its history and records the packet, which is not sent yet.
    method Advance(mb: MbId, packet: Packet, address: PacketPtr) returns (r: Option<Emulation<S>>)
      requires Valid() && address !in storage.packets && mb in pktHist
      modifies `pktHist, mgr, mgr.emus, storage
      ensures r.None? <==> mb in old(mgr.owner) &&
                           Precedes(old(storage.chains), old(pktHist[mb]), old(mgr.owner[mb].nph))
      ensures r.Some? ==> Valid() && r.value in mgr.emus && r.value.mb == mb && r.value.boxes == mgr.boxes
      ensures r.Some? ==> pktHist == old(pktHist)[mb := r.value.nph]
      ensures r.Some? ==> Past(r.value.nph) == old(Past(pktHist[mb])) + [packet]
      ensures r.Some? && old(AllInSync()) ==>
                && r.value.State() == Replay(mgr.boxes(mb), old(Past(pktHist[mb])))
                && forall e :: e in mgr.emus && e != r.value ==> InSync(e)
      ensures forall e :: e in mgr.emus ==> e in old(mgr.emus) || fresh(e)
      ensures r.Some? && old(AtCurrent(None)) ==> AtCurrent(None)
      ensures r.Some? ==> PastsKept() && storage.packets.Keys <= old(storage.packets.Keys) + {address}
    {
      hide Replay, Past, Packets, Good, Precedes, EmulationMgr.Valid, UniqueStorage.Valid;
      ValidParts();
      var current := pktHist[mb];
      r := Rewind(mb, current);
      if r.None? { return; }
      label Rewound:
      var next := Record(packet, address, current);
      SetHistory(r.value, mb, next);
    }

    // The cached answer to the packet just recorded, or the one the device gives now. None for the
    // failed assertion that something was sent.
    method Answer(emu: Emulation<S>, packet: Packet) returns (r: Option<seq<seq<Packet>>>)
      requires Valid() && emu in mgr.emus
      modifies `cache, emu`device, emu`offsets
      ensures Valid() && (AtCurrent(None) <==> old(AtCurrent(None)))
      ensures r.None? <==> (emu.mb, emu.nph) !in old(cache) && emu.Box().packetsPerInjection == 0
      ensures r.Some? ==> cache == old(cache)[(emu.mb, emu.nph) := r.value]
      ensures (emu.mb, emu.nph) in old(cache) ==> cache == old(cache) && emu.State() == old(emu.State())
      ensures (emu.mb, emu.nph) !in old(cache) && r.Some? ==>
                (emu.State(), r.value) == SentTimes(emu.Box(), old(emu.State()), packet, emu.Box().packetsPerInjection)
      ensures forall e :: e in mgr.emus && e != emu && old(InSync(e)) ==> InSync(e)
    {
      hide Replay, Past, EmulationMgr.Valid, UniqueStorage.Valid, SentTimes;
      var key := (emu.mb, emu.nph);
      r := None;
      if key in cache {
        r := Some(cache[key]);
        assert cache[key := cache[key]] == cache;
      } else if emu.Box().packetsPerInjection != 0 {
        var results := SendPkt(emu, packet);
        cache := cache[key := results];
        r := Some(results);
      }
    }

    // Every cached answer belongs to a history no longer than the middlebox's current one.
    ghost predicate CachedArePast()
      requires Valid()
      reads this, mgr, mgr.emus`mb, mgr.emus`nph, storage
    {
      forall k :: k in cache ==>
        k.0 in pktHist && Stored(storage.chains, k.1) && |Past(k.1)| <= |Past(pktHist[k.0])|
    }

    // Injects a packet into a middlebox. None for an exception, a failed assertion or an undefined
    // effect: the middlebox has no history entry, its emulation is past the current history, or
    // no packet is to be sent.
    method InjectPacket(mb: MbId, packet: Packet, address: PacketPtr)
      returns (r: Option<seq<seq<Packet>>>, ghost emu: Option<Emulation<S>>)
      requires Valid() && address !in storage.packets
      modifies this, mgr, mgr.emus, storage
      ensures r.Some? ==> Valid() && mb in old(pktHist) && emu.Some? && emu.value in mgr.emus && emu.value.mb == mb
      ensures r.Some? ==> pktHist == old(pktHist)[mb := emu.value.nph] &&
                          Past(emu.value.nph) == old(Past(pktHist[mb])) + [packet] &&
                          cache == old(cache)[(mb, emu.value.nph) := r.value] &&
                          ((mb, emu.value.nph) in old(cache) ==> cache == old(cache))
      ensures r.None? <==>
                || mb !in old(pktHist)
                || (mb in old(mgr.owner) && Precedes(old(storage.chains), old(pktHist[mb]), old(mgr.owner[mb].nph)))
                || (emu.Some? && (mb, emu.value.nph) !in old(cache) && mgr.boxes(mb).packetsPerInjection == 0)
      // if all devices were in sync, this one is sent the packet unless its answer is cached, and
      // the others stay in sync
      ensures r.Some? && old(AllInSync()) ==>
                var cached, box := (mb, emu.value.nph) in old(cache), mgr.boxes(mb);
                && emu.value.State() == AfterInjection(box, old(Past(pktHist[mb])), packet,
                                                       if cached then 0 else box.packetsPerInjection)
                && (!cached ==> r.value == SentTimes(box, Replay(box, old(Past(pktHist[mb]))), packet,
                                                     box.packetsPerInjection).1)
                && forall e :: e in mgr.emus && e != emu.value ==> InSync(e)
      // so all devices stay in sync when the answer is not cached and the packet is sent once
      ensures r.Some? && old(AllInSync()) ==>
                (mb, emu.value.nph) !in old(cache) && mgr.boxes(mb).packetsPerInjection == 1 ==> AllInSync()
      ensures r.Some? && old(AtCurrent(None)) ==> AtCurrent(None)
      ensures r.Some? && old(CachedArePast()) ==> CachedArePast() && (mb, emu.value.nph) !in old(cache)
      ensures r.Some? ==> PastsKept() && storage.packets.Keys <= old(storage.packets.Keys) + {address}
      ensures forall e :: e in mgr.emus ==> e in old(mgr.emus) || fresh(e)
    {
      hide Replay, Past, Packets, Good, Precedes, EmulationMgr.Valid, UniqueStorage.Valid, SentTimes;
      r, emu := None, None;
      if mb !in pktHist { return; }
      ghost var h := Past(pktHist[mb]);
      var located := Advance(mb, packet, address);
      emu := located;
      if located.None? { return; }
      NoneSent(mgr.boxes(mb), located.value.State(), packet);
      OnceKeepsSync(mgr.boxes(mb), h, packet);
      r := Answer(located.value, packet);
    }

    // No injection has been taken back: emulations and cache are not ahead of the state vector.
    ghost predicate Forward()
      requires Valid()
      reads this, mgr, mgr.emus`mb, mgr.emus`nph, storage
    {
      AtCurrent(None) && CachedArePast()
    }

    // The packets recorded for each middlebox.
    ghost function Pasts(): map<MbId, seq<Packet>>
      requires Valid()
      reads this, mgr, mgr.emus`mb, mgr.emus`nph, storage
    {
      map m | m in pktHist :: Past(pktHist[m])
    }

    // Then the next injection is defined, and its answer is not cached.
    method InjectNext(mb: MbId, packet: Packet, address: PacketPtr) returns (results: seq<seq<Packet>>)
      requires Valid() && Forward() && address !in storage.packets
      requires mb in pktHist && mgr.boxes(mb).packetsPerInjection != 0
      modifies this, mgr, mgr.emus, storage
      ensures Valid() && Forward() && forall e :: e in mgr.emus ==> e in old(mgr.emus) || fresh(e)
      ensures storage.packets.Keys <= old(storage.packets.Keys) + {address}
      ensures Pasts() == old(Pasts())[mb := old(Pasts())[mb] + [packet]]
      ensures old(AllInSync()) && mgr.boxes(mb).packetsPerInjection == 1 ==> AllInSync()
      ensures old(AllInSync()) ==>
                results == SentTimes(mgr.boxes(mb), Replay(mgr.boxes(mb), old(Past(pktHist[mb]))), packet,
                                     mgr.boxes(mb).packetsPerInjection).1
    {
      hide Replay, Past, Packets, Good, Precedes, EmulationMgr.Valid, UniqueStorage.Valid, SentTimes, AtCurrent,
        CachedArePast, AllInSync;
      ValidParts();
      if mb in mgr.owner { NeverAhead(mb); }
      ghost var pasts: map<MbId, seq<Packet>> := Pasts();
      label Before:
      var r, emu := InjectPacket(mb, packet, address);
      results := r.value;
      forall m | m in pasts && m != mb ensures Past(pktHist[m]) == pasts[m] {
        assert Stored(old@Before(storage.chains), pktHist[m]);
      }
      assert Pasts() == pasts[mb := pasts[mb] + [packet]];
    }

    // A run of injections, as the search makes them going forward: all are defined, every middlebox
    // has recorded exactly its packets, and if each is sent once, every device is at every point
    // the replay of its record.
    method InjectAll(steps: seq<Injected>)
      requires Valid() && Forward() && NewAddresses(storage.packets.Keys, steps)
      requires forall i :: 0 <= i < |steps| ==>
                 steps[i].mb in pktHist && mgr.boxes(steps[i].mb).packetsPerInjection != 0
      modifies this, mgr, mgr.emus, storage
      ensures Valid() && Forward() && Pasts() == Recorded(old(Pasts()), steps)
      ensures old(AllInSync()) && OnceEach(steps) ==> AllInSync()
    {
      hide *;
      ghost var synced, pasts, used := AllInSync() && OnceEach(steps), Pasts(), storage.packets.Keys;
      RecordedStart(pasts, steps);
      PastsAreKnown();
      for i := 0 to |steps|
        invariant Valid() && Forward() && Pasts() == Recorded(pasts, steps[..i])
        invariant forall e :: e in mgr.emus ==> e in old(mgr.emus) || fresh(e)
        invariant storage.packets.Keys <= used + AddressesOf(steps[..i])
        invariant synced ==> AllInSync()
      {
        NextIsNew(used, steps, i);
        NextIsKnown(pasts, steps, i);
        RecordedNext(pasts, steps, i);
        var results := InjectNext(steps[i].mb, steps[i].packet, steps[i].address);
      }
    }

    predicate OnceEach(steps: seq<Injected>) {
      forall i :: 0 <= i < |steps| ==> mgr.boxes(steps[i].mb).packetsPerInjection == 1
    }

    lemma PastsAreKnown()
      requires Valid()
      ensures forall m :: m in Pasts() <==> m in pktHist
    {
    }

    lemma NextIsKnown(pasts: map<MbId, seq<Packet>>, steps: seq<Injected>, i: nat)
      requires Valid() && i < |steps| && steps[i].mb in pasts && Pasts() == Recorded(pasts, steps[..i])
      ensures steps[i].mb in pktHist && steps[i].mb in Pasts()
      ensures OnceEach(steps) ==> mgr.boxes(steps[i].mb).packetsPerInjection == 1
    {
    }

    // The emulation is at the current history, so the pool does not step below it.
    lemma NeverAhead(mb: MbId)
      requires Valid() && AtCurrent(None) && mb in pktHist && mb in mgr.owner
      ensures mgr.owner[mb].nph == pktHist[mb] && !Precedes(storage.chains, pktHist[mb], pktHist[mb])
    {
      hide Precedes, Packets;
      ComparatorIsStrictTotal(storage.chains, pktHist[mb], pktHist[mb], pktHist[mb]);
      assert mgr.owner[mb] in mgr.emus;
    }

    lemma ValidParts()
      requires Valid()
      ensures mgr.Valid() && storage.Valid() && 1 <= mgr.maxEmu && Good(storage.chains)
      ensures KnownPackets(storage.chains, storage.packets)
      ensures forall e :: e in mgr.emus ==> Stored(storage.chains, e.nph)
      ensures forall m :: m in pktHist ==> Stored(storage.chains, pktHist[m])
      ensures mgr.owner.Keys == mgr.mbEmuMap.Keys
      ensures forall m :: m in mgr.owner ==> mgr.owner[m] in mgr.emus
    {
    }
  }

  lemma HistoriesKept(cs: Chains, ps: map<PacketPtr, Packet>, cs': Chains, ps': map<PacketPtr, Packet>)
    requires Good(cs) && Good(cs') && KnownPackets(cs, ps) && KnownPackets(cs', ps')
    requires forall g :: g in cs ==> g in cs'
    requires forall g :: Stored(cs, g) ==> Packets(cs', g) == Packets(cs, g)
    requires forall p :: p in ps ==> p in ps' && ps'[p] == ps[p]
    ensures forall h :: Stored(cs, h) ==> Stored(cs', h) && History(cs', ps', h) == History(cs, ps, h)
  {
    hide Packets, Good, KnownPackets;
    forall h | Stored(cs, h) ensures Stored(cs', h) && History(cs', ps', h) == History(cs, ps, h) {
      HistoryKnown(cs, ps, h);
    }
  }

  lemma HistoryExtended(cs: Chains, ps: map<PacketPtr, Packet>, cs': Chains, ps': map<PacketPtr, Packet>,
                        current: HistPtr, next: HistPtr, p: PacketPtr)
    requires Good(cs) && Good(cs') && Stored(cs, current) && Stored(cs', next)
    requires KnownPackets(cs, ps) && KnownPackets(cs', ps') && p in ps'
    requires Packets(cs', next) == Packets(cs, current) + [p]
    requires forall q :: q in ps ==> q in ps' && ps'[q] == ps[q]
    ensures History(cs', ps', next) == History(cs, ps, current) + [ps'[p]]
  {
    HistoryKnown(cs, ps, current);
    HistoryKnown(cs', ps', next);
  }

  function AddressesOf(steps: seq<Injected>): set<PacketPtr> {
    set i | 0 <= i < |steps| :: steps[i].address
  }

  lemma NextIsNew(used: set<PacketPtr>, steps: seq<Injected>, i: nat)
    requires NewAddresses(used, steps) && i < |steps|
    ensures steps[i].address !in used + AddressesOf(steps[..i])
    ensures AddressesOf(steps[..i + 1]) == AddressesOf(steps[..i]) + {steps[i].address}
  {
    assert steps[..i + 1] == steps[..i] + [steps[i]];
  }

  lemma RecordedStart(pasts: map<MbId, seq<Packet>>, steps: seq<Injected>)
    ensures steps[..0] == [] && steps[..|steps|] == steps
    ensures Recorded(pasts, []) == pasts && AddressesOf([]) == {}
  {
    assert forall m :: m in pasts ==> pasts[m] + SentTo([], m) == pasts[m];
  }

  lemma RecordedNext(pasts: map<MbId, seq<Packet>>, steps: seq<Injected>, i: nat)
    requires i < |steps| && steps[i].mb in pasts
    ensures var now := Recorded(pasts, steps[..i]);
            steps[i].mb in now &&
            Recorded(pasts, steps[..i + 1]) == now[steps[i].mb := now[steps[i].mb] + [steps[i].packet]]
  {
    assert steps[..i + 1][..i] == steps[..i];
    forall m | m in pasts
      ensures pasts[m] + SentTo(steps[..i + 1], m) ==
              if steps[i].mb == m then pasts[m] + SentTo(steps[..i], m) + [steps[i].packet]
              else pasts[m] + SentTo(steps[..i], m)
    {
    }
  }

  lemma NoneSent<S>(box: Middlebox<S>, st: EmuState<S>, p: Packet)
    ensures SentTimes(box, st, p, 0) == (st, [])
  {
  }

  // ---- When recording and device agree after an injection ----

  // Sending the packet once keeps every device in sync.
  lemma OnceKeepsSync<S>(box: Middlebox<S>, h: seq<Packet>, p: Packet)
    ensures AfterInjection(box, h, p, 1) == Replay(box, h + [p])
  {
    ReplayAppend(box, Launched(box), h, [p]);
    var st := Replay(box, h);
    assert SentTimes(box, st, p, 1).0 == Sent(box, SentTimes(box, st, p, 0).0, p).0 == Sent(box, st, p).0;
    assert ReplayFrom(box, st, [p]) == ReplayFrom(box, Sent(box, st, p).0, [p][1..]);
  }

  // A device that counts the packets it is sent.
  function Counter(ips: set<Addressing.Addr>, n: nat): Middlebox<int> {
    Middlebox(ips, 0, (count: int, p: Packet) => (count + 1, []), n)
  }

  lemma {:induction false} CounterReplay(ips: set<Addressing.Addr>, k: nat, st: EmuState<int>, h: seq<Packet>)
    ensures ReplayFrom(Counter(ips, k), st, h).device == st.device + |h|
    decreases |h|
  {
    if h != [] { CounterReplay(ips, k, Sent(Counter(ips, k), st, h[0]).0, h[1..]); }
  }

  // From any state, rewinding sends only what is missing when the recorded history is a prefix of
  // the one asked for, and starts over otherwise.
  lemma RewoundCounts(ips: set<Addressing.Addr>, k: nat, st: EmuState<int>, done: seq<Packet>, all: seq<Packet>)
    ensures Rewound(Counter(ips, k), st, done, all).device ==
            if |done| <= |all| && all[..|done|] == done then st.device + |all| - |done| else |all|
  {
    if done <= all {
      CounterReplay(ips, k, st, all[|done|..]);
    } else {
      CounterReplay(ips, k, Launched(Counter(ips, k)), all);
    }
  }

  lemma {:induction false} CounterSent(ips: set<Addressing.Addr>, k: nat, st: EmuState<int>, p: Packet, n: nat)
    ensures SentTimes(Counter(ips, k), st, p, n).0.device == st.device + n
    decreases n
  {
    if n > 0 { CounterSent(ips, k, st, p, n - 1); }
  }

  // Sending it any other number of times, in particular not at all because the answer is cached,
  // does not: the counter is out of sync with its recorded history unless it is sent once.
  lemma OnlyOnceKeepsSync(ips: set<Addressing.Addr>, k: nat, h: seq<Packet>, p: Packet, n: nat)
    ensures AfterInjection(Counter(ips, k), h, p, n) == Replay(Counter(ips, k), h + [p]) <==> n == 1
  {
    var box := Counter(ips, k);
    CounterReplay(ips, k, Launched(box), h);
    CounterReplay(ips, k, Launched(box), h + [p]);
    CounterSent(ips, k, Replay(box, h), p, n);
    if n == 1 { OnceKeepsSync(box, h, p); }
  }

  // After a cached answer the next rewind to the recorded history leaves the device behind.
  lemma StaleAfterCachedAnswer(ips: set<Addressing.Addr>, k: nat, h: seq<Packet>, p: Packet)
    ensures var box := Counter(ips, k);
            Rewound(box, AfterInjection(box, h, p, 0), h + [p], h + [p]) != Replay(box, h + [p])
  {
    OnlyOnceKeepsSync(ips, k, h, p, 0);
  }
}
