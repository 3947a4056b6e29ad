/** The pool of emulations, indexed by middlebox and history (src/emulationmgr.cpp:28-88). */
module EmulationPool {
  import opened Options
  import opened PacketHistories
  import opened Emulations

  // ---- Walking down the histories ----

  // The closest key below h, the step down of an ordered map's iterator.
  method Below(cs: Chains, keys: set<HistPtr>, h: HistPtr) returns (r: Option<HistPtr>)
    requires Good(cs) && Stored(cs, h) && forall k :: k in keys ==> Stored(cs, k)
    ensures r.None? ==> forall k :: k in keys ==> !Precedes(cs, k, h)
    ensures r.Some? ==> r.value in keys && Precedes(cs, r.value, h) &&
                        forall k :: k in keys && Precedes(cs, k, h) ==> k == r.value || Precedes(cs, k, r.value)
  {
    hide Precedes, Packets, Chained, Shared;
    r := None;
    var todo := keys;
    while todo != {}
      invariant todo <= keys
      invariant r.None? ==> forall k :: k in keys - todo ==> !Precedes(cs, k, h)
      invariant r.Some? ==> r.value in keys && Precedes(cs, r.value, h) &&
                            forall k :: k in keys - todo && Precedes(cs, k, h) ==>
                               k == r.value || Precedes(cs, k, r.value)
      decreases |todo|
    {
      var key :| key in todo;
      todo := todo - {key};
      var below := IsBefore(cs, key, h);
      if below {
        if r.None? {
          r := Some(key);
        } else {
          var closer := IsBefore(cs, r.value, key);
          OrderOf(cs, keys, r.value, key);
          if closer { r := Some(key); }
        }
      }
    }
  }

  method IsBefore(cs: Chains, a: HistPtr, b: HistPtr) returns (less: bool)
    requires Good(cs) && Stored(cs, a) && Stored(cs, b)
    ensures less == Precedes(cs, a, b)
  {
    less := Less(cs, a, b);
  }

  lemma OrderOf(cs: Chains, keys: set<HistPtr>, a: HistPtr, b: HistPtr)
    requires Good(cs) && Stored(cs, a) && Stored(cs, b) && forall k :: k in keys ==> Stored(cs, k)
    ensures a == b || Precedes(cs, a, b) || Precedes(cs, b, a)
    ensures forall k :: k in keys && Precedes(cs, k, a) && Precedes(cs, a, b) ==> Precedes(cs, k, b)
  {
    ComparatorIsStrictTotal(cs, a, b, a);
    forall k | k in keys ensures Precedes(cs, k, a) && Precedes(cs, a, b) ==> Precedes(cs, k, b) {
      ComparatorIsStrictTotal(cs, k, a, b);
    }
  }

  ghost predicate IsPast(cs: Chains, a: HistPtr, b: HistPtr)
    requires Chained(cs) && Stored(cs, a) && Stored(cs, b)
  {
    Packets(cs, a) <= Packets(cs, b)
  }

  // The indexed history a request is served from: the longest indexed prefix of it, or the least
  // indexed history if there is none.
  ghost predicate Nearest(cs: Chains, keys: set<HistPtr>, h: HistPtr, r: HistPtr)
    requires Good(cs) && Stored(cs, h) && Stored(cs, r) && forall k :: k in keys ==> Stored(cs, k)
  {
    && r in keys
    && (IsPast(cs, r, h) ==> forall k :: k in keys && IsPast(cs, k, h) ==> IsPast(cs, k, r))
    && (!IsPast(cs, r, h) ==> forall k :: k in keys ==> !IsPast(cs, k, h) && (k == r || Precedes(cs, r, k)))
  }

  // Every key between the current one and the request was passed over.
  ghost predicate PassedOver(cs: Chains, keys: set<HistPtr>, h: HistPtr, r: HistPtr)
    requires Good(cs) && Stored(cs, h) && Stored(cs, r) && forall k :: k in keys ==> Stored(cs, k)
  {
    && r in keys && Precedes(cs, r, h)
    && forall k :: k in keys && Precedes(cs, r, k) && Precedes(cs, k, h) ==> !IsPast(cs, k, h)
  }

  // Of two prefixes of one history the earlier in the order is a prefix of the later.
  lemma PastsAreNested(cs: Chains, a: HistPtr, b: HistPtr, h: HistPtr)
    requires Good(cs) && Stored(cs, a) && Stored(cs, b) && Stored(cs, h)
    requires IsPast(cs, a, h) && IsPast(cs, b, h)
    ensures a == b || Precedes(cs, a, b) ==> IsPast(cs, a, b)
  {
    var pa, pb, ph := Packets(cs, a), Packets(cs, b), Packets(cs, h);
    if |pa| <= |pb| {
      assert pa == ph[..|pa|] == pb[..|pa|];
    } else {
      assert pb == ph[..|pb|] == pa[..|pb|];
      PrefixBefore(pb, pa);
      BeforeIsTotal(pa, pb);
    }
  }

  lemma PastPrecedes(cs: Chains, a: HistPtr, h: HistPtr)
    requires Good(cs) && Stored(cs, a) && Stored(cs, h) && IsPast(cs, a, h)
    ensures a == h || Precedes(cs, a, h)
  {
    SameObjectSamePackets(cs, a, h);
    if a != h { PrefixBefore(Packets(cs, a), Packets(cs, h)); }
  }

  lemma FoundPast(cs: Chains, keys: set<HistPtr>, h: HistPtr, r: HistPtr)
    requires Good(cs) && Stored(cs, h) && h !in keys && forall k :: k in keys ==> Stored(cs, k)
    requires r in keys && PassedOver(cs, keys, h, r) && IsPast(cs, r, h)
    ensures Nearest(cs, keys, h, r)
  {
    hide Precedes, IsPast, Packets, Chained, Shared;
    forall k | k in keys && IsPast(cs, k, h) ensures IsPast(cs, k, r) {
      PastPrecedes(cs, k, h);
      ComparatorIsStrictTotal(cs, r, k, h);
      PastsAreNested(cs, k, r, h);
    }
  }

  lemma FoundLeast(cs: Chains, keys: set<HistPtr>, h: HistPtr, r: HistPtr)
    requires Good(cs) && Stored(cs, h) && h !in keys && forall k :: k in keys ==> Stored(cs, k)
    requires r in keys && PassedOver(cs, keys, h, r) && !IsPast(cs, r, h)
    requires forall k :: k in keys ==> !Precedes(cs, k, r)
    ensures Nearest(cs, keys, h, r)
  {
    hide Precedes, IsPast, Packets, Chained, Shared;
    forall k | k in keys ensures !IsPast(cs, k, h) && (k == r || Precedes(cs, r, k)) {
      ComparatorIsStrictTotal(cs, k, r, k);
      if IsPast(cs, k, h) { PastPrecedes(cs, k, h); }
    }
  }

  ghost function KeysBelow(cs: Chains, keys: set<HistPtr>, h: HistPtr): set<HistPtr>
    requires Good(cs) && Stored(cs, h) && forall k :: k in keys ==> Stored(cs, k)
  {
    set k | k in keys && Precedes(cs, k, h)
  }

  lemma FewerBelow(cs: Chains, keys: set<HistPtr>, h: HistPtr, down: HistPtr)
    requires Good(cs) && Stored(cs, h) && forall k :: k in keys ==> Stored(cs, k)
    requires down in keys && Precedes(cs, down, h)
    ensures KeysBelow(cs, keys, down) < KeysBelow(cs, keys, h)
  {
    hide Precedes, Packets, Chained, Shared;
    ComparatorIsStrictTotal(cs, down, down, down);
    OrderOf(cs, keys, down, h);
    assert down in KeysBelow(cs, keys, h) && down !in KeysBelow(cs, keys, down);
  }

  lemma StepDown(cs: Chains, keys: set<HistPtr>, h: HistPtr, r: HistPtr, down: HistPtr)
    requires Good(cs) && Stored(cs, h) && h !in keys && forall k :: k in keys ==> Stored(cs, k)
    requires r in keys && PassedOver(cs, keys, h, r) && !IsPast(cs, r, h)
    requires down in keys && Precedes(cs, down, r)
    requires forall k :: k in keys && Precedes(cs, k, r) ==> k == down || Precedes(cs, k, down)
    ensures PassedOver(cs, keys, h, down)
  {
    hide Precedes, IsPast, Packets, Chained, Shared;
    ComparatorIsStrictTotal(cs, down, r, h);
    forall k | k in keys && Precedes(cs, down, k) && Precedes(cs, k, h) ensures !IsPast(cs, k, h) {
      ComparatorIsStrictTotal(cs, k, r, h);
      ComparatorIsStrictTotal(cs, down, k, down);
    }
  }

  // The walk down from the request. None is the step below the first element, whose effect is
  // undefined: it is taken exactly when the request precedes all indexed histories.
  method FindNearest(cs: Chains, keys: set<HistPtr>, h: HistPtr) returns (r: Option<HistPtr>)
    requires Good(cs) && Stored(cs, h) && h !in keys && forall k :: k in keys ==> Stored(cs, k)
    ensures r.None? <==> forall k :: k in keys ==> Precedes(cs, h, k)
    ensures r.Some? ==> r.value in keys && Nearest(cs, keys, h, r.value)
  {
    hide Precedes, Packets, IsPast, Nearest, PassedOver, Chained, Shared, KeysBelow;
    r := Below(cs, keys, h);
    AllAbove(cs, keys, h, r);
    if r.None? { return; }
    var itr := r.value;
    StartDown(cs, keys, h, itr);
    while true
      invariant itr in keys && PassedOver(cs, keys, h, itr)
      decreases |KeysBelow(cs, keys, itr)|
    {
      var down := Below(cs, keys, itr);
      if down.None? {
        LastStop(cs, keys, h, itr);
        return Some(itr);
      }
      var contains := StartsWith(cs, h, itr);
      if contains {
        FoundPast(cs, keys, h, itr);
        return Some(itr);
      }
      StepDown(cs, keys, h, itr, down.value);
      FewerBelow(cs, keys, itr, down.value);
      Cardinality(KeysBelow(cs, keys, down.value), KeysBelow(cs, keys, itr));
      itr := down.value;
    }
  }

  method StartsWith(cs: Chains, h: HistPtr, other: HistPtr) returns (b: bool)
    requires Good(cs) && Stored(cs, h) && Stored(cs, other)
    ensures b == IsPast(cs, other, h)
  {
    b := Contains(cs, h, other);
  }

  lemma LastStop(cs: Chains, keys: set<HistPtr>, h: HistPtr, r: HistPtr)
    requires Good(cs) && Stored(cs, h) && h !in keys && forall k :: k in keys ==> Stored(cs, k)
    requires r in keys && PassedOver(cs, keys, h, r) && forall k :: k in keys ==> !Precedes(cs, k, r)
    ensures Nearest(cs, keys, h, r)
  {
    hide PassedOver, Nearest, IsPast, Precedes;
    if IsPast(cs, r, h) { FoundPast(cs, keys, h, r); } else { FoundLeast(cs, keys, h, r); }
  }

  lemma StartDown(cs: Chains, keys: set<HistPtr>, h: HistPtr, r: HistPtr)
    requires Good(cs) && Stored(cs, h) && forall k :: k in keys ==> Stored(cs, k)
    requires r in keys && Precedes(cs, r, h)
    requires forall k :: k in keys && Precedes(cs, k, h) ==> k == r || Precedes(cs, k, r)
    ensures PassedOver(cs, keys, h, r)
  {
    hide Precedes, IsPast, Packets, Chained, Shared;
    forall k | k in keys && Precedes(cs, r, k) && Precedes(cs, k, h) ensures !IsPast(cs, k, h) {
      ComparatorIsStrictTotal(cs, r, k, r);
    }
  }

  lemma AllAbove(cs: Chains, keys: set<HistPtr>, h: HistPtr, r: Option<HistPtr>)
    requires Good(cs) && Stored(cs, h) && h !in keys && forall k :: k in keys ==> Stored(cs, k)
    requires r.None? ==> forall k :: k in keys ==> !Precedes(cs, k, h)
    requires r.Some? ==> r.value in keys && Precedes(cs, r.value, h)
    ensures r.None? <==> forall k :: k in keys ==> Precedes(cs, h, k)
  {
    hide Precedes, Packets, Chained, Shared;
    forall k | k in keys ensures Precedes(cs, h, k) <==> !Precedes(cs, k, h) {
      ComparatorIsStrictTotal(cs, k, h, k);
    }
  }

  lemma {:induction false} Cardinality(a: set<HistPtr>, b: set<HistPtr>)
    requires a < b
    ensures |a| < |b|
  {
    assert b == a + (b - a);
  }

  // ---- The pool ----

  type Index<!S(0)> = map<MbId, map<HistPtr, set<Emulation<S>>>>

  ghost function Alone<S(0)>(h: HistPtr, e: Emulation<S>): map<HistPtr, set<Emulation<S>>> { map[h := {e}] }

  // The index of a middlebox is its one emulation under its current history.
  ghost predicate Agree<S(0)>(boxes: MbId -> Middlebox<S>, emus: set<Emulation<S>>,
                              owner: map<MbId, Emulation<S>>, ix: Index<S>)
    reads emus`mb, emus`nph
  {
    && owner.Keys == ix.Keys
    && (forall m :: m in owner ==> owner[m] in emus && owner[m].mb == m && ix[m] == Alone(owner[m].nph, owner[m]))
    && (forall e :: e in emus ==> e.mb in owner && owner[e.mb] == e && e.boxes == boxes)
  }

  lemma WithMember<S(0)>(boxes: MbId -> Middlebox<S>, emus: set<Emulation<S>>, owner: map<MbId, Emulation<S>>,
                         ix: Index<S>, e: Emulation<S>)
    requires Agree(boxes, emus, owner, ix) && e !in emus && e.mb !in ix && e.boxes == boxes
    ensures Agree(boxes, emus + {e}, owner[e.mb := e], ix[e.mb := Alone(e.nph, e)])
  {
  }

  lemma WithoutMember<S(0)>(boxes: MbId -> Middlebox<S>, emus: set<Emulation<S>>, owner: map<MbId, Emulation<S>>,
                            ix: Index<S>, e: Emulation<S>)
    requires Agree(boxes, emus, owner, ix) && e in emus
    ensures Agree(boxes, emus - {e}, owner - {e.mb}, ix - {e.mb}) && e.boxes == boxes
    ensures e.mb in ix && e.nph in ix[e.mb] && ix[e.mb] == Alone(e.nph, e)
  {
  }

  // The empty history precedes every other.
  lemma EmptyPrecedes(cs: Chains, h: HistPtr)
    requires Good(cs) && Stored(cs, h)
    ensures Stored(cs, 0) && (Precedes(cs, 0, h) <==> h != 0)
  {
    BeforeNull(cs, 0, h);
  }

  // None for a failed assertion or an undefined effect.
  class EmulationMgr<S(0)> {
    const boxes: MbId -> Middlebox<S>
    const maxEmu: nat
    var emus: set<Emulation<S>>
    var mbEmuMap: Index<S>
    ghost var owner: map<MbId, Emulation<S>>

    // The index agrees with the emulations, and the pool is not overfull.
    ghost predicate Valid()
      reads this, emus`mb, emus`nph
    {
      |emus| <= maxEmu && Agree(boxes, emus, owner, mbEmuMap)
    }

    // Each emulation is indexed exactly once, under its middlebox and history; nothing empty is
    // indexed; no two emulations emulate the same middlebox.
    lemma PoolIsExact(m: MbId, h: HistPtr, e: Emulation<S>)
      requires Valid()
      ensures m in mbEmuMap && h in mbEmuMap[m] && e in mbEmuMap[m][h] <==> e in emus && e.mb == m && e.nph == h
      ensures m in mbEmuMap ==> mbEmuMap[m] != map[]
      ensures m in mbEmuMap && h in mbEmuMap[m] ==> mbEmuMap[m][h] != {}
      ensures forall f :: f in emus && e in emus && f.mb == e.mb ==> f == e
    {
      if m in mbEmuMap { assert owner[m].nph in mbEmuMap[m]; }
    }

    constructor (boxes: MbId -> Middlebox<S>, maxEmu: nat)
      ensures Valid() && this.boxes == boxes && this.maxEmu == maxEmu && emus == {}
    {
      this.boxes, this.maxEmu := boxes, maxEmu;
      emus, mbEmuMap, owner := {}, map[], map[];
    }

    method Insert(m: MbId, h: HistPtr, e: Emulation<S>)
      modifies `mbEmuMap
      ensures m in mbEmuMap && mbEmuMap == old(mbEmuMap)[m := mbEmuMap[m]]
      ensures (m in old(mbEmuMap) ==> old(mbEmuMap)[m] == map[]) ==> mbEmuMap[m] == Alone(h, e)
    {
      var index: map<HistPtr, set<Emulation<S>>> := if m in mbEmuMap then mbEmuMap[m] else map[];
      var bucket := if h in index then index[h] else {};
      assert {} + {e} == {e};
      mbEmuMap := mbEmuMap[m := index[h := bucket + {e}]];
    }

    // Indexes an emulation that is not among the rest.
    method Register(emu: Emulation<S>, ghost rest: set<Emulation<S>>)
      requires emu !in rest && emu.boxes == boxes && (emu.mb in mbEmuMap ==> mbEmuMap[emu.mb] == map[])
      requires Agree(boxes, rest, owner, mbEmuMap - {emu.mb})
      modifies `mbEmuMap, `owner
      ensures Agree(boxes, rest + {emu}, owner, mbEmuMap)
    {
      hide Agree;
      WithMember(boxes, rest, owner, mbEmuMap - {emu.mb}, emu);
      Insert(emu.mb, emu.nph, emu);
      assert mbEmuMap == (old(mbEmuMap) - {emu.mb})[emu.mb := Alone(emu.nph, emu)];
      owner := owner[emu.mb := emu];
    }

    // Takes an emulation out of the index; its middlebox is left with an empty index.
    method Unregister(emu: Emulation<S>)
      requires Valid() && emu in emus
      modifies `mbEmuMap, `owner
      ensures emu.mb in old(mbEmuMap) && emu.boxes == boxes && mbEmuMap == old(mbEmuMap)[emu.mb := map[]]
      ensures Agree(boxes, emus - {emu}, owner, mbEmuMap - {emu.mb})
    {
      hide Agree;
      WithoutMember(boxes, emus, owner, mbEmuMap, emu);
      Erase(emu.mb, emu.nph, emu);
      owner := owner - {emu.mb};
      assert mbEmuMap - {emu.mb} == old(mbEmuMap) - {emu.mb};
    }

    // The emulation leaves its history's set, and an empty set leaves the index of the middlebox.
    method Erase(m: MbId, h: HistPtr, e: Emulation<S>)
      requires m in mbEmuMap && mbEmuMap[m] == Alone(h, e)
      modifies `mbEmuMap
      ensures mbEmuMap == old(mbEmuMap)[m := map[]]
    {
      var index: map<HistPtr, set<Emulation<S>>> := mbEmuMap[m];
      index := index[h := index[h] - {e}];
      if index[h] == {} {
        index := index - {h};
        assert index == map[];
      }
      mbEmuMap := mbEmuMap[m := index];
    }

    method NewEmulation(mb: MbId) returns (emu: Emulation<S>)
      requires Valid() && mb !in mbEmuMap && |emus| < maxEmu
      modifies this
      ensures Valid() && fresh(emu) && emus == old(emus) + {emu}
      ensures emu.mb == mb && emu.boxes == boxes && emu.nph == 0 && emu.State() == Launched(boxes(mb))
    {
      hide Agree, Launched;
      emu := new Emulation(boxes, mb);
      assert mbEmuMap - {mb} == mbEmuMap;
      Register(emu, emus);
      emus := emus + {emu};
    }

    method TakeOver(emu: Emulation<S>, mb: MbId)
      requires Valid() && mb !in mbEmuMap && emu in emus
      modifies this, emu
      ensures Valid() && emus == old(emus)
      ensures emu.mb == mb && emu.boxes == boxes && emu.nph == 0 && emu.State() == Launched(boxes(mb))
    {
      hide Agree, Launched;
      ghost var rest := emus - {emu};
      assert rest + {emu} == emus;
      var oldMb := emu.mb;
      Unregister(emu);
      if mbEmuMap[oldMb] == map[] { mbEmuMap := mbEmuMap - {oldMb}; }
      emu.Init(mb);
      assert mbEmuMap - {mb} == mbEmuMap;
      Register(emu, rest);
    }

    method FindEmulation(mb: MbId, nph: HistPtr, cs: Chains) returns (r: Option<Emulation<S>>)
      requires Valid() && Good(cs) && Stored(cs, nph) && mb in mbEmuMap
      requires forall e :: e in emus ==> Stored(cs, e.nph)
      ensures r.None? <==> Precedes(cs, nph, owner[mb].nph)
      ensures mb in owner && owner[mb] in emus && owner[mb].mb == mb && owner[mb].boxes == boxes
      ensures r.Some? ==> r.value == owner[mb]
    {
      hide Precedes, Packets, Chained, Shared, Nearest;
      var index := mbEmuMap[mb];
      assert index == Alone(owner[mb].nph, owner[mb]);
      ComparatorIsStrictTotal(cs, nph, owner[mb].nph, nph);
      if nph in index {
        var emu :| emu in index[nph];
        return Some(emu);
      }
      var nearest := FindNearest(cs, index.Keys, nph);
      assert owner[mb].nph in index.Keys;
      if nearest.None? { return None; }
      var emu :| emu in index[nearest.value];
      return Some(emu);
    }

    // An emulation for middlebox mb, as close to the history nph as the index allows.
    method GetEmulation(mb: MbId, nph: HistPtr, cs: Chains) returns (r: Option<Emulation<S>>)
      requires Valid() && 1 <= maxEmu && Good(cs) && Stored(cs, nph)
      requires forall e :: e in emus ==> Stored(cs, e.nph)
      modifies this, emus
      ensures Valid() && forall e :: e in emus ==> Stored(cs, e.nph)
      ensures forall e :: e in emus ==> e in old(emus) || fresh(e)
      ensures r.Some? ==> r.value in emus && r.value.mb == mb && r.value.boxes == boxes
      // a middlebox without an emulation gets one at its start, new or taken from another
      ensures mb !in old(mbEmuMap) ==>
                r.Some? && r.value.nph == 0 && r.value.State() == Launched(boxes(mb)) &&
                emus == old(emus) + {r.value} && (fresh(r.value) <==> |old(emus)| < maxEmu)
      // otherwise nothing changes and its one emulation is returned, if the request does not
      // precede that emulation's history
      ensures mb in old(mbEmuMap) ==>
                unchanged(this) && unchanged(old(emus)) &&
                (r.None? <==> Precedes(cs, nph, owner[mb].nph)) && (r.Some? ==> r.value == owner[mb])
      // so going back to the empty history is always undefined once anything was recorded
      ensures mb in old(mbEmuMap) && nph == 0 ==> (r.None? <==> owner[mb].nph != 0)
      ensures forall e :: e in old(emus) && r != Some(e) ==> unchanged(e)
    {
      hide Precedes, Good, Valid;
      if mb !in mbEmuMap {
        if |emus| < maxEmu {
          var emu := NewEmulation(mb);
          return Some(emu);
        } else {
          assert emus != {};
          var emu :| emu in emus;
          TakeOver(emu, mb);
          assert emus == emus + {emu};
          return Some(emu);
        }
      } else {
        r := FindEmulation(mb, nph, cs);
        EmptyPrecedes(cs, owner[mb].nph);
      }
    }

    // Records a new history for an emulation; false for a failed assertion.
    method UpdateNodePktHist(emu: Emulation<S>, nph: HistPtr)
      requires Valid() && emu in emus
      modifies this, emu
      ensures Valid() && emu.nph == nph && unchanged(`emus)
      ensures emu.mb == old(emu.mb) && emu.State() == old(emu.State())
    {
      hide Agree;
      ghost var rest := emus - {emu};
      assert rest + {emu} == emus;
      Unregister(emu);
      emu.nph := nph;
      Register(emu, rest);
    }
  }
}
