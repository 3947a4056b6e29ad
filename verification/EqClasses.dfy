/** The manager of equivalence classes of destination addresses (src/eqclassmgr.cpp). */
module EqClasses {
  import opened Addressing
  import opened EcRanges
  import opened EcRequests

  // The classes of the ranges overlapping r, restricted to owned ones on request.
  function OverlapLabels(s: seq<ECRange>, r: ECRange, ownedOnly: bool, owned: set<EcId>): set<EcId> {
    if s == [] then {} else
      (if s[0].Overlaps(r) && (ownedOnly ==> s[0].ec in owned) then {s[0].ec} else {}) +
      OverlapLabels(s[1..], r, ownedOnly, owned)
  }

  ghost predicate SameEc(s: seq<ECRange>, a: Addr, b: Addr) {
    LabelAt(s, a) != 0 && LabelAt(s, a) == LabelAt(s, b)
  }

  ghost predicate Coarsest(s: seq<ECRange>, added: seq<Request>) {
    forall a: Addr, b: Addr :: SameEc(s, a, b) <==> CoveredBy(added, a) && Alike(added, a, b)
  }

  ghost predicate OwnershipExact(s: seq<ECRange>, owned: set<EcId>, added: seq<Request>) {
    forall a: Addr :: LabelAt(s, a) in owned <==> OwnedBy(added, a)
  }

  // Class e lies entirely inside r.
  ghost predicate Inside(s: seq<ECRange>, e: EcId, r: ECRange) {
    forall a: Addr :: LabelAt(s, a) == e ==> r.Contains(a)
  }

  // What one addition of r does to the partition.
  ghost predicate Refined(was: seq<ECRange>, now: seq<ECRange>, r: ECRange) {
    forall a: Addr, b: Addr ::
      SameEc(now, a, b) <==>
      (LabelAt(was, a) != 0 || r.Contains(a)) && LabelAt(was, a) == LabelAt(was, b) &&
      (r.Contains(a) <==> r.Contains(b))
  }

  // Classes that r does not cut keep their identity.
  ghost predicate UncutKept(was: seq<ECRange>, now: seq<ECRange>, r: ECRange) {
    forall a: Addr :: LabelAt(was, a) != 0 && (!r.Contains(a) || Inside(was, LabelAt(was, a), r)) ==>
      LabelAt(now, a) == LabelAt(was, a)
  }

  ghost predicate OwnershipGrows(was: seq<ECRange>, wasOwned: set<EcId>, now: seq<ECRange>, owned: set<EcId>,
                              r: ECRange, own: bool) {
    forall a: Addr :: LabelAt(now, a) in owned <==> LabelAt(was, a) in wasOwned || (own && r.Contains(a))
  }

  // Every owned address keeps its class, and the class its owner.
  ghost predicate OwnedKept(was: seq<ECRange>, wasOwned: set<EcId>, now: seq<ECRange>, owned: set<EcId>) {
    forall a: Addr :: LabelAt(was, a) in wasOwned ==> LabelAt(now, a) == LabelAt(was, a) && LabelAt(now, a) in owned
  }

  // The owned classes are those of the interface addresses.
  ghost predicate OwnersAreInterfaces(s: seq<ECRange>, owned: set<EcId>, nodes: seq<NodeSources>) {
    forall a: Addr :: LabelAt(s, a) in owned <==> IsInterfaceAddress(nodes, a)
  }

  ghost predicate ClassesAreListed(s: seq<ECRange>, nodes: seq<NodeSources>, updates: seq<seq<Net>>,
                                   mbs: seq<MbSources>) {
    && (forall a: Addr :: LabelAt(s, a) != 0 <==> Mentioned(nodes, updates, mbs, a))
    && forall a: Addr, b: Addr ::
         SameEc(s, a, b) <==> Mentioned(nodes, updates, mbs, a) && Indistinct(nodes, updates, mbs, a, b)
  }

  // A class known to the manager that no address maps to.
  ghost predicate Phantom(s: seq<ECRange>, ecs: set<EcId>, e: EcId) {
    e in ecs && forall a: Addr :: LabelAt(s, a) != e
  }

  // 32-bit increment of an address: it wraps behind the last one.
  function Next(a: Addr): Addr {
    if a == MAX_ADDR then 0 else a + 1
  }

  class EqClassMgr {
    var allranges: seq<ECRange>
    var allEcs: set<EcId>
    var ownedEcs: set<EcId>
    var at: map<EcId, EqClass>  // the object behind each EqClass pointer
    var nextEc: EcId            // identity of the next EqClass to be allocated
    ghost var added: seq<Request>  // every range added so far

    ghost predicate Valid()
      reads this, at.Values
    {
      && Labelled(allranges)
      && (forall x :: x in allranges ==> x.ec in allEcs) && allEcs <= at.Keys
      && ownedEcs <= allEcs
      && 0 < nextEc && (forall e :: e in at ==> 0 < e < nextEc)
      && (forall e, f :: e in at && f in at && at[e] == at[f] ==> e == f)
      && (forall x :: x in allranges ==> Paired(allranges, at[x.ec].ranges, x.ec))
    }

    // The classes are the coarsest partition that respects every range added so far, and the
    // owned classes are those made of owned ranges.
    ghost predicate Exact()
      reads this
    {
      Coarsest(allranges, added) && OwnershipExact(allranges, ownedEcs, added)
    }

    constructor ()
      ensures Valid() && Exact() && added == []
      ensures allranges == [] && allEcs == {} && ownedEcs == {} && at == map[]
    {
      allranges, allEcs, ownedEcs, at, nextEc, added := [], {}, {}, map[], 1, [];
    }

    // std::set::find: the position of some range overlapping r, or the end.
    method Find(r: ECRange) returns (i: nat)
      ensures i <= |allranges|
      ensures i < |allranges| ==> allranges[i].Overlaps(r)
      ensures i == |allranges| ==> Clear(allranges, r)
    {
      i := 0;
      while i < |allranges| && !allranges[i].Overlaps(r)
        invariant i <= |allranges|
        invariant forall k :: 0 <= k < i ==> !allranges[k].Overlaps(r)
      {
        i := i + 1;
      }
    }

    // The two scans, down and up from a found range, meet every overlapping range.
    method GetOverlappedEcs(r: ECRange, ownedOnly: bool) returns (ecs: set<EcId>)
      requires Labelled(allranges)
      ensures ecs == OverlapLabels(allranges, r, ownedOnly, ownedEcs)
    {
      hide OverlapLabels;
      var found := Find(r);
      if found < |allranges| {
        var low, below := ScanDown(found, r, ownedOnly);
        var high, above := ScanUp(found, r, ownedOnly);
        ecs := below + above;
        assert allranges[low..high] == allranges[low..found] + allranges[found..high];
        OverlapLabelsConcat(allranges[low..found], allranges[found..high], r, ownedOnly, ownedEcs);
        OverlapsAreAdjacent(allranges, r, low, high, ownedOnly, ownedEcs);
      } else {
        ecs := {};
        NoOverlapNoLabels(allranges, r, ownedOnly, ownedEcs);
      }
    }

    method ScanDown(found: nat, r: ECRange, ownedOnly: bool) returns (low: nat, ecs: set<EcId>)
      requires found < |allranges|
      ensures low <= found && (low > 0 ==> !allranges[low - 1].Overlaps(r))
      ensures forall j :: low <= j < found ==> allranges[j].Overlaps(r)
      ensures ecs == OverlapLabels(allranges[low..found], r, ownedOnly, ownedEcs)
    {
      low, ecs := found, {};
      while low > 0 && allranges[low - 1].Overlaps(r)
        invariant low <= found
        invariant forall j :: low <= j < found ==> allranges[j].Overlaps(r)
        invariant ecs == OverlapLabels(allranges[low..found], r, ownedOnly, ownedEcs)
      {
        low := low - 1;
        if !ownedOnly || allranges[low].ec in ownedEcs {
          ecs := ecs + {allranges[low].ec};
        }
        GrowDown(allranges, low, found, r, ownedOnly, ownedEcs);
      }
    }

    method ScanUp(found: nat, r: ECRange, ownedOnly: bool) returns (high: nat, ecs: set<EcId>)
      requires found < |allranges| && allranges[found].Overlaps(r)
      ensures found < high <= |allranges| && (high < |allranges| ==> !allranges[high].Overlaps(r))
      ensures forall j :: found <= j < high ==> allranges[j].Overlaps(r)
      ensures ecs == OverlapLabels(allranges[found..high], r, ownedOnly, ownedEcs)
    {
      high, ecs := found, {};
      while high < |allranges| && allranges[high].Overlaps(r)
        invariant found <= high <= |allranges|
        invariant forall j :: found <= j < high ==> allranges[j].Overlaps(r)
        invariant ecs == OverlapLabels(allranges[found..high], r, ownedOnly, ownedEcs)
      {
        if !ownedOnly || allranges[high].ec in ownedEcs {
          ecs := ecs + {allranges[high].ec};
        }
        GrowUp(allranges, found, high, r, ownedOnly, ownedEcs);
        high := high + 1;
      }
    }

    method FindEc(ip: Addr) returns (e: EcId)
      requires Labelled(allranges)
      ensures e == LabelAt(allranges, ip)
    {
      var i := Find(ECRange(ip, ip, 0));
      if i == |allranges| {
        if LabelAt(allranges, ip) != 0 { var x := LabelSource(allranges, ip); }
        return 0;
      }
      LabelOfMember(allranges, allranges[i], ip);
      return allranges[i].ec;
    }

    // One iteration of the splitting loop: o is cut at the borders of r and the part inside r
    // moves from class e to class f.
    method CutRange(e: EcId, f: EcId, o: ECRange, r: ECRange)
      requires Labelled(allranges) && e in at && f in at && e != f && at[e] != at[f] && f != 0
      requires Paired(allranges, at[e].ranges, e) && Paired(allranges, at[f].ranges, f)
      requires o in allranges && o.ec == e && o.Overlaps(r) && r.lb <= r.ub
      modifies this`allranges, at[e], at[f]
      ensures Labelled(allranges)
      ensures Paired(allranges, at[e].ranges, e) && Paired(allranges, at[f].ranges, f)
      ensures forall x: ECRange :: x.ec != e && x.ec != f ==> (x in allranges <==> x in old(allranges))
      ensures forall x :: x in old(allranges) && x != o ==> x in allranges
      ensures forall x :: x in allranges ==> x in old(allranges) || x.ec == e || x.ec == f
      ensures forall a: Addr :: LabelAt(allranges, a) ==
                if o.Contains(a) && r.Contains(a) then f else LabelAt(old(allranges), a)
    {
      RemovePiece(e, f, o);
      var rest := o;
      if rest.lb < r.lb {
        AddPiece(e, f, rest.(ub := r.lb - 1));
        rest := rest.(lb := r.lb);
      }
      if r.ub < rest.ub {
        AddPiece(e, f, rest.(lb := r.ub + 1));
        rest := rest.(ub := r.ub);
      }
      AddPiece(f, e, rest.(ec := f));
    }

    // Take one range out of the table of all ranges and out of its class.
    method RemovePiece(e: EcId, other: EcId, o: ECRange)
      requires Labelled(allranges) && e in at && other in at && at[e] != at[other] && e != other
      requires Paired(allranges, at[e].ranges, e) && Paired(allranges, at[other].ranges, other)
      requires o in allranges && o.ec == e
      modifies this`allranges, at[e]
      ensures Labelled(allranges)
      ensures Paired(allranges, at[e].ranges, e) && Paired(allranges, at[other].ranges, other)
      ensures forall x :: x in allranges <==> x in old(allranges) && x != o
      ensures forall a: Addr :: o.Contains(a) ==> LabelAt(old(allranges), a) == e
      ensures forall a: Addr :: LabelAt(allranges, a) == if o.Contains(a) then 0 else LabelAt(old(allranges), a)
    {
      forall a: Addr | o.Contains(a)
        ensures LabelAt(allranges, a) == e
      {
        LabelOfMember(allranges, o, a);
      }
      EraseLabels(allranges, o);
      PairedErase(allranges, at[e].ranges, e, o);
      PairedElsewhere(allranges, Erase(allranges, o), at[other].ranges, other);
      allranges := Erase(allranges, o);
      at[e].RmRange(o);
    }

    // Add one range to a class and to the table of all ranges.
    method AddPiece(e: EcId, other: EcId, p: ECRange)
      requires Labelled(allranges) && e in at && other in at && at[e] != at[other] && e != other && e != 0
      requires Paired(allranges, at[e].ranges, e) && Paired(allranges, at[other].ranges, other)
      requires p.lb <= p.ub && p.ec == e
      requires forall a: Addr :: p.Contains(a) ==> LabelAt(allranges, a) == 0
      modifies this`allranges, at[e]
      ensures Labelled(allranges)
      ensures Paired(allranges, at[e].ranges, e) && Paired(allranges, at[other].ranges, other)
      ensures forall x :: x in allranges <==> x in old(allranges) || x == p
      ensures forall a: Addr :: LabelAt(allranges, a) == if p.Contains(a) then e else LabelAt(old(allranges), a)
    {
      InsertLabels(allranges, p);
      PairedInsert(allranges, at[e].ranges, e, p);
      PairedElsewhere(allranges, Insert(allranges, p), at[other].ranges, other);
      at[e].AddRange(p);
      allranges := Insert(allranges, p);
    }

    // Make every address of r distinguishable from the addresses outside r.
    method AddEc(r: ECRange, owned: bool)
      requires Valid() && Exact() && r.lb <= r.ub
      modifies this, at.Values
      ensures Valid() && Exact() && added == old(added) + [Request(r, owned)]
      ensures Refined(old(allranges), allranges, r) && UncutKept(old(allranges), allranges, r)
      ensures OwnershipGrows(old(allranges), old(ownedEcs), allranges, ownedEcs, r, owned)
      ensures OwnedAreSingle(old(added)) ==> OwnedKept(old(allranges), old(ownedEcs), allranges, ownedEcs)
      ensures forall e :: Phantom(allranges, allEcs, e) <==>
                Phantom(old(allranges), old(allEcs), e) ||
                (e == nextEc - 1 && r.ub == MAX_ADDR && AllLabelled(old(allranges), r))
      ensures forall g :: g in at ==> (g in old(at) && at[g] == old(at)[g]) || fresh(at[g])
    {
      hide *;
      ghost var was, wasOwned, wasEcs, bound := allranges, ownedEcs, allEcs, nextEc;
      ExactNow();
      ValidLabels();
      ghost var moved := SplitOverlapped(r, owned);
      ghost var mid, midOwned := allranges, ownedEcs;
      ValidLabels();
      FreshIds();
      OverlapsAreWithin(was, mid, r, moved, bound, nextEc);
      var f := AddNonOverlappedEc(r, owned);
      ghost var id := nextEc - 1;
      GapsAreFilled(was, mid, allranges, r, moved, bound, f, id);
      AdditionRefines(was, mid, allranges, r, moved, bound, f, id);
      AdditionOwns(was, wasOwned, mid, midOwned, allranges, ownedEcs, r, owned, f, id);
      AdditionPhantoms(was, wasEcs, mid, allranges, allEcs, r, moved, bound, f, id);
      ExactStep(was, wasOwned, allranges, ownedEcs, added, r, owned);
      if OwnedAreSingle(added) { OwnedNeverSplit(was, wasOwned, added, allranges, ownedEcs, r, owned); }
      Record(Request(r, owned));
      ExactSince();
    }

    ghost method Record(q: Request)
      requires Valid()
      modifies this`added
      ensures Valid() && added == old(added) + [q]
    {
      added := added + [q];
    }

    lemma ExactSince()
      requires Coarsest(allranges, added) && OwnershipExact(allranges, ownedEcs, added)
      ensures Exact()
    {
    }

    // Every interface address becomes an owned class of its own; every network of a route, an
    // update or a middlebox configuration, and every configured address, is made distinguishable.
    method ComputeInitialEcs(nodes: seq<NodeSources>, updates: seq<seq<Net>>, middleboxes: seq<MbSources>)
      requires Valid() && Exact()
      requires SourcesValid(nodes, updates, middleboxes)
      modifies this, at.Values
      ensures Valid() && Exact()
      ensures added == old(added) + InitialRequests(nodes, updates, middleboxes)
      ensures old(added) == [] ==>
                OwnedAreSingle(added) && OwnersAreInterfaces(allranges, ownedEcs, nodes)
      // from the empty manager: the addresses with a class are those that are listed or in a listed
      // network, and two of them share it exactly when none of these tells them apart
      ensures old(added) == [] ==> ClassesAreListed(allranges, nodes, updates, middleboxes)
      ensures forall g :: g in at ==> (g in old(at) && at[g] == old(at)[g]) || fresh(at[g])
    {
      hide Valid, Exact, AddrRequests, NetRequests, InitialRequests, OwnedAreSingle, OwnersAreInterfaces,
        ClassesAreListed, AllValid;
      ghost var start := added;
      for i := 0 to |nodes|
        invariant Valid() && Exact() && added == start + NodeRequests(nodes, i)
        invariant forall g :: g in at ==> (g in old(at) && at[g] == old(at)[g]) || fresh(at[g])
      {
        AddAddrs(nodes[i].addrs, true);
        AddNets(nodes[i].nets);
      }
      start := added;
      for i := 0 to |updates|
        invariant Valid() && Exact() && added == start + UpdateRequests(updates, i)
        invariant forall g :: g in at ==> (g in old(at) && at[g] == old(at)[g]) || fresh(at[g])
      {
        AddNets(updates[i]);
      }
      start := added;
      for i := 0 to |middleboxes|
        invariant Valid() && Exact() && added == start + MbRequests(middleboxes, i)
        invariant forall g :: g in at ==> (g in old(at) && at[g] == old(at)[g]) || fresh(at[g])
      {
        AddNets(middleboxes[i].prefixes);
        AddAddrs(middleboxes[i].addrs, false);
      }
      RequestsInOrder(old(added), nodes, updates, middleboxes);
      if old(added) == [] { InitialState(nodes, updates, middleboxes); }
    }

    lemma InitialState(nodes: seq<NodeSources>, updates: seq<seq<Net>>, middleboxes: seq<MbSources>)
      requires Exact() && SourcesValid(nodes, updates, middleboxes)
      requires added == [] + InitialRequests(nodes, updates, middleboxes)
      ensures OwnedAreSingle(added) && OwnersAreInterfaces(allranges, ownedEcs, nodes)
      ensures ClassesAreListed(allranges, nodes, updates, middleboxes)
    {
      hide InitialRequests, OwnedAreSingle, OwnersAreInterfaces, ClassesAreListed;
      assert added == InitialRequests(nodes, updates, middleboxes);
      ExactNow();
      InitialOwners(allranges, ownedEcs, nodes, updates, middleboxes);
      InitialClasses(allranges, nodes, updates, middleboxes);
    }

    method AddNets(nets: seq<Net>)
      requires Valid() && Exact() && AllValid(nets)
      modifies this, at.Values
      ensures Valid() && Exact() && added == old(added) + NetRequests(nets, |nets|)
      ensures forall g :: g in at ==> (g in old(at) && at[g] == old(at)[g]) || fresh(at[g])
    {
      hide Valid, Exact, Refined, UncutKept, OwnershipGrows, Phantom, AllLabelled;
      for i := 0 to |nets|
        invariant Valid() && Exact() && added == old(added) + NetRequests(nets, i)
        invariant forall g :: g in at ==> (g in old(at) && at[g] == old(at)[g]) || fresh(at[g])
      {
        AddEc(RangeOf(nets[i]), false);
      }
    }

    method AddAddrs(addrs: seq<Addr>, owned: bool)
      requires Valid() && Exact()
      modifies this, at.Values
      ensures Valid() && Exact() && added == old(added) + AddrRequests(addrs, owned, |addrs|)
      ensures forall g :: g in at ==> (g in old(at) && at[g] == old(at)[g]) || fresh(at[g])
    {
      hide Valid, Exact, Refined, UncutKept, OwnershipGrows, Phantom, AllLabelled;
      for i := 0 to |addrs|
        invariant Valid() && Exact() && added == old(added) + AddrRequests(addrs, owned, i)
        invariant forall g :: g in at ==> (g in old(at) && at[g] == old(at)[g]) || fresh(at[g])
      {
        AddEc(ECRange(addrs[i], addrs[i], 0), owned);
      }
    }

    // The loop over the classes overlapping r: those partly inside r are split. The ghost result
    // maps each split class to its new part.
    method SplitOverlapped(r: ECRange, owned: bool) returns (ghost moved: map<EcId, EcId>)
      requires Valid() && r.lb <= r.ub
      modifies this, at.Values
      ensures Valid() && added == old(added)
      ensures SplitState(old(allranges), allranges, r, moved, {}, old(nextEc), nextEc)
      ensures SplitOwned(old(allranges), old(ownedEcs), allranges, ownedEcs, r, owned, {})
      ensures allEcs == old(allEcs) + moved.Values
      ensures forall g :: g in at ==> (g in old(at) && at[g] == old(at)[g]) || fresh(at[g])
    {
      hide *;
      ghost var was, wasOwned, bound := allranges, ownedEcs, nextEc;
      moved := map[];
      ValidLabels();
      var todo := GetOverlappedEcs(r, false);
      SplitStart(was, ownedEcs, r, owned, todo, bound);
      while todo != {}
        invariant Valid() && added == old(added)
        invariant SplitState(was, allranges, r, moved, todo, bound, nextEc)
        invariant SplitOwned(was, wasOwned, allranges, ownedEcs, r, owned, todo)
        invariant allEcs == old(allEcs) + moved.Values
        invariant forall g :: g in at ==> (g in old(at) && at[g] == old(at)[g]) || fresh(at[g])
        decreases todo
      {
        var e :| e in todo;
        ghost var now, nowOwned := allranges, ownedEcs;
        TodoIsLabelled(was, allranges, r, moved, todo, bound, nextEc, e);
        ClassOf(e);
        var lo, hi := at[e].ranges[0].lb, at[e].ranges[|at[e].ranges| - 1].ub;
        ContainsClass(e, r, lo, hi);
        if !(r.lb <= lo && hi <= r.ub) {
          FreshIds();
          var f := SplitIntersectedEc(e, r, owned);
          SplitOwnedStep(was, wasOwned, now, nowOwned, allranges, ownedEcs, r, owned, todo, e, f, moved, bound);
          SplitStep(was, now, allranges, r, moved, todo, bound, f, e);
          NewValue(moved, e, f);
          moved := moved[e := f];
        } else {
          if owned {
            OwnClass(e);
          }
          KeepStep(was, allranges, wasOwned, nowOwned, ownedEcs, r, owned, moved, todo, bound, nextEc, e);
        }
        todo := todo - {e};
      }
    }

    // _owned_ecs.insert(ec)
    method OwnClass(e: EcId)
      requires Valid() && e in allEcs
      modifies this`ownedEcs
      ensures Valid() && ownedEcs == old(ownedEcs) + {e}
    {
      ownedEcs := ownedEcs + {e};
    }

    lemma ValidLabels()
      requires Valid()
      ensures Labelled(allranges) && 0 !in ownedEcs && nextEc > 0
      ensures forall e :: e in allEcs ==> 0 < e < nextEc
      ensures forall a: Addr :: LabelAt(allranges, a) < nextEc
    {
      forall a: Addr
        ensures LabelAt(allranges, a) < nextEc
      {
        if LabelAt(allranges, a) != 0 { var x := LabelSource(allranges, a); }
      }
    }

    lemma ExactNow()
      requires Exact()
      ensures Coarsest(allranges, added) && OwnershipExact(allranges, ownedEcs, added)
    {
    }

    lemma FreshIds()
      requires Valid()
      ensures nextEc !in ownedEcs && nextEc !in allEcs
    {
    }

    // A class that labels something is an object holding exactly its ranges.
    lemma ClassOf(e: EcId)
      requires Valid() && exists x :: x in allranges && x.ec == e
      ensures e in at && e in allEcs && Paired(allranges, at[e].ranges, e) && at[e].ranges != []
    {
    }

    lemma ContainsClass(e: EcId, r: ECRange, lo: Addr, hi: Addr)
      requires Valid() && e in at && Paired(allranges, at[e].ranges, e) && at[e].ranges != [] && e != 0
      requires lo == at[e].ranges[0].lb && hi == at[e].ranges[|at[e].ranges| - 1].ub
      ensures r.lb <= lo && hi <= r.ub <==> Inside(allranges, e, r)
    {
      OwnExtent(allranges, at[e].ranges, e, r);
    }

    // Move the part of class e inside r to a new class f.
    method SplitIntersectedEc(e: EcId, r: ECRange, owned: bool) returns (f: EcId)
      requires Valid() && r.lb <= r.ub
      requires exists x :: x in allranges && x.ec == e && x.Overlaps(r)
      modifies this, at.Values
      ensures added == old(added)
      ensures Valid()
      ensures f == old(nextEc) && nextEc == f + 1
      ensures at.Keys == old(at.Keys) + {f} && fresh(at[f]) && forall g :: g in old(at) ==> at[g] == old(at)[g]
      ensures forall a: Addr :: LabelAt(allranges, a) ==
                                if LabelAt(old(allranges), a) == e && r.Contains(a) then f
                                else LabelAt(old(allranges), a)
      ensures allEcs == old(allEcs) + {f}
      ensures ownedEcs == old(ownedEcs) + if owned || e in old(ownedEcs) then {f} else {}
    {
      hide *;
      ghost var was := allranges;
      ghost var own := Own();
      OwnPaired();
      ClassOf(e);
      FreshIds();
      ValidParts();
      f := nextEc;
      nextEc := nextEc + 1;
      var newEc := new EqClass();
      at := at[f := newEc];
      NoLabelYet(was, f, allEcs);
      MoveRanges(e, f, r);
      allEcs := allEcs + {f};
      if owned || e in ownedEcs {
        ownedEcs := ownedEcs + {f};
      }
      RestPaired(was, allranges, own, e, f);
      MovedLabels(was, allranges, e, f, old(allEcs));
      ValidAfterMove(was, own, e, f);
    }

    // Valid() without the pairing of objects and ranges.
    lemma ValidParts()
      requires Valid()
      ensures Labelled(allranges) && allEcs <= at.Keys && ownedEcs <= allEcs && 0 < nextEc
      ensures forall e :: e in at ==> 0 < e < nextEc
      ensures forall e, f :: e in at && f in at && at[e] == at[f] ==> e == f
      ensures forall x :: x in allranges ==> x.ec in allEcs
    {
    }

    lemma ValidAfterMove(was: seq<ECRange>, own: map<EcId, seq<ECRange>>, e: EcId, f: EcId)
      requires Labelled(allranges) && allEcs <= at.Keys && ownedEcs <= allEcs
      requires e in at && f in at && 0 < nextEc && forall g :: g in at ==> 0 < g < nextEc
      requires forall g, h :: g in at && h in at && at[g] == at[h] ==> g == h
      requires forall x :: x in allranges ==> x.ec in allEcs
      requires Paired(allranges, at[e].ranges, e) && Paired(allranges, at[f].ranges, f)
      requires forall y :: y in allranges && y.ec != e && y.ec != f ==>
                 y.ec in own && Paired(allranges, own[y.ec], y.ec)
      requires forall g :: g in own && g != e && g != f ==> g in at && at[g].ranges == own[g]
      ensures Valid()
    {
      hide Paired, Labelled;
    }

    // The splitting loop: walk over a copy of class e and cut each range that overlaps r.
    method MoveRanges(e: EcId, f: EcId, r: ECRange)
      requires Labelled(allranges) && e in at && f in at && e != f && at[e] != at[f] && e != 0 && f != 0
      requires Paired(allranges, at[e].ranges, e) && at[f].ranges == [] && Paired(allranges, [], f)
      requires r.lb <= r.ub
      modifies this`allranges, at[e], at[f]
      ensures Paired(allranges, at[e].ranges, e) && Paired(allranges, at[f].ranges, f)
      ensures Moved(old(allranges), allranges, e, f)
      ensures forall a: Addr :: LabelAt(allranges, a) ==
                                if LabelAt(old(allranges), a) == e && r.Contains(a) then f
                                else LabelAt(old(allranges), a)
    {
      ghost var was := allranges;
      var origEc := at[e].ranges;
      var k := 0;
      while k < |origEc|
        invariant k <= |origEc|
        invariant Paired(allranges, at[e].ranges, e) && Paired(allranges, at[f].ranges, f)
        invariant Moved(was, allranges, e, f) && MovedTo(was, allranges, origEc[..k], r, f)
        invariant forall j :: k <= j < |origEc| ==> origEc[j] in allranges
      {
        var ecrange := origEc[k];
        ghost var before := allranges;
        if ecrange.Overlaps(r) {
          CutRange(e, f, ecrange, r);
        }
        MovedOneMore(was, before, allranges, origEc, k, r, f);
        k := k + 1;
      }
      assert origEc[..k] == origEc;
      AllMoved(was, allranges, origEc, e, f, r);
    }

    // Put the still unlabelled addresses of r into one new class f; the result is 0 when no
    // class was created.
    method AddNonOverlappedEc(r: ECRange, owned: bool) returns (f: EcId)
      requires Valid() && r.lb <= r.ub
      requires forall x :: x in allranges && x.Overlaps(r) ==> x.Within(r)
      modifies this
      ensures added == old(added)
      ensures Valid() && nextEc == old(nextEc) + 1
      ensures f == 0 <==> r.ub != MAX_ADDR && AllLabelled(old(allranges), r)
      ensures f == 0 ==> at == old(at)
      ensures f != 0 ==> f == old(nextEc) && at.Keys == old(at.Keys) + {f} && fresh(at[f])
      ensures forall g :: g in old(at) ==> at[g] == old(at)[g]
      ensures forall a: Addr :: LabelAt(allranges, a) ==
                if r.Contains(a) && LabelAt(old(allranges), a) == 0 then f else LabelAt(old(allranges), a)
      ensures allEcs == old(allEcs) + (if f != 0 then {f} else {})
      ensures ownedEcs == old(ownedEcs) + (if owned && f != 0 then {f} else {})
    {
      hide *;
      ghost var was := allranges;
      ghost var own := Own();
      OwnPaired();
      FreshIds();
      ValidParts();
      var newEc := new EqClass();
      f := nextEc;
      nextEc := nextEc + 1;
      NoLabelYet(was, f, allEcs);
      FillClass(newEc, f, r);
      FilledMeans(was, allranges, r, f);
      RestPaired(was, allranges, own, f, f);
      MovedLabels(was, allranges, f, f, old(allEcs) + {f});
      if newEc.ranges == [] {
        f := 0;
      } else {
        at := at[f := newEc];
        allEcs := allEcs + {f};
        if owned {
          ownedEcs := ownedEcs + {f};
        }
      }
      ValidAfterFill(own, nextEc - 1);
    }

    lemma ValidAfterFill(own: map<EcId, seq<ECRange>>, f: EcId)
      requires Labelled(allranges) && allEcs <= at.Keys && ownedEcs <= allEcs
      requires 0 < nextEc && forall g :: g in at ==> 0 < g < nextEc
      requires forall g, h :: g in at && h in at && at[g] == at[h] ==> g == h
      requires forall x :: x in allranges && x.ec != f ==> x.ec in allEcs
      requires forall x :: x in allranges && x.ec == f ==> f in allEcs && Paired(allranges, at[f].ranges, f)
      requires forall y :: y in allranges && y.ec != f ==> y.ec in own && Paired(allranges, own[y.ec], y.ec)
      requires forall g :: g in own ==> g in at && at[g].ranges == own[g]
      ensures Valid()
    {
      hide Paired, Labelled;
    }

    // The ranges of every class object.
    ghost function Own(): map<EcId, seq<ECRange>>
      reads this, at.Values
    {
      map g | g in at :: at[g].ranges
    }

    lemma OwnPaired()
      requires Valid()
      ensures forall x :: x in allranges ==> x.ec in Own() && Paired(allranges, Own()[x.ec], x.ec)
      ensures Own().Keys == at.Keys && forall g :: g in at ==> Own()[g] == at[g].ranges
    {
    }

    // Both loops and the last gap: newEc receives the unlabelled addresses of r.
    method FillClass(newEc: EqClass, f: EcId, r: ECRange)
      requires Labelled(allranges) && r.lb <= r.ub && f != 0
      requires newEc.ranges == [] && Paired(allranges, [], f)
      requires forall x :: x in allranges && x.Overlaps(r) ==> x.Within(r)
      requires forall a: Addr :: LabelAt(allranges, a) != f
      modifies this`allranges, newEc
      ensures Moved(old(allranges), allranges, f, f) && Filled(old(allranges), allranges, r, r.ub + 1, f)
      ensures newEc.ranges == [] <==> r.ub != MAX_ADDR && AllLabelled(old(allranges), r)
      ensures (exists x :: x in allranges && x.ec == f) ==> Paired(allranges, newEc.ranges, f)
      ensures newEc.ranges == [] ==> forall x :: x in allranges ==> x.ec != f
    {
      ghost var was := allranges;
      var lb, next := FillGaps(newEc, f, r);
      ghost var own := newEc.ranges;
      if lb <= r.ub {
        var last := ECRange(lb, r.ub, f);
        if next <= r.ub {
          FillTail(was, allranges, own, r, lb, f);
        } else {
          FillWrapped(allranges, own, r, f);
          OwnEmpty(was, allranges, own, r, f);
        }
        newEc.AddRange(last);
        allranges := Insert(allranges, last);
      } else {
        OwnEmpty(was, allranges, own, r, f);
      }
    }

    // The two loops over the table: skip to the first range overlapping r, then fill the gap
    // below each overlapping range. lb wraps to 0 behind the last address; next is its true value.
    method FillGaps(newEc: EqClass, f: EcId, r: ECRange) returns (lb: Addr, ghost next: int)
      requires Labelled(allranges) && r.lb <= r.ub && f != 0
      requires newEc.ranges == [] && Paired(allranges, [], f)
      requires forall x :: x in allranges && x.Overlaps(r) ==> x.Within(r)
      modifies this`allranges, newEc
      ensures Paired(allranges, newEc.ranges, f) && Moved(old(allranges), allranges, f, f)
      ensures r.lb <= next <= r.ub + 1 && lb == if next > MAX_ADDR then 0 else next
      ensures Filled(old(allranges), allranges, r, next, f)
      ensures forall a: Addr :: next <= a <= r.ub ==> LabelAt(allranges, a) == 0
    {
      ghost var was := allranges;
      var it := 0;
      while it < |allranges| && !allranges[it].Overlaps(r)
        invariant it <= |allranges| && allranges == was && newEc.ranges == []
        invariant forall k :: 0 <= k < it ==> !allranges[k].Overlaps(r)
      {
        it := it + 1;
      }
      StartOfOverlaps(allranges, it, r);
      lb, next := FillFrom(it, newEc, f, r);
    }

    method FillFrom(start: nat, newEc: EqClass, f: EcId, r: ECRange) returns (lb: Addr, ghost next: int)
      requires f != 0 && Walking(allranges, allranges, newEc.ranges, start, r, r.lb, f)
      modifies this`allranges, newEc
      ensures Paired(allranges, newEc.ranges, f) && Moved(old(allranges), allranges, f, f)
      ensures r.lb <= next <= r.ub + 1 && lb == if next > 0xFFFF_FFFF then 0 else next
      ensures Filled(old(allranges), allranges, r, next, f)
      ensures forall a: Addr :: next <= a <= r.ub ==> LabelAt(allranges, a) == 0
    {
      hide *;
      ghost var was := allranges;
      var it: nat := start;
      lb, next := r.lb, r.lb;
      WalkingAt(was, allranges, newEc.ranges, it, r, next, f);
      while it < |allranges| && allranges[it].Overlaps(r)
        invariant 0 <= it <= |allranges| && (it < |allranges| ==> next <= allranges[it].lb)
        invariant lb == if next > 0xFFFF_FFFF then 0 else next
        invariant Walking(was, allranges, newEc.ranges, it, r, next, f)
        decreases |allranges| - it
      {
        if lb < allranges[it].lb {
          var gap := ECRange(lb, allranges[it].lb - 1, f);
          GapStep(was, allranges, newEc.ranges, it, r, next, f);
          newEc.AddRange(gap);
          allranges := Insert(allranges, gap);
          it := it + 1;
        } else {
          SkipStep(was, allranges, newEc.ranges, it, r, next, f);
        }
        lb, next := Next(allranges[it].ub), allranges[it].ub + 1;
        it := it + 1;
        NextIs(allranges[it - 1].ub);
        WalkingAt(was, allranges, newEc.ranges, it, r, next, f);
      }
      WalkingEnds(was, allranges, newEc.ranges, it, r, next, f);
    }
  }

  lemma NextIs(a: Addr)
    ensures Next(a) == if a + 1 > 0xFFFF_FFFF then 0 else a + 1
  {
  }

  lemma WalkingAt(was: seq<ECRange>, s: seq<ECRange>, own: seq<ECRange>, it: nat, r: ECRange, next: int, f: EcId)
    requires Walking(was, s, own, it, r, next, f)
    ensures it <= |s| && r.lb <= next <= r.ub + 1 && (it < |s| ==> next <= s[it].lb)
  {
  }

  lemma WalkingEnds(was: seq<ECRange>, s: seq<ECRange>, own: seq<ECRange>, it: nat, r: ECRange, next: int, f: EcId)
    requires Walking(was, s, own, it, r, next, f)
    requires it < |s| ==> !s[it].Overlaps(r)
    ensures Paired(s, own, f) && Moved(was, s, f, f) && Filled(was, s, r, next, f)
    ensures r.lb <= next <= r.ub + 1
    ensures forall a: Addr :: next <= a <= r.ub ==> LabelAt(s, a) == 0
  {
    RestIsFree(s, it, r, next);
  }

  lemma MovedLabels(was: seq<ECRange>, now: seq<ECRange>, e: EcId, f: EcId, ecs: set<EcId>)
    requires Moved(was, now, e, f) && (e in ecs || e == f) && forall x :: x in was ==> x.ec in ecs
    ensures Labelled(now) && forall x :: x in now ==> x.ec in ecs + {f}
  {
  }

  lemma FilledMeans(was: seq<ECRange>, now: seq<ECRange>, r: ECRange, f: EcId)
    requires Filled(was, now, r, r.ub + 1, f)
    ensures forall a: Addr :: LabelAt(now, a) == if r.Contains(a) && LabelAt(was, a) == 0 then f else LabelAt(was, a)
    ensures AllLabelled(was, r) ==> forall a: Addr :: LabelAt(now, a) == LabelAt(was, a)
  {
  }

  predicate AllLabelled(s: seq<ECRange>, r: ECRange) {
    forall a: Addr :: r.lb <= a <= r.ub ==> LabelAt(s, a) != 0
  }

  // The classes other than e and f still own exactly their ranges.
  lemma RestPaired(was: seq<ECRange>, now: seq<ECRange>, own: map<EcId, seq<ECRange>>, e: EcId, f: EcId)
    requires forall x :: x in was ==> x.ec in own && Paired(was, own[x.ec], x.ec)
    requires Moved(was, now, e, f)
    ensures forall y :: y in now && y.ec != e && y.ec != f ==> y in was && y.ec in own && Paired(now, own[y.ec], y.ec)
  {
    forall y | y in now && y.ec != e && y.ec != f
      ensures y in was && y.ec in own && Paired(now, own[y.ec], y.ec)
    {
      PairedElsewhere(was, now, own[y.ec], y.ec);
    }
  }

  // What the filling loop maintains.
  ghost predicate Walking(was: seq<ECRange>, s: seq<ECRange>, own: seq<ECRange>, it: nat, r: ECRange, next: int,
                          f: EcId) {
    && Moved(was, s, f, f)
    && Paired(s, own, f)
    && r.lb <= next <= r.ub + 1
    && Filled(was, s, r, next, f)
    && Walk(s, it, r, next)
  }

  // The addresses of r below next that had no label now have label f; all others are unchanged.
  ghost predicate Filled(was: seq<ECRange>, now: seq<ECRange>, r: ECRange, next: int, f: EcId) {
    forall a: Addr :: LabelAt(now, a) ==
                      if r.Contains(a) && a < next && LabelAt(was, a) == 0 then f else LabelAt(was, a)
  }

  // The state of the walk: ranges before position it that overlap r end below next, the ranges
  // from it on start at next or above, and those overlapping r lie within it.
  ghost predicate Walk(s: seq<ECRange>, it: nat, r: ECRange, next: int) {
    && it <= |s|
    && (forall k :: 0 <= k < it && s[k].Overlaps(r) ==> s[k].ub < next)
    && (forall k :: it <= k < |s| ==> next <= s[k].lb)
    && (forall k :: it <= k < |s| && s[k].Overlaps(r) ==> s[k].Within(r))
  }

  lemma StartOfOverlaps(s: seq<ECRange>, it: nat, r: ECRange)
    requires RangeSet(s) && it <= |s| && r.lb <= r.ub
    requires forall k :: 0 <= k < it ==> !s[k].Overlaps(r)
    requires it < |s| ==> s[it].Overlaps(r)
    requires forall x :: x in s && x.Overlaps(r) ==> x.Within(r)
    ensures Walk(s, it, r, r.lb)
  {
    if it < |s| { assert s[it] in s; }
  }

  // No range of s contains a, so a has no label.
  lemma NotCovered(s: seq<ECRange>, a: Addr)
    requires forall k :: 0 <= k < |s| ==> !s[k].Contains(a)
    ensures LabelAt(s, a) == 0
  {
    if LabelAt(s, a) != 0 { var x := LabelSource(s, a); }
  }

  lemma GapIsFree(s: seq<ECRange>, it: nat, r: ECRange, next: int)
    requires RangeSet(s) && Walk(s, it, r, next) && it < |s| && s[it].Overlaps(r) && r.lb <= next
    ensures forall a: Addr :: next <= a < s[it].lb ==> LabelAt(s, a) == 0
  {
    forall a: Addr | next <= a < s[it].lb
      ensures LabelAt(s, a) == 0
    {
      forall k | 0 <= k < |s|
        ensures !s[k].Contains(a)
      {
        assert it < k ==> s[it].ub < s[k].lb;
      }
      NotCovered(s, a);
    }
  }

  lemma RestIsFree(s: seq<ECRange>, it: nat, r: ECRange, next: int)
    requires RangeSet(s) && Walk(s, it, r, next) && r.lb <= next
    requires it < |s| ==> !s[it].Overlaps(r)
    ensures forall a: Addr :: next <= a <= r.ub ==> LabelAt(s, a) == 0
  {
    forall a: Addr | next <= a <= r.ub
      ensures LabelAt(s, a) == 0
    {
      forall k | 0 <= k < |s|
        ensures !s[k].Contains(a)
      {
        assert it < k ==> s[it].ub < s[k].lb;
      }
      NotCovered(s, a);
    }
  }

  // Passing the range at position it without a gap below it.
  lemma SkipStep(was: seq<ECRange>, s: seq<ECRange>, own: seq<ECRange>, it: nat, r: ECRange, next: int, f: EcId)
    requires Walking(was, s, own, it, r, next, f)
    requires it < |s| && s[it].Overlaps(r) && next == s[it].lb
    ensures Walking(was, s, own, it + 1, r, s[it].ub + 1, f)
  {
    forall a: Addr | s[it].Contains(a)
      ensures LabelAt(was, a) != 0
    {
      assert s[it] in s;
      LabelOfMember(s, s[it], a);
    }
    assert s[it].Within(r);
  }

  // Filling the gap below the range at position it and passing the range.
  lemma GapStep(was: seq<ECRange>, s: seq<ECRange>, own: seq<ECRange>, it: nat, r: ECRange, next: int, f: EcId)
    requires Walking(was, s, own, it, r, next, f) && f != 0
    requires it < |s| && s[it].Overlaps(r) && next < s[it].lb
    ensures var gap := ECRange(next, s[it].lb - 1, f);
            var s' := Insert(s, gap);
            && |s'| == |s| + 1 && s'[it + 1] == s[it]
            && Walking(was, s', Insert(own, gap), it + 2, r, s[it].ub + 1, f)
  {
    var gap := ECRange(next, s[it].lb - 1, f);
    GapIsFree(s, it, r, next);
    InsertLabels(s, gap);
    PairedInsert(s, own, f, gap);
    FillStep(was, s, Insert(s, gap), it, r, next, f);
    GapPosition(s, it, r, next, gap);
  }

  lemma GapPosition(s: seq<ECRange>, it: nat, r: ECRange, next: int, gap: ECRange)
    requires RangeSet(s) && Walk(s, it, r, next) && it < |s| && s[it].Overlaps(r) && r.lb <= next
    requires gap.lb == next && next <= gap.ub == s[it].lb - 1
    ensures |Insert(s, gap)| == |s| + 1 && Insert(s, gap)[it + 1] == s[it]
    ensures Walk(Insert(s, gap), it + 2, r, s[it].ub + 1)
  {
    forall k | 0 <= k < it
      ensures s[k].ub < gap.lb
    {
      assert s[k].ub < s[it].lb;
    }
    InsertBetween(s, it, gap);
    WalkAfterInsert(s, it, r, next, gap);
  }

  lemma FillStep(was: seq<ECRange>, s: seq<ECRange>, s': seq<ECRange>, it: nat, r: ECRange, next: int, f: EcId)
    requires Labelled(s) && it < |s| && s[it].Overlaps(r) && s[it].Within(r)
    requires r.lb <= next < s[it].lb && Filled(was, s, r, next, f)
    requires forall a: Addr :: next <= a < s[it].lb ==> LabelAt(s, a) == 0
    requires forall a: Addr :: LabelAt(s', a) == if next <= a < s[it].lb then f else LabelAt(s, a)
    ensures Filled(was, s', r, s[it].ub + 1, f)
  {
    forall a: Addr | s[it].Contains(a)
      ensures LabelAt(s, a) != 0
    {
      assert s[it] in s;
      LabelOfMember(s, s[it], a);
    }
  }

  lemma WalkAfterInsert(s: seq<ECRange>, it: nat, r: ECRange, next: int, gap: ECRange)
    requires RangeSet(s) && Walk(s, it, r, next) && it < |s| && gap.ub < s[it].lb
    ensures Walk(s[..it] + [gap] + s[it..], it + 2, r, s[it].ub + 1)
  {
    var t := s[..it] + [gap] + s[it..];
    forall k | 0 <= k < |t|
      ensures t[k] == if k < it then s[k] else if k == it then gap else s[k - 1]
    {
    }
  }

  // ---- One addition, on the level of addresses ----

  // r has addresses of class e.
  ghost predicate Touches(s: seq<ECRange>, e: EcId, r: ECRange) {
    exists a: Addr :: LabelAt(s, a) == e && r.Contains(a)
  }

  // now arises from was by moving the addresses of r in each class e of moved to moved[e].
  ghost predicate SplitBy(was: seq<ECRange>, now: seq<ECRange>, r: ECRange, moved: map<EcId, EcId>) {
    forall a: Addr :: LabelAt(now, a) ==
      if r.Contains(a) && LabelAt(was, a) in moved then moved[LabelAt(was, a)] else LabelAt(was, a)
  }

  // The new classes are new and distinct.
  ghost predicate FreshParts(was: seq<ECRange>, moved: map<EcId, EcId>, bound: EcId, next: EcId) {
    && (forall a: Addr :: LabelAt(was, a) < bound)
    && bound <= next
    && (forall e :: e in moved ==> 0 < e < bound <= moved[e] < next)
    && (forall e, g :: e in moved && g in moved && moved[e] == moved[g] ==> e == g)
  }

  // While the classes of todo remain to be looked at.
  ghost predicate SplitState(was: seq<ECRange>, now: seq<ECRange>, r: ECRange, moved: map<EcId, EcId>,
                             todo: set<EcId>, bound: EcId, next: EcId) {
    && SplitBy(was, now, r, moved)
    && FreshParts(was, moved, bound, next)
    && (forall e :: e in moved ==> e !in todo && Touches(was, e, r) && !Inside(was, e, r))
    && (forall e :: e in todo ==> e != 0 && Touches(was, e, r))
    && (forall a: Addr :: r.Contains(a) && LabelAt(was, a) != 0 ==>
          LabelAt(was, a) in todo || LabelAt(was, a) in moved || Inside(was, LabelAt(was, a), r))
  }

  ghost predicate SplitOwned(was: seq<ECRange>, wasOwned: set<EcId>, now: seq<ECRange>, owned: set<EcId>,
                             r: ECRange, own: bool, todo: set<EcId>) {
    forall a: Addr :: LabelAt(now, a) in owned <==>
      LabelAt(was, a) in wasOwned || (own && r.Contains(a) && LabelAt(was, a) != 0 && LabelAt(was, a) !in todo)
  }

  lemma OwnExtent(all: seq<ECRange>, own: seq<ECRange>, e: EcId, r: ECRange)
    requires Labelled(all) && Paired(all, own, e) && own != [] && e != 0
    ensures r.lb <= own[0].lb && own[|own| - 1].ub <= r.ub <==> Inside(all, e, r)
  {
    var first, last := own[0], own[|own| - 1];
    assert first in own && last in own;
    if Inside(all, e, r) {
      LabelOfMember(all, first, first.lb);
      LabelOfMember(all, last, last.ub);
    }
    if r.lb <= first.lb && last.ub <= r.ub {
      forall a: Addr | LabelAt(all, a) == e
        ensures r.Contains(a)
      {
        var x := LabelSource(all, a);
        var i :| 0 <= i < |own| && own[i] == x;
        assert i > 0 ==> first.ub < own[i].lb;
        assert i < |own| - 1 ==> own[i].ub < last.lb;
      }
    }
  }

  lemma SplitStart(was: seq<ECRange>, owned: set<EcId>, r: ECRange, own: bool, todo: set<EcId>, bound: EcId)
    requires Labelled(was) && 0 !in owned && r.lb <= r.ub
    requires todo == OverlapLabels(was, r, false, owned)
    requires forall a: Addr :: LabelAt(was, a) < bound
    ensures SplitState(was, was, r, map[], todo, bound, bound)
    ensures SplitOwned(was, owned, was, owned, r, own, todo)
  {
    forall e | e in todo
      ensures e != 0 && Touches(was, e, r)
    {
      OverlapLabelsMembers(was, r, false, owned, e);
      var x :| x in was && x.Overlaps(r) && x.ec == e;
      var a: Addr := if x.lb < r.lb then r.lb else x.lb;
      var i :| 0 <= i < |was| && was[i] == x;
      LabelOfMember(was, x, a);
    }
    forall a: Addr | r.Contains(a) && LabelAt(was, a) != 0
      ensures LabelAt(was, a) in todo
    {
      var x := LabelSource(was, a);
      OverlapLabelsMembers(was, r, false, owned, x.ec);
    }
  }

  lemma TodoIsLabelled(was: seq<ECRange>, now: seq<ECRange>, r: ECRange, moved: map<EcId, EcId>,
                       todo: set<EcId>, bound: EcId, next: EcId, e: EcId)
    requires SplitState(was, now, r, moved, todo, bound, next) && e in todo
    ensures exists x :: x in now && x.ec == e && x.Overlaps(r)
    ensures e != 0 && e !in moved && (Inside(now, e, r) <==> Inside(was, e, r))
  {
    var a: Addr :| LabelAt(was, a) == e && r.Contains(a);
    assert LabelAt(now, a) == e;
    var x := LabelSource(now, a);
    SameClass(was, now, r, moved, bound, next, e);
  }

  // A class not yet split has the addresses it had.
  lemma SameClass(was: seq<ECRange>, now: seq<ECRange>, r: ECRange, moved: map<EcId, EcId>, bound: EcId,
                  next: EcId, e: EcId)
    requires SplitBy(was, now, r, moved) && FreshParts(was, moved, bound, next) && e !in moved && e < bound
    ensures forall a: Addr :: LabelAt(now, a) == e <==> LabelAt(was, a) == e
  {
  }

  lemma SplitStep(was: seq<ECRange>, now: seq<ECRange>, now': seq<ECRange>, r: ECRange, moved: map<EcId, EcId>,
                  todo: set<EcId>, bound: EcId, f: EcId, e: EcId)
    requires SplitState(was, now, r, moved, todo, bound, f) && e in todo && !Inside(now, e, r)
    requires forall a: Addr :: LabelAt(now', a) == if LabelAt(now, a) == e && r.Contains(a) then f else LabelAt(now, a)
    ensures SplitState(was, now', r, moved[e := f], todo - {e}, bound, f + 1)
  {
    var a: Addr :| LabelAt(was, a) == e && r.Contains(a);
    SameClass(was, now, r, moved, bound, f, e);
  }

  lemma KeepStep(was: seq<ECRange>, now: seq<ECRange>, wasOwned: set<EcId>, nowOwned: set<EcId>,
                 owned: set<EcId>, r: ECRange, own: bool, moved: map<EcId, EcId>, todo: set<EcId>, bound: EcId,
                 next: EcId, e: EcId)
    requires SplitState(was, now, r, moved, todo, bound, next) && e in todo && Inside(now, e, r)
    requires SplitOwned(was, wasOwned, now, nowOwned, r, own, todo)
    requires owned == nowOwned + if own then {e} else {}
    ensures SplitState(was, now, r, moved, todo - {e}, bound, next)
    ensures SplitOwned(was, wasOwned, now, owned, r, own, todo - {e})
  {
    var a: Addr :| LabelAt(was, a) == e && r.Contains(a);
    SameClass(was, now, r, moved, bound, next, e);
  }

  lemma SplitOwnedStep(was: seq<ECRange>, wasOwned: set<EcId>, now: seq<ECRange>, nowOwned: set<EcId>,
                       now': seq<ECRange>, owned: set<EcId>, r: ECRange, own: bool, todo: set<EcId>, e: EcId,
                       f: EcId, moved: map<EcId, EcId>, bound: EcId)
    requires SplitState(was, now, r, moved, todo, bound, f) && e in todo && f !in nowOwned
    requires SplitOwned(was, wasOwned, now, nowOwned, r, own, todo)
    requires forall a: Addr :: LabelAt(now', a) == if LabelAt(now, a) == e && r.Contains(a) then f else LabelAt(now, a)
    requires owned == nowOwned + if own || e in nowOwned then {f} else {}
    ensures SplitOwned(was, wasOwned, now', owned, r, own, todo - {e})
  {
    var a0: Addr :| LabelAt(was, a0) == e && r.Contains(a0);
    SameClass(was, now, r, moved, bound, f, e);
    assert LabelAt(now, a0) == e;
    forall a: Addr
      ensures LabelAt(now', a) in owned <==>
                LabelAt(was, a) in wasOwned ||
                (own && r.Contains(a) && LabelAt(was, a) != 0 && LabelAt(was, a) !in todo - {e})
    {
      assert LabelAt(now, a) < f;
    }
  }

  lemma NewValue(moved: map<EcId, EcId>, e: EcId, f: EcId)
    requires e !in moved
    ensures moved[e := f].Values == moved.Values + {f}
  {
    var m := moved[e := f];
    assert m[e] == f;
    forall v | v in moved.Values + {f}
      ensures v in m.Values
    {
      if v in moved.Values {
        var k :| k in moved && moved[k] == v;
        assert m[k] == v;
      }
    }
  }

  lemma OverlapsAreWithin(was: seq<ECRange>, mid: seq<ECRange>, r: ECRange, moved: map<EcId, EcId>, bound: EcId,
                          next: EcId)
    requires SplitState(was, mid, r, moved, {}, bound, next) && Labelled(mid) && r.lb <= r.ub
    ensures forall x :: x in mid && x.Overlaps(r) ==> x.Within(r)
  {
    forall x | x in mid && x.Overlaps(r)
      ensures x.Within(r)
    {
      var i :| 0 <= i < |mid| && mid[i] == x;
      var a: Addr := if x.lb < r.lb then r.lb else x.lb;
      LabelOfMember(mid, x, a);
      LabelOfMember(mid, x, x.lb);
      LabelOfMember(mid, x, x.ub);
    }
  }

  // The second half of an addition gives the unlabelled addresses of r to class f.
  ghost predicate GapsFilled(was: seq<ECRange>, mid: seq<ECRange>, now: seq<ECRange>, r: ECRange, f: EcId, id: EcId) {
    && (forall a: Addr :: LabelAt(now, a) == if r.Contains(a) && LabelAt(mid, a) == 0 then f else LabelAt(mid, a))
    && (forall a: Addr :: LabelAt(mid, a) == 0 <==> LabelAt(was, a) == 0)
    && (forall a: Addr :: LabelAt(mid, a) < id)
    && (f == 0 || f == id)
    && (f == 0 <==> r.ub != MAX_ADDR && AllLabelled(was, r))
  }

  lemma GapsAreFilled(was: seq<ECRange>, mid: seq<ECRange>, now: seq<ECRange>, r: ECRange,
                      moved: map<EcId, EcId>, bound: EcId, f: EcId, id: EcId)
    requires SplitState(was, mid, r, moved, {}, bound, id)
    requires forall a: Addr :: LabelAt(now, a) == if r.Contains(a) && LabelAt(mid, a) == 0 then f else LabelAt(mid, a)
    requires f == 0 <==> r.ub != MAX_ADDR && AllLabelled(mid, r)
    requires f != 0 ==> f == id
    ensures GapsFilled(was, mid, now, r, f, id)
  {
  }

  lemma AdditionRefines(was: seq<ECRange>, mid: seq<ECRange>, now: seq<ECRange>, r: ECRange,
                        moved: map<EcId, EcId>, bound: EcId, f: EcId, id: EcId)
    requires SplitState(was, mid, r, moved, {}, bound, id) && GapsFilled(was, mid, now, r, f, id)
    ensures Refined(was, now, r) && UncutKept(was, now, r)
  {
    forall a: Addr, b: Addr
      ensures SameEc(now, a, b) <==>
                (LabelAt(was, a) != 0 || r.Contains(a)) && LabelAt(was, a) == LabelAt(was, b) &&
                (r.Contains(a) <==> r.Contains(b))
    {
      RefinesAt(was, mid, now, r, moved, bound, f, id, a, b);
    }
  }

  lemma RefinesAt(was: seq<ECRange>, mid: seq<ECRange>, now: seq<ECRange>, r: ECRange, moved: map<EcId, EcId>,
                  bound: EcId, f: EcId, id: EcId, a: Addr, b: Addr)
    requires SplitState(was, mid, r, moved, {}, bound, id) && GapsFilled(was, mid, now, r, f, id)
    ensures SameEc(now, a, b) <==>
              (LabelAt(was, a) != 0 || r.Contains(a)) && LabelAt(was, a) == LabelAt(was, b) &&
               (r.Contains(a) <==> r.Contains(b))
  {
    var e, g := LabelAt(was, a), LabelAt(was, b);
    assert LabelAt(mid, a) == if r.Contains(a) && e in moved then moved[e] else e;
    assert LabelAt(mid, b) == if r.Contains(b) && g in moved then moved[g] else g;
  }

  lemma AdditionOwns(was: seq<ECRange>, wasOwned: set<EcId>, mid: seq<ECRange>, midOwned: set<EcId>,
                     now: seq<ECRange>, owned: set<EcId>, r: ECRange, own: bool, f: EcId, id: EcId)
    requires SplitOwned(was, wasOwned, mid, midOwned, r, own, {}) && GapsFilled(was, mid, now, r, f, id)
    requires id !in midOwned && 0 !in midOwned && owned == midOwned + if own && f != 0 then {f} else {}
    requires 0 !in wasOwned
    ensures OwnershipGrows(was, wasOwned, now, owned, r, own)
  {
  }

  lemma AdditionPhantoms(was: seq<ECRange>, wasEcs: set<EcId>, mid: seq<ECRange>, now: seq<ECRange>,
                         ecs: set<EcId>, r: ECRange, moved: map<EcId, EcId>, bound: EcId, f: EcId, id: EcId)
    requires SplitState(was, mid, r, moved, {}, bound, id) && GapsFilled(was, mid, now, r, f, id)
    requires ecs == wasEcs + moved.Values + (if f != 0 then {f} else {})
    requires forall e :: e in wasEcs ==> 0 < e < bound
    ensures forall e :: Phantom(now, ecs, e) <==>
              Phantom(was, wasEcs, e) || (e == id && r.ub == MAX_ADDR && AllLabelled(was, r))
  {
    forall e
      ensures Phantom(now, ecs, e) <==>
                Phantom(was, wasEcs, e) || (e == id && r.ub == MAX_ADDR && AllLabelled(was, r))
    {
      PhantomAt(was, wasEcs, mid, now, ecs, r, moved, bound, f, id, e);
    }
  }

  lemma PhantomAt(was: seq<ECRange>, wasEcs: set<EcId>, mid: seq<ECRange>, now: seq<ECRange>, ecs: set<EcId>,
                  r: ECRange, moved: map<EcId, EcId>, bound: EcId, f: EcId, id: EcId, e: EcId)
    requires SplitState(was, mid, r, moved, {}, bound, id) && GapsFilled(was, mid, now, r, f, id)
    requires ecs == wasEcs + moved.Values + (if f != 0 then {f} else {})
    requires forall e :: e in wasEcs ==> 0 < e < bound
    ensures Phantom(now, ecs, e) <==>
              Phantom(was, wasEcs, e) || (e == id && r.ub == MAX_ADDR && AllLabelled(was, r))
  {
    if e in wasEcs {
      if !Phantom(was, wasEcs, e) {
        // Some address of e stays: one outside r when e was split.
        var a: Addr :| LabelAt(was, a) == e && (e in moved ==> !r.Contains(a));
        assert LabelAt(now, a) == e;
      } else {
        assert e !in moved;
      }
    } else if e in moved.Values {
      var k :| k in moved && moved[k] == e;
      var a: Addr :| LabelAt(was, a) == k && r.Contains(a);
      assert LabelAt(mid, a) == e && LabelAt(now, a) == e;
    } else if e == f && f != 0 && !AllLabelled(was, r) {
      var a: Addr :| r.lb <= a <= r.ub && LabelAt(was, a) == 0;
      assert LabelAt(now, a) == f;
    }
  }

  // Adding r keeps the classes coarsest for the ranges added, r included.
  lemma ExactStep(was: seq<ECRange>, wasOwned: set<EcId>, now: seq<ECRange>, owned: set<EcId>,
                  added: seq<Request>, r: ECRange, own: bool)
    requires Coarsest(was, added) && OwnershipExact(was, wasOwned, added)
    requires Refined(was, now, r) && OwnershipGrows(was, wasOwned, now, owned, r, own)
    ensures Coarsest(now, added + [Request(r, own)])
    ensures OwnershipExact(now, owned, added + [Request(r, own)])
  {
    var q := Request(r, own);
    assert q in added + [q];
    forall a: Addr, b: Addr
      ensures SameEc(now, a, b) <==> CoveredBy(added + [q], a) && Alike(added + [q], a, b)
    {
      CoarsestAt(was, now, added, r, own, a, b);
    }
    forall a: Addr
      ensures OwnedBy(added + [q], a) <==> OwnedBy(added, a) || (own && r.Contains(a))
    {
    }
  }

  lemma CoarsestAt(was: seq<ECRange>, now: seq<ECRange>, added: seq<Request>, r: ECRange, own: bool, a: Addr, b: Addr)
    requires Coarsest(was, added) && Refined(was, now, r)
    ensures var more := added + [Request(r, own)];
            SameEc(now, a, b) <==> CoveredBy(more, a) && Alike(more, a, b)
  {
    var q := Request(r, own);
    var more := added + [q];
    assert q in more;
    CoveredIffLabelled(was, added, a);
    CoveredIffLabelled(was, added, b);
    assert Alike(more, a, b) <==> Alike(added, a, b) && (r.Contains(a) <==> r.Contains(b));
    assert CoveredBy(more, a) <==> CoveredBy(added, a) || r.Contains(a);
    assert SameEc(was, a, b) <==> CoveredBy(added, a) && Alike(added, a, b);
    if LabelAt(was, a) == 0 && LabelAt(was, b) == 0 {
      assert Alike(added, a, b);
    }
  }

  // Once only single addresses are owned, no addition splits an owned class.
  lemma OwnedNeverSplit(was: seq<ECRange>, wasOwned: set<EcId>, added: seq<Request>, now: seq<ECRange>,
                        owned: set<EcId>, r: ECRange, own: bool)
    requires Coarsest(was, added) && OwnershipExact(was, wasOwned, added) && OwnedAreSingle(added)
    requires UncutKept(was, now, r) && OwnershipGrows(was, wasOwned, now, owned, r, own)
    ensures OwnedKept(was, wasOwned, now, owned)
  {
    hide LabelAt;
    forall a: Addr | LabelAt(was, a) in wasOwned
      ensures LabelAt(now, a) == LabelAt(was, a) && LabelAt(now, a) in owned
    {
      CoveredIffLabelled(was, added, a);
      forall b: Addr | LabelAt(was, b) == LabelAt(was, a) ensures b == a {
        assert SameEc(was, a, b);
      }
    }
  }

  lemma InitialOwners(s: seq<ECRange>, owned: set<EcId>, nodes: seq<NodeSources>, updates: seq<seq<Net>>,
                      mbs: seq<MbSources>)
    requires SourcesValid(nodes, updates, mbs)
    requires OwnershipExact(s, owned, InitialRequests(nodes, updates, mbs))
    ensures OwnedAreSingle(InitialRequests(nodes, updates, mbs)) && OwnersAreInterfaces(s, owned, nodes)
  {
    InitialOwned(nodes, updates, mbs);
  }

  lemma InitialClasses(s: seq<ECRange>, nodes: seq<NodeSources>, updates: seq<seq<Net>>, mbs: seq<MbSources>)
    requires SourcesValid(nodes, updates, mbs) && Coarsest(s, InitialRequests(nodes, updates, mbs))
    ensures ClassesAreListed(s, nodes, updates, mbs)
  {
    hide InitialRequests, LabelAt, Mentioned, Indistinct;
    var all := InitialRequests(nodes, updates, mbs);
    forall a: Addr, b: Addr
      ensures SameEc(s, a, b) <==> Mentioned(nodes, updates, mbs, a) && Indistinct(nodes, updates, mbs, a, b)
    {
      InitialMeaning(nodes, updates, mbs, a, b);
    }
    forall a: Addr ensures LabelAt(s, a) != 0 <==> Mentioned(nodes, updates, mbs, a) {
      InitialMeaning(nodes, updates, mbs, a, a);
      CoveredIffLabelled(s, all, a);
    }
  }

  lemma RequestsInOrder(before: seq<Request>, nodes: seq<NodeSources>, updates: seq<seq<Net>>, mbs: seq<MbSources>)
    requires SourcesValid(nodes, updates, mbs)
    ensures before + NodeRequests(nodes, |nodes|) + UpdateRequests(updates, |updates|) + MbRequests(mbs, |mbs|) ==
            before + InitialRequests(nodes, updates, mbs)
  {
  }

  lemma CoveredIffLabelled(s: seq<ECRange>, added: seq<Request>, a: Addr)
    requires Coarsest(s, added)
    ensures LabelAt(s, a) != 0 <==> CoveredBy(added, a)
  {
    assert SameEc(s, a, a) <==> CoveredBy(added, a) && Alike(added, a, a);
  }

  // Only ranges of classes e and f differ between the two tables.
  ghost predicate Moved(was: seq<ECRange>, now: seq<ECRange>, e: EcId, f: EcId) {
    Labelled(now) && forall y: ECRange :: y.ec != e && y.ec != f ==> (y in now <==> y in was)
  }

  // Exactly the addresses of r covered by part were relabelled f.
  ghost predicate MovedTo(was: seq<ECRange>, now: seq<ECRange>, part: seq<ECRange>, r: ECRange, f: EcId) {
    forall a: Addr :: LabelAt(now, a) == if r.Contains(a) && Covers(part, a) then f else LabelAt(was, a)
  }

  lemma MovedOneMore(was: seq<ECRange>, before: seq<ECRange>, now: seq<ECRange>, orig: seq<ECRange>, k: nat,
                     r: ECRange, f: EcId)
    requires k < |orig| && MovedTo(was, before, orig[..k], r, f)
    requires forall a: Addr :: LabelAt(now, a) == if orig[k].Contains(a) && r.Contains(a) then f else LabelAt(before, a)
    ensures MovedTo(was, now, orig[..k + 1], r, f)
  {
    CoversNext(orig, k);
  }

  lemma AllMoved(was: seq<ECRange>, now: seq<ECRange>, orig: seq<ECRange>, e: EcId, f: EcId, r: ECRange)
    requires Labelled(was) && Paired(was, orig, e) && e != 0 && MovedTo(was, now, orig, r, f)
    ensures forall a: Addr :: LabelAt(now, a) == if LabelAt(was, a) == e && r.Contains(a) then f else LabelAt(was, a)
  {
    forall a: Addr
      ensures Covers(orig, a) <==> LabelAt(was, a) == e
    {
      CoversIsLabel(was, orig, e, a);
    }
  }

  // The last gap, up to the end of r.
  lemma FillTail(was: seq<ECRange>, s: seq<ECRange>, own: seq<ECRange>, r: ECRange, next: Addr, f: EcId)
    requires Moved(was, s, f, f) && Paired(s, own, f) && Filled(was, s, r, next, f) && f != 0
    requires r.lb <= next <= r.ub && forall a: Addr :: next <= a <= r.ub ==> LabelAt(s, a) == 0
    ensures var last := ECRange(next, r.ub, f);
            && Moved(was, Insert(s, last), f, f) && Filled(was, Insert(s, last), r, r.ub + 1, f)
            && Paired(Insert(s, last), Insert(own, last), f) && Insert(own, last) != []
    ensures r.Contains(next) && LabelAt(was, next) == 0
  {
    var last := ECRange(next, r.ub, f);
    InsertLabels(s, last);
    PairedInsert(s, own, f, last);
  }

  // Behind the last address lb is 0 again: the table refuses the range [0, r.ub], but a class
  // that is still empty takes it.
  lemma FillWrapped(s: seq<ECRange>, own: seq<ECRange>, r: ECRange, f: EcId)
    requires Labelled(s) && Paired(s, own, f) && r.lb <= r.ub == MAX_ADDR && LabelAt(s, r.lb) != 0
    ensures var last := ECRange(0, r.ub, f);
            && Insert(s, last) == s && Insert(own, last) == if own == [] then [last] else own
  {
    var last := ECRange(0, r.ub, f);
    var x := LabelSource(s, r.lb);
    InsertRefused(s, last, x);
    if own != [] {
      InsertRefused(own, last, own[0]);
    }
  }

  // The new class is empty exactly when every address of r had a label.
  lemma OwnEmpty(was: seq<ECRange>, now: seq<ECRange>, own: seq<ECRange>, r: ECRange, f: EcId)
    requires Labelled(now) && Paired(now, own, f) && f != 0 && Filled(was, now, r, r.ub + 1, f)
    requires forall a: Addr :: LabelAt(was, a) != f
    ensures own == [] <==> AllLabelled(was, r)
  {
    if own == [] {
      forall a: Addr | r.Contains(a)
        ensures LabelAt(was, a) != 0
      {
        if LabelAt(was, a) == 0 { var x := LabelSource(now, a); }
      }
    } else {
      var x := own[0];
      assert x in own;
      LabelOfMember(now, x, x.lb);
    }
  }

  lemma {:induction false} InsertRefused(s: seq<ECRange>, r: ECRange, x: ECRange)
    requires RangeSet(s) && x in s && x.Overlaps(r) && r.lb <= r.ub
    ensures Insert(s, r) == s
  {
    if s[0].ub < r.lb {
      assert s == [s[0]] + s[1..];
      InsertRefused(s[1..], r, x);
    } else {
      var i :| 0 <= i < |s| && s[i] == x;
      if i > 0 { assert s[0].ub < s[i].lb; }
    }
  }

  ghost predicate Covers(s: seq<ECRange>, a: Addr) {
    exists x :: x in s && x.Contains(a)
  }

  lemma CoversNext(s: seq<ECRange>, k: nat)
    requires k < |s|
    ensures forall a: Addr :: Covers(s[..k + 1], a) <==> Covers(s[..k], a) || s[k].Contains(a)
  {
    assert s[..k + 1] == s[..k] + [s[k]];
    forall a: Addr
      ensures Covers(s[..k + 1], a) <==> Covers(s[..k], a) || s[k].Contains(a)
    {
      assert s[k] in s[..k + 1];
    }
  }

  lemma CoversIsLabel(all: seq<ECRange>, own: seq<ECRange>, e: EcId, a: Addr)
    requires Labelled(all) && Paired(all, own, e) && e != 0
    ensures Covers(own, a) <==> LabelAt(all, a) == e
  {
    if Covers(own, a) {
      var x :| x in own && x.Contains(a);
      LabelOfMember(all, x, a);
    }
    if LabelAt(all, a) == e {
      var x := LabelSource(all, a);
    }
  }

  lemma NoLabelYet(all: seq<ECRange>, f: EcId, ecs: set<EcId>)
    requires Labelled(all) && f !in ecs && forall x :: x in all ==> x.ec in ecs
    ensures Paired(all, [], f)
    ensures f != 0 ==> forall a: Addr :: LabelAt(all, a) != f
  {
    forall a: Addr | LabelAt(all, a) == f && f != 0
      ensures false
    {
      var x := LabelSource(all, a);
    }
  }

  lemma {:induction false} OverlapLabelsMembers(s: seq<ECRange>, r: ECRange, ownedOnly: bool, owned: set<EcId>,
                              e: EcId)
    ensures e in OverlapLabels(s, r, ownedOnly, owned) <==>
              exists x :: x in s && x.Overlaps(r) && (ownedOnly ==> x.ec in owned) && x.ec == e
  {
    if s != [] {
      OverlapLabelsMembers(s[1..], r, ownedOnly, owned, e);
      assert s == [s[0]] + s[1..];
    }
  }

  lemma {:induction false} OverlapLabelsConcat(s: seq<ECRange>, t: seq<ECRange>, r: ECRange, ownedOnly: bool,
                              owned: set<EcId>)
    ensures OverlapLabels(s + t, r, ownedOnly, owned) ==
            OverlapLabels(s, r, ownedOnly, owned) + OverlapLabels(t, r, ownedOnly, owned)
  {
    if s == [] {
      assert s + t == t;
    } else {
      OverlapLabelsConcat(s[1..], t, r, ownedOnly, owned);
      assert (s + t)[1..] == s[1..] + t;
    }
  }

  lemma {:induction false} NoOverlapNoLabels(s: seq<ECRange>, r: ECRange, ownedOnly: bool, owned: set<EcId>)
    requires Clear(s, r)
    ensures OverlapLabels(s, r, ownedOnly, owned) == {}
  {
    if s != [] {
      assert s[0] in s;
      NoOverlapNoLabels(s[1..], r, ownedOnly, owned);
    }
  }

  lemma GrowDown(s: seq<ECRange>, i: nat, j: nat, r: ECRange, ownedOnly: bool, owned: set<EcId>)
    requires i < j <= |s| && s[i].Overlaps(r)
    ensures OverlapLabels(s[i..j], r, ownedOnly, owned) ==
            OverlapLabels(s[i + 1..j], r, ownedOnly, owned) +
            if !ownedOnly || s[i].ec in owned then {s[i].ec} else {}
  {
    assert s[i..j][1..] == s[i + 1..j];
  }

  lemma GrowUp(s: seq<ECRange>, i: nat, j: nat, r: ECRange, ownedOnly: bool, owned: set<EcId>)
    requires i <= j < |s| && s[j].Overlaps(r)
    ensures OverlapLabels(s[i..j + 1], r, ownedOnly, owned) ==
            OverlapLabels(s[i..j], r, ownedOnly, owned) +
            if !ownedOnly || s[j].ec in owned then {s[j].ec} else {}
  {
    assert s[i..j + 1] == s[i..j] + [s[j]];
    OverlapLabelsConcat(s[i..j], [s[j]], r, ownedOnly, owned);
    assert [s[j]][1..] == [];
  }

  // Every range overlapping r lies in a maximal adjacent block of overlapping ranges.
  lemma OverlapsAreAdjacent(s: seq<ECRange>, r: ECRange, low: nat, high: nat, ownedOnly: bool, owned: set<EcId>)
    requires RangeSet(s) && low < high <= |s|
    requires forall j :: low <= j < high ==> s[j].Overlaps(r)
    requires low > 0 ==> !s[low - 1].Overlaps(r)
    requires high < |s| ==> !s[high].Overlaps(r)
    ensures OverlapLabels(s[low..high], r, ownedOnly, owned) == OverlapLabels(s, r, ownedOnly, owned)
  {
    OutsideIsClear(s, r, low, high);
    ThreeParts(s, low, high);
    MiddleLabels(s[..low], s[low..high], s[high..], r, ownedOnly, owned);
  }

  lemma MiddleLabels(a: seq<ECRange>, b: seq<ECRange>, c: seq<ECRange>, r: ECRange, ownedOnly: bool, owned: set<EcId>)
    requires Clear(a, r) && Clear(c, r)
    ensures OverlapLabels(a + (b + c), r, ownedOnly, owned) == OverlapLabels(b, r, ownedOnly, owned)
  {
    NoOverlapNoLabels(a, r, ownedOnly, owned);
    NoOverlapNoLabels(c, r, ownedOnly, owned);
    OverlapLabelsConcat(a, b + c, r, ownedOnly, owned);
    OverlapLabelsConcat(b, c, r, ownedOnly, owned);
  }

  lemma OutsideIsClear(s: seq<ECRange>, r: ECRange, low: nat, high: nat)
    requires RangeSet(s) && low < high <= |s|
    requires s[low].Overlaps(r) && s[high - 1].Overlaps(r)
    requires low > 0 ==> !s[low - 1].Overlaps(r)
    requires high < |s| ==> !s[high].Overlaps(r)
    ensures Clear(s[..low], r) && Clear(s[high..], r)
  {
    forall j | 0 <= j < |s| && s[j].Overlaps(r)
      ensures low <= j < high
    {
      BlockIsConvex(s, r, low, high, j);
    }
  }

  lemma ThreeParts(s: seq<ECRange>, i: nat, j: nat)
    requires i <= j <= |s|
    ensures s == s[..i] + (s[i..j] + s[j..])
  {
  }

  lemma BlockIsConvex(s: seq<ECRange>, r: ECRange, low: nat, high: nat, j: nat)
    requires RangeSet(s) && low < high <= |s| && j < |s|
    requires s[low].Overlaps(r) && s[high - 1].Overlaps(r) && s[j].Overlaps(r)
    requires low > 0 ==> !s[low - 1].Overlaps(r)
    requires high < |s| ==> !s[high].Overlaps(r)
    ensures low <= j < high
  {
    if low > 0 { assert s[low - 1].ub < r.lb; }
    if high < |s| { assert r.ub < s[high].lb; }
  }
}
