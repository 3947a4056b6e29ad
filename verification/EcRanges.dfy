/** Address ranges labelled with their equivalence class, and ordered sets of them
    (src/ecrange.cpp, src/eqclass.cpp). */
module EcRanges {
  import opened Addressing

  // The identity of an EqClass object; 0 stands for the null pointer.
  type EcId = nat

  datatype ECRange = ECRange(lb: Addr, ub: Addr, ec: EcId) {
    predicate Contains(a: Addr) {
      lb <= a <= ub
    }

    // operator== of the ordered set: the two ranges overlap.
    predicate Overlaps(r: ECRange) {
      lb <= r.ub && r.lb <= ub
    }

    predicate Within(r: ECRange) {
      r.lb <= lb && ub <= r.ub
    }
  }

  // A std::set<ECRange>: non-empty disjoint ranges in increasing order.
  predicate RangeSet(s: seq<ECRange>) {
    && (forall i :: 0 <= i < |s| ==> s[i].lb <= s[i].ub)
    && (forall i, j :: 0 <= i < j < |s| ==> s[i].ub < s[j].lb)
  }

  predicate Clear(s: seq<ECRange>, r: ECRange) {
    forall x :: x in s ==> !x.Overlaps(r)
  }

  // std::set::insert: the place is found by order, and an overlapping element there refuses r.
  function Insert(s: seq<ECRange>, r: ECRange): seq<ECRange> {
    if s == [] then [r]
    else if s[0].ub < r.lb then [s[0]] + Insert(s[1..], r)
    else if s[0].Overlaps(r) then s
    else [r] + s
  }

  // std::set::erase(key): every overlapping element goes.
  function Erase(s: seq<ECRange>, r: ECRange): seq<ECRange> {
    if s == [] then [] else
      (if s[0].Overlaps(r) then [] else [s[0]]) + Erase(s[1..], r)
  }

  lemma {:induction false} InsertKeepsOrder(s: seq<ECRange>, r: ECRange)
    requires RangeSet(s) && r.lb <= r.ub
    ensures RangeSet(Insert(s, r))
    ensures forall x :: x in Insert(s, r) <==> x in s || (x == r && Clear(s, r))
  {
    if s != [] {
      assert s == [s[0]] + s[1..];
      if s[0].ub < r.lb {
        InsertKeepsOrder(s[1..], r);
        ConsOrder(s[0], Insert(s[1..], r));
      } else if s[0].Overlaps(r) {
      } else {
        ConsOrder(r, s);
      }
    }
  }

  lemma ConsOrder(x: ECRange, s: seq<ECRange>)
    requires RangeSet(s) && x.lb <= x.ub && forall y :: y in s ==> x.ub < y.lb
    ensures RangeSet([x] + s)
  {
  }

  // Where the insertion of a range between two neighbours puts it.
  lemma {:induction false} InsertBetween(s: seq<ECRange>, i: nat, r: ECRange)
    requires i <= |s|
    requires forall k :: 0 <= k < i ==> s[k].ub < r.lb
    requires i < |s| ==> r.ub < s[i].lb && s[i].lb <= s[i].ub && r.lb <= r.ub
    ensures Insert(s, r) == s[..i] + [r] + s[i..]
  {
    if i > 0 { InsertBetween(s[1..], i - 1, r); }
  }

  lemma {:induction false} EraseKeepsOrder(s: seq<ECRange>, r: ECRange)
    requires RangeSet(s)
    ensures RangeSet(Erase(s, r))
    ensures forall x :: x in Erase(s, r) <==> x in s && !x.Overlaps(r)
  {
    if s != [] {
      EraseKeepsOrder(s[1..], r);
      assert s == [s[0]] + s[1..];
      ConsOrder(s[0], Erase(s[1..], r));
    }
  }

  lemma {:induction false} EraseMembers(s: seq<ECRange>, r: ECRange)
    ensures forall x :: x in Erase(s, r) <==> x in s && !x.Overlaps(r)
  {
    if s != [] {
      EraseMembers(s[1..], r);
      assert s == [s[0]] + s[1..];
    }
  }

  lemma {:induction false} EraseSnoc(s: seq<ECRange>, x: ECRange, r: ECRange)
    ensures Erase(s + [x], r) == Erase(s, r) + if x.Overlaps(r) then [] else [x]
  {
    if s == [] {
      assert [] + [x] == [x];
    } else {
      assert (s + [x])[1..] == s[1..] + [x];
      EraseSnoc(s[1..], x, r);
    }
  }

  lemma {:induction false} EraseTwice(s: seq<ECRange>, r: ECRange)
    ensures Erase(Erase(s, r), r) == Erase(s, r)
  {
    if s != [] {
      EraseTwice(s[1..], r);
      var rest := Erase(s[1..], r);
      if s[0].Overlaps(r) { assert [] + rest == rest; } else { assert ([s[0]] + rest)[1..] == rest; }
    }
  }

  // The address that stands for a class: the lower end of its first range.
  function Representative(ranges: seq<ECRange>): Addr
    requires ranges != []
  {
    ranges[0].lb
  }

  // It is the smallest address of the class.
  lemma RepresentativeIsLeast(ranges: seq<ECRange>, a: Addr)
    requires RangeSet(ranges) && exists x :: x in ranges && x.Contains(a)
    ensures ranges != [] && Representative(ranges) <= a && ranges[0].Contains(Representative(ranges))
  {
    var x :| x in ranges && x.Contains(a);
    var i :| 0 <= i < |ranges| && ranges[i] == x;
    if i > 0 { assert ranges[0].ub < ranges[i].lb; }
  }

  // Erasing a range that is present removes exactly that range.
  lemma ErasePresent(s: seq<ECRange>, r: ECRange)
    requires RangeSet(s) && r in s
    ensures RangeSet(Erase(s, r))
    ensures forall x :: x in Erase(s, r) <==> x in s && x != r
  {
    EraseKeepsOrder(s, r);
    forall x | x in s && x.Overlaps(r)
      ensures x == r
    {
      OnlyOverlap(s, x, r);
    }
    var i :| 0 <= i < |s| && s[i] == r;
    assert r.Overlaps(r);
  }

  lemma OnlyOverlap(s: seq<ECRange>, x: ECRange, y: ECRange)
    requires RangeSet(s) && x in s && y in s && x.Overlaps(y)
    ensures x == y
  {
    var i :| 0 <= i < |s| && s[i] == x;
    var j :| 0 <= j < |s| && s[j] == y;
  }

  // The class an address is labelled with; 0 when no range covers it.
  function LabelAt(s: seq<ECRange>, a: Addr): EcId {
    if s == [] then 0 else if s[0].Contains(a) then s[0].ec else LabelAt(s[1..], a)
  }

  predicate Labelled(s: seq<ECRange>) {
    RangeSet(s) && forall x :: x in s ==> x.ec != 0
  }

  lemma {:induction false} LabelOfMember(s: seq<ECRange>, x: ECRange, a: Addr)
    requires RangeSet(s) && x in s && x.Contains(a)
    ensures LabelAt(s, a) == x.ec
  {
    if s[0] != x {
      assert s == [s[0]] + s[1..];
      assert x in s[1..];
      var j :| 0 <= j < |s[1..]| && s[1..][j] == x;
      LabelOfMember(s[1..], x, a);
    }
  }

  lemma {:induction false} LabelSource(s: seq<ECRange>, a: Addr) returns (x: ECRange)
    requires LabelAt(s, a) != 0
    ensures x in s && x.Contains(a) && x.ec == LabelAt(s, a)
  {
    if s[0].Contains(a) {
      x := s[0];
    } else {
      x := LabelSource(s[1..], a);
    }
  }

  // Two sets with the same members at a label it alike.
  lemma SameLabel(s: seq<ECRange>, t: seq<ECRange>, a: Addr)
    requires Labelled(s) && Labelled(t)
    requires forall x: ECRange :: x.Contains(a) ==> (x in s <==> x in t)
    ensures LabelAt(s, a) == LabelAt(t, a)
  {
    if LabelAt(s, a) != 0 {
      var x := LabelSource(s, a);
      LabelOfMember(t, x, a);
    } else if LabelAt(t, a) != 0 {
      var x := LabelSource(t, a);
      LabelOfMember(s, x, a);
    }
  }

  // Inserting a range whose addresses are all unlabelled succeeds and labels exactly them.
  lemma InsertLabels(s: seq<ECRange>, r: ECRange)
    requires Labelled(s) && r.lb <= r.ub && r.ec != 0
    requires forall a: Addr :: r.Contains(a) ==> LabelAt(s, a) == 0
    ensures Labelled(Insert(s, r)) && Clear(s, r)
    ensures forall x :: x in Insert(s, r) <==> x in s || x == r
    ensures forall a: Addr :: LabelAt(Insert(s, r), a) == if r.Contains(a) then r.ec else LabelAt(s, a)
  {
    forall x | x in s
      ensures !x.Overlaps(r)
    {
      if x.Overlaps(r) {
        var a: Addr := if x.lb < r.lb then r.lb else x.lb;
        assert x.lb <= x.ub by { var i :| 0 <= i < |s| && s[i] == x; }
        LabelOfMember(s, x, a);
      }
    }
    InsertKeepsOrder(s, r);
    forall a: Addr
      ensures LabelAt(Insert(s, r), a) == if r.Contains(a) then r.ec else LabelAt(s, a)
    {
      if r.Contains(a) {
        LabelOfMember(Insert(s, r), r, a);
      } else {
        SameLabel(s, Insert(s, r), a);
      }
    }
  }

  // Erasing a present range unlabels exactly its addresses.
  lemma EraseLabels(s: seq<ECRange>, r: ECRange)
    requires Labelled(s) && r in s
    ensures Labelled(Erase(s, r))
    ensures forall x :: x in Erase(s, r) <==> x in s && x != r
    ensures forall a: Addr :: LabelAt(Erase(s, r), a) == if r.Contains(a) then 0 else LabelAt(s, a)
  {
    ErasePresent(s, r);
    forall a: Addr
      ensures LabelAt(Erase(s, r), a) == if r.Contains(a) then 0 else LabelAt(s, a)
    {
      if r.Contains(a) {
        if LabelAt(Erase(s, r), a) != 0 {
          var x := LabelSource(Erase(s, r), a);
          assert x.Overlaps(r);
          OnlyOverlap(s, x, r);
        }
      } else {
        SameLabel(s, Erase(s, r), a);
      }
    }
  }

  // own holds exactly the ranges of all that are labelled e.
  ghost predicate Paired(all: seq<ECRange>, own: seq<ECRange>, e: EcId) {
    RangeSet(own) && forall x :: x in own <==> x in all && x.ec == e
  }

  lemma PairedInsert(all: seq<ECRange>, own: seq<ECRange>, e: EcId, r: ECRange)
    requires Labelled(all) && Paired(all, own, e) && r.lb <= r.ub && r.ec == e && Clear(all, r)
    ensures Paired(Insert(all, r), Insert(own, r), e)
  {
    InsertKeepsOrder(all, r);
    assert Clear(own, r);
    InsertKeepsOrder(own, r);
  }

  lemma PairedErase(all: seq<ECRange>, own: seq<ECRange>, e: EcId, r: ECRange)
    requires Labelled(all) && Paired(all, own, e) && r in own
    ensures Paired(Erase(all, r), Erase(own, r), e)
  {
    ErasePresent(all, r);
    ErasePresent(own, r);
  }

  // Changes to ranges of other classes leave a pairing alone.
  lemma PairedElsewhere(all: seq<ECRange>, all': seq<ECRange>, own: seq<ECRange>, e: EcId)
    requires Paired(all, own, e)
    requires forall x :: x in all' && x.ec == e <==> x in all && x.ec == e
    ensures Paired(all', own, e)
  {
  }

  class EqClass {
    var ranges: seq<ECRange>

    constructor ()
      ensures ranges == []
    {
      ranges := [];
    }

    // The range joins the class exactly when it overlaps none of the class's ranges.
    method AddRange(r: ECRange)
      modifies this
      ensures old(RangeSet(ranges)) && r.lb <= r.ub ==>
                RangeSet(ranges) &&
                forall x :: x in ranges <==> x in old(ranges) || (x == r && Clear(old(ranges), r))
      ensures ranges == Insert(old(ranges), r)
    {
      if RangeSet(ranges) && r.lb <= r.ub { InsertKeepsOrder(ranges, r); }
      ranges := Insert(ranges, r);
    }

    // std::set::erase(key) and the number of ranges it erased.
    method EraseKey(r: ECRange) returns (erased: nat)
      modifies this
      ensures ranges == Erase(old(ranges), r) && erased == |old(ranges)| - |ranges|
    {
      var kept: seq<ECRange> := [];
      erased := 0;
      for i := 0 to |ranges|
        invariant ranges == old(ranges) && kept == Erase(ranges[..i], r) && erased == i - |kept|
      {
        assert ranges[..i + 1] == ranges[..i] + [ranges[i]];
        EraseSnoc(ranges[..i], ranges[i], r);
        if ranges[i].Overlaps(r) { erased := erased + 1; } else { kept := kept + [ranges[i]]; }
      }
      assert ranges[..|ranges|] == ranges;
      ranges := kept;
    }

    // Erases until nothing is erased any more: exactly the ranges that do not overlap stay.
    method RmRange(r: ECRange)
      modifies this
      ensures forall x :: x in ranges <==> x in old(ranges) && !x.Overlaps(r)
      ensures old(RangeSet(ranges)) ==> RangeSet(ranges)
      ensures ranges == Erase(old(ranges), r)
    {
      if RangeSet(ranges) { EraseKeepsOrder(ranges, r); }
      EraseMembers(ranges, r);
      EraseTwice(ranges, r);
      var erased := EraseKey(r);
      while erased > 0
        invariant ranges == Erase(old(ranges), r)
        decreases erased
      {
        erased := EraseKey(r);
      }
    }

    method ContainsAddr(a: Addr) returns (found: bool)
      ensures found <==> exists x :: x in ranges && x.Contains(a)
    {
      for i := 0 to |ranges|
        invariant forall x :: x in ranges[..i] ==> !x.Contains(a)
      {
        if ranges[i].Contains(a) { return true; }
      }
      assert ranges[..|ranges|] == ranges;
      return false;
    }
  }
}
