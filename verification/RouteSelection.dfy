/** What a routing table holds after any sequence of insertions (src/routingtable.cpp:14-30). */
module RouteSelection {
  import opened Addressing
  import opened Routing

  // The table reached from the empty one by inserting rs in order.
  function Built(rs: seq<Route>): (tbl: seq<Route>)
    ensures Sorted(tbl)
  {
    if rs == [] then [] else
      InsertKeepsSorted(Built(rs[..|rs| - 1]), rs[|rs| - 1]);
      Inserted(Built(rs[..|rs| - 1]), rs[|rs| - 1])
  }

  datatype Distance = Unreachable | At(d: int)

  // The smallest administrative distance offered for network n.
  function MinDist(rs: seq<Route>, n: Net): Distance {
    if rs == [] then Unreachable else
      var best, r := MinDist(rs[..|rs| - 1], n), rs[|rs| - 1];
      if r.network == n && (best.Unreachable? || r.admDist < best.d) then At(r.admDist) else best
  }

  predicate Best(rs: seq<Route>, r: Route) {
    r in rs && MinDist(rs, r.network) == At(r.admDist)
  }

  lemma {:induction false} MinDistBounds(rs: seq<Route>, o: Route)
    requires o in rs
    ensures MinDist(rs, o.network).At? && MinDist(rs, o.network).d <= o.admDist
  {
    var pre, last := rs[..|rs| - 1], rs[|rs| - 1];
    assert rs == pre + [last];
    if o in pre { MinDistBounds(pre, o); }
  }

  lemma {:induction false} MinDistAttained(rs: seq<Route>, n: Net) returns (b: Route)
    requires MinDist(rs, n).At?
    ensures Best(rs, b) && b.network == n
  {
    var pre, last := rs[..|rs| - 1], rs[|rs| - 1];
    if MinDist(rs, n) == MinDist(pre, n) {
      b := MinDistAttained(pre, n);
    } else {
      b := last;
    }
  }

  // What Best means: r was offered and no route to its network has a smaller distance.
  lemma BestIsLeast(rs: seq<Route>, r: Route)
    ensures Best(rs, r) <==> r in rs && forall o :: o in rs && o.network == r.network ==> r.admDist <= o.admDist
  {
    if Best(rs, r) {
      forall o | o in rs && o.network == r.network
        ensures r.admDist <= o.admDist
      {
        MinDistBounds(rs, o);
      }
    } else if r in rs {
      MinDistBounds(rs, r);
      var b := MinDistAttained(rs, r.network);
    }
  }

  // Every route in the table to r's network has administrative distance d.
  predicate GroupAt(tbl: seq<Route>, r: Route, d: int) {
    forall g :: g in tbl && g.network == r.network ==> g.admDist == d
  }

  // r is turned away: a strictly better route, or one of equal distance with the same path, is present.
  predicate Rejected(tbl: seq<Route>, r: Route) {
    exists g :: g in tbl && g.network == r.network &&
                (g.admDist < r.admDist || (g.admDist == r.admDist && g.HasSamePath(r)))
  }

  lemma GroupMember(tbl: seq<Route>, r: Route, e: Route)
    requires Sorted(tbl)
    ensures var lo, hi := LowerBound(tbl, r), UpperBound(tbl, r);
            && lo <= hi
            && (e in tbl[lo..hi] <==> e in tbl && e.network == r.network)
            && (e in tbl[..lo] || e in tbl[hi..] <==> e in tbl && e.network != r.network)
  {
    hide LowerBound, UpperBound, Sorted;
    var lo, hi := LowerBound(tbl, r), UpperBound(tbl, r);
    EqualRange(tbl, r);
    if e in tbl {
      var i :| 0 <= i < |tbl| && tbl[i] == e;
      if i < lo {
        assert tbl[..lo][i] == e;
      } else if i < hi {
        assert tbl[lo..hi][i - lo] == e;
      } else {
        assert tbl[hi..][i - hi] == e;
      }
    }
  }

  // Whether e is in the table after r is inserted.
  lemma InsertedRoute(tbl: seq<Route>, r: Route, d: int, e: Route)
    requires Sorted(tbl) && GroupAt(tbl, r, d)
    ensures e in Inserted(tbl, r) <==>
              (e == r && !Rejected(tbl, r)) ||
              (e in tbl && (e.network != r.network || e.admDist <= r.admDist))
  {
    hide LowerBound, UpperBound, Sorted;
    var lo, hi := LowerBound(tbl, r), UpperBound(tbl, r);
    GroupMember(tbl, r, e);
    RejectedByGroup(tbl, r, d);
    if lo < hi {
      GroupMember(tbl, r, tbl[lo]);
      assert tbl[lo] in tbl[lo..hi];
      Splice(tbl, lo, hi, r, e);
    }
    Splice(tbl, hi, hi, r, e);
  }

  lemma Splice(tbl: seq<Route>, lo: nat, hi: nat, r: Route, e: Route)
    requires lo <= hi <= |tbl|
    ensures e in tbl[..lo] + [r] + tbl[hi..] <==> e in tbl[..lo] || e == r || e in tbl[hi..]
    ensures e in tbl <==> e in tbl[..lo] || e in tbl[lo..hi] || e in tbl[hi..]
    ensures e in tbl <==> e in tbl[..hi] || e in tbl[hi..]
    ensures e in tbl[..hi] <==> e in tbl[..lo] || e in tbl[lo..hi]
  {
    assert tbl[..hi] == tbl[..lo] + tbl[lo..hi];
    assert tbl == tbl[..hi] + tbl[hi..];
  }

  lemma RejectedByGroup(tbl: seq<Route>, r: Route, d: int)
    requires Sorted(tbl) && GroupAt(tbl, r, d)
    ensures var lo, hi := LowerBound(tbl, r), UpperBound(tbl, r);
            lo <= hi &&
            (Rejected(tbl, r) <==> lo < hi && (d < r.admDist || (d == r.admDist && Duplicates(tbl[lo..hi], r))))
  {
    var lo, hi := LowerBound(tbl, r), UpperBound(tbl, r);
    forall g
      ensures g in tbl[lo..hi] <==> g in tbl && g.network == r.network
    {
      GroupMember(tbl, r, g);
    }
    EqualRange(tbl, r);
    if lo < hi { assert tbl[lo] in tbl; }
  }

  // All routes to one network sit at one distance.
  lemma {:induction false} GroupDistance(rs: seq<Route>, r: Route) returns (d: int)
    ensures GroupAt(Built(rs), r, d)
    decreases |rs|, 2
  {
    d := 0;
    if o :| o in Built(rs) && o.network == r.network {
      d := o.admDist;
      EntryIsBest(rs, o);
      forall g | g in Built(rs) && g.network == r.network
        ensures g.admDist == d
      {
        EntryIsBest(rs, g);
      }
    }
  }

  // Every route kept in the table is a best one.
  lemma {:induction false} EntryIsBest(rs: seq<Route>, e: Route)
    requires e in Built(rs)
    ensures Best(rs, e)
    decreases |rs|, 1
  {
    hide Inserted, Sorted;
    var pre, r := rs[..|rs| - 1], rs[|rs| - 1];
    assert rs == pre + [r];
    var d := GroupDistance(pre, r);
    InsertedRoute(Built(pre), r, d, e);
    if e in Built(pre) {
      EntryIsBest(pre, e);
    } else if MinDist(pre, r.network).At? {
      var b := MinDistAttained(pre, r.network);
      var g := BestHasEntry(pre, b);
      EntryIsBest(pre, g);
    }
  }

  // Every best route is represented by a kept route whose path it repeats.
  lemma {:induction false} BestHasEntry(rs: seq<Route>, b: Route) returns (e: Route)
    requires Best(rs, b)
    ensures e in Built(rs) && e.HasSamePath(b)
    decreases |rs|, 1
  {
    var pre, r := rs[..|rs| - 1], rs[|rs| - 1];
    assert rs == pre + [r];
    var d := GroupDistance(pre, r);
    if b in pre { MinDistBounds(pre, b); }
    if Best(pre, b) && b != r {
      e := BestHasEntry(pre, b);
      EntryIsBest(pre, e);
      InsertedRoute(Built(pre), r, d, e);
    } else if Rejected(Built(pre), r) {
      e :| e in Built(pre) && e.network == r.network &&
           (e.admDist < r.admDist || (e.admDist == r.admDist && e.HasSamePath(r)));
      EntryIsBest(pre, e);
      InsertedRoute(Built(pre), r, d, e);
    } else {
      e := r;
      InsertedRoute(Built(pre), r, d, r);
    }
  }

  // No route repeats the path of an earlier one to the same network.
  predicate NoRepeats(tbl: seq<Route>) {
    forall i, j :: 0 <= i < j < |tbl| ==> !tbl[i].HasSamePath(tbl[j])
  }

  lemma {:induction false} BuiltWithoutRepeats(rs: seq<Route>)
    ensures NoRepeats(Built(rs))
  {
    if rs != [] {
      BuiltWithoutRepeats(rs[..|rs| - 1]);
      InsertKeepsDistinct(Built(rs[..|rs| - 1]), rs[|rs| - 1]);
    }
  }

  lemma InsertKeepsDistinct(tbl: seq<Route>, r: Route)
    requires Sorted(tbl) && NoRepeats(tbl)
    ensures NoRepeats(Inserted(tbl, r))
  {
    var lo, hi := LowerBound(tbl, r), UpperBound(tbl, r);
    EqualRange(tbl, r);
    if lo < hi && tbl[lo].admDist > r.admDist {
      SpliceDistinct(tbl, lo, hi, r);
    } else if lo == hi || (tbl[lo].admDist == r.admDist && !Duplicates(tbl[lo..hi], r)) {
      forall k | 0 <= k < hi
        ensures !tbl[k].HasSamePath(r)
      {
        if lo <= k { assert tbl[k] == tbl[lo..hi][k - lo]; }
      }
      SpliceDistinct(tbl, hi, hi, r);
    }
  }

  lemma SpliceDistinct(tbl: seq<Route>, from: nat, hi: nat, r: Route)
    requires from <= hi <= |tbl| && NoRepeats(tbl)
    requires forall k :: 0 <= k < from ==> !tbl[k].HasSamePath(r)
    requires forall k :: hi <= k < |tbl| ==> !r.HasSamePath(tbl[k])
    ensures NoRepeats(tbl[..from] + [r] + tbl[hi..])
  {
    var t := tbl[..from] + [r] + tbl[hi..];
    forall i, j | 0 <= i < j < |t|
      ensures !t[i].HasSamePath(t[j])
    {
      assert i < from ==> t[i] == tbl[i];
      assert i > from ==> t[i] == tbl[hi + (i - from - 1)];
      assert j < from ==> t[j] == tbl[j];
      assert j > from ==> t[j] == tbl[hi + (j - from - 1)];
    }
  }
}
