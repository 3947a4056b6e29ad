/** When the order of insertions matters to a routing table (src/route.cpp:42-48). */
module RouteOrder {
  import opened Routing
  import opened RouteSelection
  import opened Sequences
  import opened Addressing

  function Paths(tbl: seq<Route>, n: Net): set<Path> {
    set r | r in tbl && r.network == n :: PathOf(r)
  }

  function BestPaths(rs: seq<Route>, n: Net): set<Path> {
    set r | r in rs && r.network == n && Best(rs, r) :: PathOf(r)
  }

  // A next-hop route counts a connected route with the same (unused) next hop as a repeat.
  predicate Shadows(s: Route, r: Route) {
    s.network == r.network && !s.Connected() && r.Connected() && s.nextHop == r.nextHop
  }

  lemma SamePathOrShadow(a: Route, b: Route)
    ensures a.HasSamePath(b) <==> a.network == b.network && (PathOf(a) == PathOf(b) || Shadows(a, b))
    ensures a.HasSamePath(b) == b.HasSamePath(a) <==> !Shadows(a, b) && !Shadows(b, a)
  {
  }

  // Some best next-hop route shadows v.
  ghost predicate Hidden(rs: seq<Route>, v: Route) {
    exists s :: Best(rs, s) && Shadows(s, v)
  }

  // r's path is also offered by a best route that is not hidden.
  ghost predicate Visible(rs: seq<Route>, r: Route) {
    exists v {:trigger Hidden(rs, v)} ::
      Best(rs, v) && v.network == r.network && PathOf(v) == PathOf(r) && !Hidden(rs, v)
  }

  ghost predicate AllVisible(rs: seq<Route>, n: Net) {
    forall r {:trigger Visible(rs, r)} :: Best(rs, r) && r.network == n ==> Visible(rs, r)
  }

  // Nothing is shadowed when connected and next-hop routes do not mix at one network.
  lemma UnmixedIsVisible(rs: seq<Route>, n: Net)
    requires (forall r :: r in rs && r.network == n ==> r.Connected()) ||
             (forall r :: r in rs && r.network == n ==> !r.Connected())
    ensures AllVisible(rs, n)
  {
    forall r | Best(rs, r) && r.network == n
      ensures Visible(rs, r)
    {
      assert !Hidden(rs, r);
    }
  }

  // With every best path visible, the table holds exactly the best paths.
  lemma VisiblePathsKept(rs: seq<Route>, n: Net)
    requires AllVisible(rs, n)
    ensures Paths(Built(rs), n) == BestPaths(rs, n)
  {
    forall r | r in Built(rs) && r.network == n
      ensures PathOf(r) in BestPaths(rs, n)
    {
      EntryIsBest(rs, r);
    }
    forall r | r in rs && r.network == n && Best(rs, r)
      ensures PathOf(r) in Paths(Built(rs), n)
    {
      assert Visible(rs, r);
      VisiblePathKept(rs, r);
    }
  }

  lemma VisiblePathKept(rs: seq<Route>, r: Route)
    requires Visible(rs, r)
    ensures PathOf(r) in Paths(Built(rs), r.network)
  {
    var v :| Best(rs, v) && v.network == r.network && PathOf(v) == PathOf(r) && !Hidden(rs, v);
    var e := BestHasEntry(rs, v);
    EntryIsBest(rs, e);
    SamePathOrShadow(e, v);
  }

  lemma PermutationKeepsBest(rs: seq<Route>, rs': seq<Route>)
    requires multiset(rs) == multiset(rs')
    ensures forall r :: Best(rs, r) <==> Best(rs', r)
  {
    forall r
      ensures Best(rs, r) <==> Best(rs', r)
    {
      assert r in rs <==> r in multiset(rs);
      assert r in rs' <==> r in multiset(rs');
      if r in rs { SameMinDist(rs, rs', r); SameMinDist(rs', rs, r); }
    }
  }

  lemma SameMinDist(rs: seq<Route>, rs': seq<Route>, r: Route)
    requires multiset(rs) == multiset(rs') && r in rs
    ensures MinDist(rs', r.network).At? && MinDist(rs, r.network).At?
    ensures MinDist(rs', r.network).d <= MinDist(rs, r.network).d
  {
    MinDistBounds(rs, r);
    var b := MinDistAttained(rs, r.network);
    assert b in multiset(rs');
    MinDistBounds(rs', b);
  }

  // No reordering of the insertions changes which paths the table holds for n.
  ghost predicate OrderFree(rs: seq<Route>, n: Net) {
    forall rs' :: multiset(rs') == multiset(rs) ==> Paths(Built(rs'), n) == Paths(Built(rs), n)
  }

  // The exact condition: insertion order is irrelevant at n if and only if no best path is
  // offered only by shadowed routes.
  lemma OrderFreeIffAllVisible(rs: seq<Route>, n: Net)
    ensures OrderFree(rs, n) <==> AllVisible(rs, n)
  {
    if AllVisible(rs, n) {
      forall rs' | multiset(rs') == multiset(rs)
        ensures Paths(Built(rs'), n) == Paths(Built(rs), n)
      {
        SamePaths(rs, rs', n);
      }
    } else {
      var r :| Best(rs, r) && r.network == n && !Visible(rs, r);
      OrdersDiffer(rs, r);
    }
  }

  lemma SamePaths(rs: seq<Route>, rs': seq<Route>, n: Net)
    requires multiset(rs') == multiset(rs) && AllVisible(rs, n)
    ensures Paths(Built(rs'), n) == Paths(Built(rs), n)
  {
    SameVisible(rs, rs', n);
    VisiblePathsKept(rs, n);
    VisiblePathsKept(rs', n);
    PermutationKeepsBest(rs, rs');
    assert BestPaths(rs, n) == BestPaths(rs', n);
  }

  lemma OrdersDiffer(rs: seq<Route>, r: Route)
    requires Best(rs, r) && !Visible(rs, r)
    ensures !OrderFree(rs, r.network)
  {
    var c, h := Select(rs, true), Select(rs, false);
    SelectSplits(rs);
    assert multiset(c + h) == multiset(rs) == multiset(h + c);
    ConnectedFirst(rs, c, h, r);
    NextHopFirst(rs, h, c, r);
    if OrderFree(rs, r.network) {
      SameInAnyOrder(rs, c + h, r.network);
      SameInAnyOrder(rs, h + c, r.network);
    }
  }

  lemma SameInAnyOrder(rs: seq<Route>, rs': seq<Route>, n: Net)
    requires OrderFree(rs, n) && multiset(rs') == multiset(rs)
    ensures Paths(Built(rs'), n) == Paths(Built(rs), n)
  {
  }

  lemma SameVisible(rs: seq<Route>, rs': seq<Route>, n: Net)
    requires multiset(rs') == multiset(rs) && AllVisible(rs, n)
    ensures AllVisible(rs', n)
  {
    PermutationKeepsBest(rs, rs');
    forall r | Best(rs', r) && r.network == n
      ensures Visible(rs', r)
    {
      assert Visible(rs, r);
      var v :| Best(rs, v) && v.network == r.network && PathOf(v) == PathOf(r) && !Hidden(rs, v);
      assert !Hidden(rs', v);
    }
  }

  function Select(rs: seq<Route>, connected: bool): (s: seq<Route>)
    ensures forall r :: r in s ==> r in rs && r.Connected() == connected
  {
    if rs == [] then [] else
      (if rs[0].Connected() == connected then [rs[0]] else []) + Select(rs[1..], connected)
  }

  lemma {:induction false} SelectSplits(rs: seq<Route>)
    ensures multiset(Select(rs, true)) + multiset(Select(rs, false)) == multiset(rs)
  {
    if rs != [] {
      SelectSplits(rs[1..]);
      assert multiset(rs) == multiset{rs[0]} + multiset(rs[1..]) by { assert rs == [rs[0]] + rs[1..]; }
      var c, h := Select(rs[1..], true), Select(rs[1..], false);
      assert multiset(Select(rs, true)) + multiset(Select(rs, false)) ==
             multiset{rs[0]} + (multiset(c) + multiset(h));
    }
  }

  lemma BestOfPart(xs: seq<Route>, ys: seq<Route>, r: Route)
    requires Best(xs + ys, r) && r in xs
    ensures Best(xs, r)
  {
    MinDistBounds(xs, r);
    var b := MinDistAttained(xs, r.network);
    MinDistBounds(xs + ys, b);
  }

  // A best route, once in the table, stays there.
  lemma {:induction false} BestStays(xs: seq<Route>, ys: seq<Route>, e: Route)
    requires e in Built(xs) && Best(xs + ys, e)
    ensures e in Built(xs + ys)
    decreases |ys|
  {
    if ys == [] {
      assert xs + ys == xs;
    } else {
      var all, pre, r := xs + ys, xs + ys[..|ys| - 1], ys[|ys| - 1];
      assert all[..|all| - 1] == pre && all == pre + [r];
      assert e in pre by { EntryIsBest(xs, e); }
      BestOfPart(pre, [r], e);
      BestStays(xs, ys[..|ys| - 1], e);
      var d := GroupDistance(pre, r);
      InsertedRoute(Built(pre), r, d, e);
      assert r in all;
    }
  }

  lemma ConnectedFirst(rs: seq<Route>, c: seq<Route>, h: seq<Route>, r: Route)
    requires multiset(c + h) == multiset(rs) && Best(rs, r) && !Visible(rs, r)
    requires forall o :: o in c ==> o.Connected()
    requires forall o :: o in h ==> !o.Connected()
    ensures PathOf(r) in Paths(Built(c + h), r.network)
  {
    PermutationKeepsBest(rs, c + h);
    assert r in c by { NotVisibleIsConnected(rs, r); }
    BestOfPart(c, h, r);
    var e := BestHasEntry(c, r);
    EntryIsBest(c, e);
    SamePathOrShadow(e, r);
    assert Best(c + h, e);
    BestStays(c, h, e);
  }

  lemma NotVisibleIsConnected(rs: seq<Route>, r: Route)
    requires Best(rs, r) && !Visible(rs, r)
    ensures r.Connected() && Hidden(rs, r)
  {
    assert Hidden(rs, r);
  }

  lemma NextHopFirst(rs: seq<Route>, h: seq<Route>, c: seq<Route>, r: Route)
    requires multiset(h + c) == multiset(rs) && Best(rs, r) && !Visible(rs, r)
    requires forall o :: o in c ==> o.Connected()
    requires forall o :: o in h ==> !o.Connected()
    ensures PathOf(r) !in Paths(Built(h + c), r.network)
  {
    PermutationKeepsBest(rs, h + c);
    NotVisibleIsConnected(rs, r);
    forall v | Best(h + c, v) && v.network == r.network && PathOf(v) == PathOf(r)
      ensures Hidden(h + c, v)
    {
      assert Hidden(rs, v);
    }
    assert Hidden(h + c, r);
    assert (h + c)[..|h|] == h;
    var s :| Best(h + c, s) && Shadows(s, r);
    forall e | e in Built(h + c) && e.network == r.network
      ensures PathOf(e) != PathOf(r)
    {
      assert h + c == h + c + [];
      NeverEnters(h + c, |h|, h + c, [], r, s, e);
    }
  }

  // With the next-hop routes h inserted first, no prefix of the insertions lets in r's path.
  lemma {:induction false} NeverEnters(all: seq<Route>, h: nat, cur: seq<Route>, rest: seq<Route>, r: Route,
                              s: Route, e: Route)
    requires all == cur + rest && h <= |cur| && r.Connected()
    requires forall i :: 0 <= i < |all| ==> (all[i].Connected() <==> h <= i)
    requires Best(all, s) && s in all[..h] && s.network == r.network
    requires forall v {:trigger Hidden(all, v)} ::
               Best(all, v) && v.network == r.network && PathOf(v) == PathOf(r) ==> Hidden(all, v)
    requires e in Built(cur) && e.network == r.network
    ensures PathOf(e) != PathOf(r)
    decreases |cur|
  {
    EntryIsBest(cur, e);
    if PathOf(e) == PathOf(r) {
      var i :| 0 <= i < |cur| && cur[i] == e;
      assert all[i] == e;
      var pre, last := cur[..|cur| - 1], cur[|cur| - 1];
      FrontLast(cur);
      StepEntry(pre, last, e);
      if e in Built(pre) {
        ConcatAssoc(pre, [last], rest);
        NeverEnters(all, h, pre, [last] + rest, r, s, e);
      } else {
        LastIsRejected(all, h, pre, last, rest, s);
      }
    }
  }

  lemma LastIsRejected(all: seq<Route>, h: nat, pre: seq<Route>, last: Route, rest: seq<Route>, s: Route)
    requires all == pre + [last] + rest && h <= |pre|
    requires forall i :: 0 <= i < |all| ==> (all[i].Connected() <==> h <= i)
    requires Best(all, s) && s in all[..h] && s.network == last.network
    requires Best(pre + [last], last) && (Best(all, last) ==> Hidden(all, last))
    ensures Rejected(Built(pre), last)
  {
    var i :| 0 <= i < h && all[i] == s;
    assert (pre + [last])[i] == s;
    AsGoodAsBest(pre + [last], rest, s, last);
    var sh :| Best(all, sh) && Shadows(sh, last);
    var j :| 0 <= j < |all| && all[j] == sh;
    assert pre[j] == sh;
    ConcatAssoc(pre, [last], rest);
    BestOfPart(pre, [last] + rest, sh);
    var g := BestHasEntry(pre, sh);
    EntryIsBest(pre, g);
  }

  lemma StepEntry(pre: seq<Route>, last: Route, e: Route)
    requires e in Built(pre + [last])
    ensures e in Built(pre) || (e == last && !Rejected(Built(pre), last))
  {
    var d := GroupDistance(pre, last);
    assert (pre + [last])[..|pre|] == pre;
    InsertedRoute(Built(pre), last, d, e);
  }

  lemma AsGoodAsBest(xs: seq<Route>, ys: seq<Route>, s: Route, e: Route)
    requires Best(xs + ys, s) && s in xs && Best(xs, e) && e.network == s.network
    ensures Best(xs + ys, e)
  {
    MinDistBounds(xs, s);
    MinDistBounds(xs + ys, e);
  }

  // Two routes to one network whose insertion order decides what is kept.
  lemma OrderMatters()
    ensures var n := Net(0, 0);
            var hop, con := Route(n, 7, "", 1), Route(n, 7, "eth0", 1);
            Built([hop, con]) == [hop] && Built([con, hop]) == [con, hop]
  {
    var n := Net(0, 0);
    var hop, con := Route(n, 7, "", 1), Route(n, 7, "eth0", 1);
    assert [hop, con][..1] == [hop] && [con, hop][..1] == [con];
    BuiltAlone(hop);
    BuiltAlone(con);
    InsertSecond(hop, con);
    InsertSecond(con, hop);
  }

  lemma BuiltAlone(r: Route)
    ensures Built([r]) == [r]
  {
    assert [r][..0] == [];
    assert Built([]) == [];
  }

  lemma InsertSecond(a: Route, b: Route)
    requires a.network == b.network && a.admDist == b.admDist
    ensures Inserted([a], b) == if a.HasSamePath(b) then [a] else [a, b]
  {
    EqualRange([a], b);
    assert [a][0].network == b.network;
    assert LowerBound([a], b) == 0 && UpperBound([a], b) == 1;
    assert [a][0..1] == [a] && a in [a];
    assert [a][..1] + [b] + [a][1..] == [a, b];
  }
}
