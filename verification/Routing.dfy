/** Routes and the routing table of a node (src/route.cpp, src/routingtable.cpp). */
module Routing {
  import opened Addressing

  // A route with a non-empty egress interface is connected; otherwise it is resolved through nextHop.
  datatype Route = Route(network: Net, nextHop: Addr, intf: string, admDist: int) {
    predicate Connected() { intf != "" }

    predicate HasSamePath(other: Route) {
      network == other.network &&
      if intf == "" then nextHop == other.nextHop else intf == other.intf
    }
  }

  // What a packet following the route does next.
  datatype Path = ViaNextHop(ip: Addr) | ViaIntf(name: string)

  function PathOf(r: Route): Path {
    if r.Connected() then ViaIntf(r.intf) else ViaNextHop(r.nextHop)
  }

  // Table order: longest prefix first, then the network address.
  predicate Precedes(a: Route, b: Route) {
    a.network.prefix > b.network.prefix ||
    (a.network.prefix == b.network.prefix && a.network.addr < b.network.addr)
  }

  predicate Sorted(tbl: seq<Route>) {
    forall i, j :: 0 <= i < j < |tbl| ==> !Precedes(tbl[j], tbl[i])
  }

  // Longer prefixes come first, and of one length the lower addresses.
  lemma TableOrder(tbl: seq<Route>)
    ensures Sorted(tbl) <==>
            forall i, j :: 0 <= i < j < |tbl| ==>
              var m, n := tbl[i].network, tbl[j].network;
              m.prefix >= n.prefix && (m.prefix == n.prefix ==> m.addr <= n.addr)
  {
  }

  function LowerBound(tbl: seq<Route>, r: Route): (k: nat)
    ensures k <= |tbl|
    ensures forall i :: 0 <= i < k ==> Precedes(tbl[i], r)
    ensures k < |tbl| ==> !Precedes(tbl[k], r)
  {
    if tbl != [] && Precedes(tbl[0], r) then 1 + LowerBound(tbl[1..], r) else 0
  }

  function UpperBound(tbl: seq<Route>, r: Route): (k: nat)
    ensures k <= |tbl|
    ensures forall i :: 0 <= i < k ==> !Precedes(r, tbl[i])
    ensures k < |tbl| ==> Precedes(r, tbl[k])
  {
    if tbl != [] && !Precedes(r, tbl[0]) then 1 + UpperBound(tbl[1..], r) else 0
  }

  // std::multiset::equal_range: in a sorted table these are exactly the routes to r's network.
  lemma EqualRange(tbl: seq<Route>, r: Route)
    requires Sorted(tbl)
    ensures LowerBound(tbl, r) <= UpperBound(tbl, r)
    ensures forall i :: 0 <= i < |tbl| ==>
              (LowerBound(tbl, r) <= i < UpperBound(tbl, r) <==> tbl[i].network == r.network)
  {
    var lo, hi := LowerBound(tbl, r), UpperBound(tbl, r);
    forall i | 0 <= i < |tbl|
      ensures lo <= i < hi <==> tbl[i].network == r.network
    {
      if i < lo { assert Precedes(tbl[i], r); }
      if hi <= i { assert Precedes(r, tbl[hi]) && !Precedes(tbl[i], tbl[hi]); }
      if lo <= i { assert !Precedes(tbl[i], tbl[lo]) || i == lo; }
    }
    assert hi < |tbl| ==> !Precedes(tbl[hi], r);
  }

  predicate Duplicates(group: seq<Route>, r: Route) {
    exists e :: e in group && e.HasSamePath(r)
  }

  // The table after RoutingTable::insert(r).
  function Inserted(tbl: seq<Route>, r: Route): seq<Route>
    requires Sorted(tbl)
  {
    var lo, hi := LowerBound(tbl, r), UpperBound(tbl, r);
    EqualRange(tbl, r);
    if lo == hi then tbl[..hi] + [r] + tbl[hi..]
    else if tbl[lo].admDist < r.admDist then tbl
    else if tbl[lo].admDist > r.admDist then tbl[..lo] + [r] + tbl[hi..]
    else if Duplicates(tbl[lo..hi], r) then tbl
    else tbl[..hi] + [r] + tbl[hi..]
  }

  // The table after RoutingTable::update(r): r replaces every route to its network.
  function Updated(tbl: seq<Route>, r: Route): seq<Route>
    requires Sorted(tbl)
  {
    EqualRange(tbl, r);
    tbl[..LowerBound(tbl, r)] + [r] + tbl[UpperBound(tbl, r)..]
  }

  lemma InsertKeepsSorted(tbl: seq<Route>, r: Route)
    requires Sorted(tbl)
    ensures Sorted(Inserted(tbl, r)) && Sorted(Updated(tbl, r))
  {
    EqualRange(tbl, r);
    SpliceSorted(tbl, LowerBound(tbl, r), UpperBound(tbl, r), r);
    SpliceSorted(tbl, UpperBound(tbl, r), UpperBound(tbl, r), r);
  }

  lemma SpliceSorted(tbl: seq<Route>, lo: nat, hi: nat, r: Route)
    requires Sorted(tbl) && lo <= hi <= |tbl|
    requires forall i :: 0 <= i < lo ==> !Precedes(r, tbl[i])
    requires forall i :: hi <= i < |tbl| ==> !Precedes(tbl[i], r)
    ensures Sorted(tbl[..lo] + [r] + tbl[hi..])
  {
    var t := tbl[..lo] + [r] + tbl[hi..];
    forall i, j | 0 <= i < j < |t|
      ensures !Precedes(t[j], t[i])
    {
      assert i < lo ==> t[i] == tbl[i];
      assert i > lo ==> t[i] == tbl[hi + (i - lo - 1)];
      assert j < lo ==> t[j] == tbl[j];
      assert j > lo ==> t[j] == tbl[hi + (j - lo - 1)];
    }
  }

  // The routes RoutingTable::lookup(addr) ranges over.
  function Lookup(tbl: seq<Route>, a: Addr): seq<Route>
  {
    if tbl == [] then []
    else if tbl[0].network.Contains(a) then tbl[..UpperBound(tbl, tbl[0])]
    else Lookup(tbl[1..], a)
  }

  class RoutingTable {
    var tbl: seq<Route>

    ghost predicate Valid()
      reads this
    {
      Sorted(tbl)
    }

    constructor ()
      ensures Valid() && tbl == []
    {
      tbl := [];
    }

    constructor Copy(rib: seq<Route>)
      ensures tbl == rib
    {
      tbl := rib;
    }

    method Insert(r: Route)
      requires Valid()
      modifies this
      ensures Valid() && tbl == Inserted(old(tbl), r)
    {
      InsertKeepsSorted(tbl, r);
      EqualRange(tbl, r);
      var first, last := LowerBound(tbl, r), UpperBound(tbl, r);
      if last - first > 0 {
        if tbl[first].admDist < r.admDist {
          return;
        } else if tbl[first].admDist > r.admDist {
          tbl := tbl[..first] + tbl[last..];
          tbl := tbl[..first] + [r] + tbl[first..];
          return;
        } else {
          var it := first;
          while it < last
            invariant first <= it <= last
            invariant tbl == old(tbl)
            invariant forall k :: first <= k < it ==> !tbl[k].HasSamePath(r)
          {
            if tbl[it].HasSamePath(r) {
              assert tbl[it] in tbl[first..last];
              return;
            }
            it := it + 1;
          }
        }
      }
      tbl := tbl[..last] + [r] + tbl[last..];
    }

    method Update(r: Route)
      requires Valid()
      modifies this
      ensures Valid() && tbl == Updated(old(tbl), r)
    {
      InsertKeepsSorted(tbl, r);
      EqualRange(tbl, r);
      var first, last := LowerBound(tbl, r), UpperBound(tbl, r);
      tbl := tbl[..first] + tbl[last..];
      tbl := tbl[..first] + [r] + tbl[first..];
    }

    // The returned half-open index range [first, last) delimits the matching routes.
    method LookupAddr(dst: Addr) returns (first: nat, last: nat)
      requires Valid()
      ensures first <= last <= |tbl|
      ensures tbl[first..last] == Lookup(tbl, dst)
    {
      first := 0;
      while first < |tbl|
        invariant first <= |tbl|
        invariant Lookup(tbl, dst) == Lookup(tbl[first..], dst)
      {
        var rest := tbl[first..];
        if rest[0].network.Contains(dst) {
          last := first + UpperBound(rest, rest[0]);
          return;
        }
        assert rest[1..] == tbl[first + 1..];
        first := first + 1;
      }
      last := first;
    }
  }

  // ---- Longest prefix match ----

  predicate LongestMatch(tbl: seq<Route>, a: Addr, r: Route) {
    r in tbl && r.network.Contains(a) &&
    forall o :: o in tbl && o.network.Contains(a) ==> o.network.prefix <= r.network.prefix
  }

  predicate NetworksValid(tbl: seq<Route>) {
    forall r :: r in tbl ==> r.network.Valid()
  }

  lemma NoMatch(a: Addr)
    ensures forall r :: !LongestMatch([], a, r)
  {
  }

  lemma HeadMisses(tbl: seq<Route>, a: Addr, r: Route)
    requires tbl != [] && !tbl[0].network.Contains(a)
    ensures LongestMatch(tbl, a, r) <==> LongestMatch(tbl[1..], a, r)
  {
    assert tbl == [tbl[0]] + tbl[1..];
  }

  // When the first route contains the address, the routes to its network are the longest matches.
  lemma HeadMatches(tbl: seq<Route>, a: Addr, r: Route)
    requires Sorted(tbl) && NetworksValid(tbl) && tbl != [] && tbl[0].network.Contains(a)
    ensures UpperBound(tbl, tbl[0]) <= |tbl|
    ensures r in tbl[..UpperBound(tbl, tbl[0])] <==> LongestMatch(tbl, a, r)
  {
    var hi := UpperBound(tbl, tbl[0]);
    EqualRange(tbl, tbl[0]);
    if r in tbl[..hi] {
      var i :| 0 <= i < hi && tbl[i] == r;
      assert LowerBound(tbl, tbl[0]) == 0;
      assert r.network == tbl[0].network;
      forall o | o in tbl && o.network.Contains(a)
        ensures o.network.prefix <= r.network.prefix
      {
        var j :| 0 <= j < |tbl| && tbl[j] == o;
        if j > 0 { assert !Precedes(tbl[j], tbl[0]); }
      }
    }
    if LongestMatch(tbl, a, r) {
      var i :| 0 <= i < |tbl| && tbl[i] == r;
      if i > 0 { assert !Precedes(tbl[i], tbl[0]); }
      assert tbl[0] in tbl;
      SamePrefixSameNetwork(r.network, tbl[0].network, a);
      assert tbl[i] in tbl[..hi];
    }
  }

  // A route is looked up exactly when it is a longest match.
  lemma {:induction false} LookupIsLongestMatch(tbl: seq<Route>, a: Addr)
    requires Sorted(tbl) && NetworksValid(tbl)
    ensures forall r :: r in Lookup(tbl, a) <==> LongestMatch(tbl, a, r)
  {
    hide LongestMatch, UpperBound;
    if tbl == [] {
      NoMatch(a);
    } else if tbl[0].network.Contains(a) {
      forall r ensures r in tbl[..UpperBound(tbl, tbl[0])] <==> LongestMatch(tbl, a, r) {
        EqualRange(tbl, tbl[0]);
        HeadMatches(tbl, a, r);
      }
    } else {
      LookupIsLongestMatch(tbl[1..], a);
      forall r ensures LongestMatch(tbl, a, r) <==> LongestMatch(tbl[1..], a, r) { HeadMisses(tbl, a, r); }
    }
  }

  // All routes returned by one lookup go to the same network.
  lemma LookupOneNetwork(tbl: seq<Route>, a: Addr, r: Route, r': Route)
    requires Sorted(tbl) && NetworksValid(tbl) && r in Lookup(tbl, a) && r' in Lookup(tbl, a)
    ensures r.network == r'.network
  {
    LookupIsLongestMatch(tbl, a);
    SamePrefixSameNetwork(r.network, r'.network, a);
  }

  // Two addresses that no route's network separates are looked up alike.
  lemma {:induction false} LookupUnseparated(tbl: seq<Route>, a: Addr, b: Addr)
    requires forall r :: r in tbl ==> (r.network.Contains(a) <==> r.network.Contains(b))
    ensures Lookup(tbl, a) == Lookup(tbl, b)
  {
    if tbl != [] {
      assert tbl[0] in tbl;
      LookupUnseparated(tbl[1..], a, b);
    }
  }
}
