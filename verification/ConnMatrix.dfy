/** Enumeration of the combinations of connections (src/connmatrix.cpp). */
module ConnMatrix {
  import opened Options

  // ---- The odometer as a number in mixed radix, least significant digit first ----

  predicate Digits(sizes: seq<nat>, d: seq<nat>) {
    |d| == |sizes| && forall i :: 0 <= i < |d| ==> d[i] < sizes[i]
  }

  predicate Positive(sizes: seq<nat>) {
    forall i :: 0 <= i < |sizes| ==> sizes[i] > 0
  }

  // Number of values of size_t.
  const SIZES := 0x1_0000_0000_0000_0000

  lemma WrapsAround(a: nat, b: nat)
    ensures a % SIZES * b % SIZES == a * b % SIZES
  {
    var q := a / SIZES;
    assert a * b == a % SIZES * b + SIZES * (q * b) by {
      assert a == a % SIZES + SIZES * q;
      Distributes(a % SIZES, SIZES * q, b);
      Regroup(SIZES, q, b);
    }
    Multiples(a % SIZES * b, q * b);
  }

  lemma Distributes(x: nat, y: nat, b: nat)
    ensures (x + y) * b == x * b + y * b
  {
  }

  lemma Multiples(x: nat, k: nat)
    ensures (x + SIZES * k) % SIZES == x % SIZES
  {
  }

  function Total(sizes: seq<nat>): nat
    decreases |sizes|
  {
    if sizes == [] then 1 else sizes[0] * Total(sizes[1..])
  }

  function Rank(sizes: seq<nat>, d: seq<nat>): nat
    requires |d| == |sizes|
    decreases |sizes|
  {
    if sizes == [] then 0 else d[0] + sizes[0] * Rank(sizes[1..], d[1..])
  }

  function Zeros(n: nat): seq<nat> { seq(n, i => 0) }

  // The next position, and whether the odometer overflowed.
  function Next(sizes: seq<nat>, d: seq<nat>): (seq<nat>, bool)
    requires |d| == |sizes|
    decreases |sizes|
  {
    if sizes == [] then ([], true)
    else if d[0] + 1 != sizes[0] then ([d[0] + 1] + d[1..], false)
    else var (rest, over) := Next(sizes[1..], d[1..]); ([0] + rest, over)
  }

  lemma Distribute(n: nat, r: nat)
    ensures n * (r + 1) == n * r + n
  {
  }

  lemma Monotone(n: nat, a: nat, b: nat)
    requires a <= b
    ensures n * a <= n * b
  {
  }

  lemma {:induction false} RankBelowTotal(sizes: seq<nat>, d: seq<nat>)
    requires Digits(sizes, d)
    ensures Rank(sizes, d) < Total(sizes)
    decreases |sizes|
  {
    if sizes != [] {
      RankBelowTotal(sizes[1..], d[1..]);
      var r, t := Rank(sizes[1..], d[1..]), Total(sizes[1..]);
      Monotone(sizes[0], r + 1, t);
      Distribute(sizes[0], r);
    }
  }

  lemma SameQuotient(n: nat, a: nat, q: nat, b: nat, r: nat)
    requires a < n && b < n && a + n * q == b + n * r
    ensures a == b && q == r
  {
    if q < r { Monotone(n, q + 1, r); Distribute(n, q); }
    if r < q { Monotone(n, r + 1, q); Distribute(n, r); }
  }

  lemma {:induction false} RankIsInjective(sizes: seq<nat>, d: seq<nat>, e: seq<nat>)
    requires Digits(sizes, d) && Digits(sizes, e) && Rank(sizes, d) == Rank(sizes, e)
    ensures d == e
    decreases |sizes|
  {
    if sizes != [] {
      SameQuotient(sizes[0], d[0], Rank(sizes[1..], d[1..]), e[0], Rank(sizes[1..], e[1..]));
      RankIsInjective(sizes[1..], d[1..], e[1..]);
      assert d == [d[0]] + d[1..] && e == [e[0]] + e[1..];
    }
  }

  lemma {:induction false} ZerosRank(sizes: seq<nat>)
    ensures Rank(sizes, Zeros(|sizes|)) == 0
    decreases |sizes|
  {
    if sizes != [] {
      assert Zeros(|sizes|)[1..] == Zeros(|sizes[1..]|);
      ZerosRank(sizes[1..]);
    }
  }

  // The step is an increment, and it overflows to zero exactly at the last position.
  lemma {:induction false} NextRank(sizes: seq<nat>, d: seq<nat>)
    requires Digits(sizes, d)
    ensures var (e, over) := Next(sizes, d);
            && Digits(sizes, e)
            && (over <==> Rank(sizes, d) + 1 == Total(sizes))
            && if over then e == Zeros(|sizes|) else Rank(sizes, e) == Rank(sizes, d) + 1
    decreases |sizes|
  {
    if sizes != [] {
      RankBelowTotal(sizes, d);
      if d[0] + 1 == sizes[0] {
        NextRank(sizes[1..], d[1..]);
        var (rest, over) := Next(sizes[1..], d[1..]);
        var r := Rank(sizes[1..], d[1..]);
        Distribute(sizes[0], r);
        assert ([0] + rest)[1..] == rest;
        if r + 1 != Total(sizes[1..]) {
          RankBelowTotal(sizes[1..], d[1..]);
          Monotone(sizes[0], r + 2, Total(sizes[1..]));
          Distribute(sizes[0], r + 1);
        }
      } else {
        var e := [d[0] + 1] + d[1..];
        assert e[1..] == d[1..];
        assert Digits(sizes, e);
        RankBelowTotal(sizes, e);
      }
    }
  }

  // ---- The matrix ----

  function Sizes<T>(product: seq<seq<T>>): (r: seq<nat>)
    ensures |r| == |product| && forall i :: 0 <= i < |r| ==> r[i] == |product[i]|
  {
    seq(|product|, i requires 0 <= i < |product| => |product[i]|)
  }

  // The tuple at a position.
  function Tuple<T>(product: seq<seq<T>>, d: seq<nat>): (r: seq<T>)
    requires Digits(Sizes(product), d)
    ensures |r| == |product| && forall i :: 0 <= i < |r| ==> r[i] == product[i][d[i]]
  {
    seq(|product|, i requires 0 <= i < |product| => product[i][d[i]])
  }

  // A set is listed without repetition.
  ghost predicate Distinct<T(!new)>(s: seq<T>) {
    forall i, j :: 0 <= i < j < |s| ==> s[i] != s[j]
  }

  ghost predicate Sets<T(!new)>(product: seq<seq<T>>) {
    forall i :: 0 <= i < |product| ==> Distinct(product[i])
  }

  class ConnectionMatrix<T(==,!new)> {
    var product: seq<seq<T>>
    var itrs: seq<nat>
    var traversedAll: bool

    // An iterator is at the end of an empty set only.
    ghost predicate Valid()
      reads this
    {
      && |itrs| == |product| && Sets(product)
      && forall i :: 0 <= i < |itrs| ==> itrs[i] < |product[i]| || (product[i] == [] && itrs[i] == 0)
    }

    constructor ()
      ensures Valid() && product == [] && itrs == [] && !traversedAll
    {
      product, itrs, traversedAll := [], [], false;
    }

    method Clear()
      modifies this
      ensures Valid() && product == [] && itrs == [] && !traversedAll
    {
      product, itrs, traversedAll := [], [], false;
    }

    method Add(conns: seq<T>)
      requires Valid() && Distinct(conns)
      modifies `product, `itrs
      ensures Valid() && product == old(product) + [conns] && itrs == old(itrs) + [0]
    {
      product, itrs := product + [conns], itrs + [0];
    }

    method Reset()
      requires Valid()
      modifies `itrs, `traversedAll
      ensures Valid() && itrs == Zeros(|product|) && !traversedAll
    {
      for i := 0 to |product|
        invariant |itrs| == |product| && forall j :: 0 <= j < i ==> itrs[j] == 0
        invariant forall j :: i <= j < |itrs| ==> itrs[j] == old(itrs)[j]
      {
        itrs := itrs[i := 0];
      }
      traversedAll := false;
    }

    // The product is taken in 64 bits.
    method NumConns() returns (num: nat)
      ensures num == Total(Sizes(product)) % SIZES
      ensures num == Total(Sizes(product)) <==> Total(Sizes(product)) < SIZES
    {
      num := 1;
      var sizes := Sizes(product);
      for i := 0 to |product|
        invariant num < SIZES && num * Total(sizes[i..]) % SIZES == Total(sizes) % SIZES
      {
        assert sizes[i..][0] == |product[i]| && sizes[i..][1..] == sizes[i + 1..];
        Regroup(num, |product[i]|, Total(sizes[i + 1..]));
        WrapsAround(num * |product[i]|, Total(sizes[i + 1..]));
        num := num * |product[i]| % SIZES;
      }
      assert sizes[|product|..] == [];
    }

    method AdvanceIterators()
      requires |itrs| == |product| && !traversedAll
      modifies `itrs, `traversedAll
      ensures (itrs, traversedAll) == Next(Sizes(product), old(itrs))
    {
      hide Next, Rank, Total, Zeros;
      ghost var sizes, was := Sizes(product), itrs;
      var i := 0;
      NoZeros(was);
      assert sizes[0..] == sizes && was[0..] == was;
      Unchanged(Next(sizes, was));
      while i < |product|
        invariant i <= |product| == |itrs| && !traversedAll
        invariant itrs == Zeros(i) + was[i..]
        invariant Next(sizes, was) == (Zeros(i) + Next(sizes[i..], was[i..]).0, Next(sizes[i..], was[i..]).1)
      {
        NextAt(sizes, was, i);
        Carry(was, i, Next(sizes[i + 1..], was[i + 1..]).0);
        itrs := itrs[i := itrs[i] + 1];
        if itrs[i] != |product[i]| { return; }
        itrs := itrs[i := 0];
        i := i + 1;
      }
      AtEnd(sizes, was);
      assert itrs == Zeros(i) + [];
      traversedAll := true;
    }

    // The tuple the iterators are at, which then move on; None for following the iterator of an
    // empty set.
    method GetNextConns() returns (r: Option<seq<T>>)
      requires Valid()
      modifies `itrs, `traversedAll
      ensures old(traversedAll) ==> r == Some([]) && unchanged(this)
      ensures !old(traversedAll) ==> (r.None? <==> exists i :: 0 <= i < |product| && product[i] == [])
      ensures r.Some? ==> Valid()
      ensures r.Some? && !old(traversedAll) ==>
                Digits(Sizes(product), old(itrs)) && r.value == Tuple(product, old(itrs)) &&
                (itrs, traversedAll) == Next(Sizes(product), old(itrs))
    {
      hide Next, Rank, Total;
      if traversedAll { return Some([]); }
      var conns: seq<T> := [];
      for i := 0 to |itrs|
        invariant |conns| == i && forall j :: 0 <= j < i ==> itrs[j] < |product[j]| && conns[j] == product[j][itrs[j]]
      {
        if itrs[i] >= |product[i]| {
          assert product[i] == [];
          return None;
        }
        conns := conns + [product[i][itrs[i]]];
      }
      ghost var sizes, was := Sizes(product), itrs;
      NextRank(sizes, was);
      AdvanceIterators();
      return Some(conns);
    }
  }

  lemma NoZeros(d: seq<nat>)
    ensures Zeros(0) + d == d
  {
  }

  // One digit is advanced, or set back to zero with a carry.
  lemma Carry(d: seq<nat>, i: nat, rest: seq<nat>)
    requires i < |d|
    ensures |Zeros(i)| == i && (Zeros(i) + d[i..])[i] == d[i]
    ensures (Zeros(i) + d[i..])[i := d[i] + 1] == Zeros(i) + ([d[i] + 1] + d[i + 1..])
    ensures (Zeros(i) + d[i..])[i := d[i] + 1][i := 0] == Zeros(i + 1) + d[i + 1..]
    ensures Zeros(i + 1) + rest == Zeros(i) + ([0] + rest)
  {
  }

  lemma Unchanged(n: (seq<nat>, bool))
    ensures n == (Zeros(0) + n.0, n.1)
  {
    assert Zeros(0) + n.0 == n.0;
  }

  lemma NextAt(sizes: seq<nat>, d: seq<nat>, i: nat)
    requires |d| == |sizes| && i < |sizes|
    ensures Next(sizes[i..], d[i..]) ==
            if d[i] + 1 != sizes[i] then ([d[i] + 1] + d[i + 1..], false)
            else ([0] + Next(sizes[i + 1..], d[i + 1..]).0, Next(sizes[i + 1..], d[i + 1..]).1)
  {
    assert sizes[i..][1..] == sizes[i + 1..] && d[i..][1..] == d[i + 1..];
  }

  lemma AtEnd(sizes: seq<nat>, d: seq<nat>)
    requires |d| == |sizes|
    ensures Next(sizes[|sizes|..], d[|d|..]) == ([], true) && d[|d|..] == []
  {
  }

  lemma Regroup(a: nat, b: nat, c: nat)
    ensures a * (b * c) == (a * b) * c
  {
  }

  // ---- The whole enumeration ----

  // The iterators and the end mark after k calls from the start, as GetNextConns moves them.
  function AfterCalls(sizes: seq<nat>, k: nat): (r: (seq<nat>, bool))
    ensures |r.0| == |sizes|
  {
    if k == 0 then (Zeros(|sizes|), false) else
      var (d, done) := AfterCalls(sizes, k - 1);
      if done then (d, done) else NextOf(sizes, d)
  }

  function NextOf(sizes: seq<nat>, d: seq<nat>): (r: (seq<nat>, bool))
    requires |d| == |sizes|
    ensures r == Next(sizes, d) && |r.0| == |sizes|
  {
    NextLength(sizes, d);
    Next(sizes, d)
  }

  lemma {:induction false} NextLength(sizes: seq<nat>, d: seq<nat>)
    requires |d| == |sizes|
    ensures |Next(sizes, d).0| == |sizes|
    decreases |sizes|
  {
    if sizes != [] { NextLength(sizes[1..], d[1..]); }
  }

  // The first Total(sizes) calls are at the positions in order; then the end mark stays set.
  lemma {:induction false} CallsInOrder(sizes: seq<nat>, k: nat)
    requires Positive(sizes)
    ensures var (d, done) := AfterCalls(sizes, k);
            && Digits(sizes, d) && (done <==> k >= Total(sizes))
            && (k < Total(sizes) ==> Rank(sizes, d) == k)
    decreases k
  {
    hide Next, Rank, Total;
    if k == 0 {
      ZerosRank(sizes);
      RankBelowTotal(sizes, Zeros(|sizes|));
    } else {
      CallsInOrder(sizes, k - 1);
      NextRank(sizes, AfterCalls(sizes, k - 1).0);
    }
  }

  // The first set's iterator moves with every call.
  lemma FirstMovesFastest(sizes: seq<nat>, k: nat)
    requires sizes != [] && Positive(sizes) && k < Total(sizes)
    ensures AfterCalls(sizes, k).0[0] == k % sizes[0]
  {
    hide Next, Total, AfterCalls;
    CallsInOrder(sizes, k);
    var d := AfterCalls(sizes, k).0;
    RemainderOf(sizes[0], d[0], Rank(sizes[1..], d[1..]));
  }

  lemma RemainderOf(n: nat, a: nat, q: nat)
    requires a < n
    ensures (a + n * q) % n == a
  {
    SameQuotient(n, a, q, (a + n * q) % n, (a + n * q) / n);
  }

  // What the k-th call returns.
  function Result<T>(product: seq<seq<T>>, k: nat): seq<T>
    requires Positive(Sizes(product))
  {
    CallsInOrder(Sizes(product), k);
    var (d, done) := AfterCalls(Sizes(product), k);
    if done then [] else Tuple(product, d)
  }

  ghost predicate Combination<T(!new)>(product: seq<seq<T>>, t: seq<T>) {
    |t| == |product| && forall i :: 0 <= i < |t| ==> t[i] in product[i]
  }

  // The position of a combination.
  function Positions<T(==)>(product: seq<seq<T>>, t: seq<T>): (d: seq<nat>)
    requires |t| == |product| && forall i :: 0 <= i < |t| ==> t[i] in product[i]
    ensures Digits(Sizes(product), d) && Tuple(product, d) == t
  {
    seq(|t|, i requires 0 <= i < |t| => IndexOf(product[i], t[i]))
  }

  function IndexOf<T(==)>(s: seq<T>, x: T): (k: nat)
    requires x in s
    ensures k < |s| && s[k] == x
  {
    if s[0] == x then 0 else 1 + IndexOf(s[1..], x)
  }

  // Every combination is returned by one of the first Total(sizes) calls.
  lemma EveryCombination<T(!new)>(product: seq<seq<T>>, t: seq<T>) returns (k: nat)
    requires Positive(Sizes(product)) && Combination(product, t)
    ensures k < Total(Sizes(product)) && Result(product, k) == t
  {
    hide Rank, Total;
    var d := Positions(product, t);
    k := Rank(Sizes(product), d);
    RankBelowTotal(Sizes(product), d);
    CallsInOrder(Sizes(product), k);
    RankIsInjective(Sizes(product), AfterCalls(Sizes(product), k).0, d);
  }

  // They return combinations only, and no combination twice.
  lemma OnlyOnce<T(!new)>(product: seq<seq<T>>, j: nat, k: nat)
    requires Positive(Sizes(product)) && Sets(product)
    requires j < k < Total(Sizes(product))
    ensures Combination(product, Result(product, j)) && Result(product, j) != Result(product, k)
  {
    hide Rank, Total;
    CallsInOrder(Sizes(product), j);
    CallsInOrder(Sizes(product), k);
    var d, e := AfterCalls(Sizes(product), j).0, AfterCalls(Sizes(product), k).0;
    assert d != e;
    var i :| 0 <= i < |d| && d[i] != e[i];
    assert Distinct(product[i]);
    assert Tuple(product, d)[i] != Tuple(product, e)[i];
  }

  // All later calls return nothing.
  lemma ThenNothing<T(!new)>(product: seq<seq<T>>, k: nat)
    requires Positive(Sizes(product))
    ensures k >= Total(Sizes(product)) ==> Result(product, k) == []
    ensures k < Total(Sizes(product)) ==> |Result(product, k)| == |product|
  {
    CallsInOrder(Sizes(product), k);
  }
}
