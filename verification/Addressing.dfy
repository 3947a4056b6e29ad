/** IPv4 addresses and networks (src/lib/ip.hpp). */
module Addressing {
  const MAX_ADDR := 0xFFFF_FFFF

  // A 32-bit unsigned address value.
  type Addr = a: int | 0 <= a <= 0xFFFF_FFFF

  function Pow2(n: nat): (p: nat)
    ensures p >= 1
  {
    if n == 0 then 1 else 2 * Pow2(n - 1)
  }

  // None of the lowest k bits of x is set.
  predicate LowBitsClear(x: nat, k: nat)
    decreases k
  {
    k == 0 || (x % 2 == 0 && LowBitsClear(x / 2, k - 1))
  }

  lemma DoubledRemainder(x: nat, m: nat)
    requires m > 0
    ensures x % (2 * m) == 0 <==> x % 2 == 0 && x / 2 % m == 0
  {
    if x % (2 * m) == 0 {
      var q := x / (2 * m);
      assert x == (2 * m) * q == 2 * (m * q);
      assert x / 2 == m * q;
      assert x / 2 % m == 0 by { MultipleHasNoRemainder(q, m); }
    }
    if x % 2 == 0 && x / 2 % m == 0 {
      var q := x / 2 / m;
      assert x / 2 == m * q;
      assert x == 2 * (m * q) == q * (2 * m);
      MultipleHasNoRemainder(q, 2 * m);
    }
  }

  lemma MultipleHasNoRemainder(q: nat, m: nat)
    requires m > 0
    ensures (m * q) % m == 0 && (q * m) % m == 0
  {
    FloorUnique(q * m, m, q);
  }

  // Clear low bits mean a multiple of the power of two.
  lemma {:induction false} LowBitsAreRemainder(x: nat, k: nat)
    ensures LowBitsClear(x, k) <==> x % Pow2(k) == 0
    decreases k
  {
    if k > 0 {
      LowBitsAreRemainder(x / 2, k - 1);
      DoubledRemainder(x, Pow2(k - 1));
    }
  }

  type PrefixLength = p: nat | p <= 32

  // A CIDR block; Valid() is what the constructors check before one is used.
  datatype Net = Net(addr: Addr, prefix: PrefixLength) {
    // Number of addresses covered by the host bits.
    function Size(): (s: nat)
      ensures s >= 1
    {
      Pow2(32 - prefix)
    }

    // The check made by every IPNetwork constructor: no host bit is set.
    predicate Valid() {
      LowBitsClear(addr, 32 - prefix)
    }

    function Last(): int {
      addr + Size() - 1
    }

    predicate Contains(a: Addr) {
      addr <= a <= Last()
    }
  }

  lemma MulMonotone(a: int, b: int, m: int)
    requires a <= b && 0 <= m
    ensures a * m <= b * m
  {
    assert (b - a) * m >= 0;
  }

  // Powers of two up to the address width divide the size of the address space.
  lemma {:induction false} Pow2Splits(k: nat, n: nat) returns (q: nat)
    requires k <= n
    ensures Pow2(n) == q * Pow2(k)
  {
    if k == n {
      q := 1;
    } else {
      var q' := Pow2Splits(k, n - 1);
      q := 2 * q';
      assert 2 * (q' * Pow2(k)) == (2 * q') * Pow2(k);
    }
  }

  // x lies in the aligned block of m numbers starting at q * m exactly when q * m is x rounded down.
  lemma FloorUnique(x: int, m: int, q: int)
    requires m > 0 && q * m <= x < q * m + m
    ensures x - x % m == q * m
  {
    var k := x / m;
    assert x == k * m + x % m;
    if k > q {
      MulMonotone(q + 1, k, m);
    } else if k < q {
      MulMonotone(k + 1, q, m);
    }
  }

  lemma RemainderZero(x: nat, m: nat) returns (q: nat)
    requires m > 0 && x % m == 0
    ensures x == q * m
  {
    q := x / m;
    assert x == m * q + x % m;
  }

  lemma NetworkOfMember(n: Net, a: Addr)
    requires n.Valid() && n.Contains(a)
    ensures n.addr == a - a % n.Size()
  {
    hide Pow2, LowBitsClear;
    LowBitsAreRemainder(n.addr, 32 - n.prefix);
    var q := RemainderZero(n.addr, n.Size());
    FloorUnique(a, n.Size(), q);
  }

  // The k-th block of m numbers ends below top blocks of m numbers when it starts below.
  lemma BlockEnd(k: nat, top: nat, m: nat)
    requires m > 0 && k * m < top * m
    ensures k * m + m <= top * m
  {
    if k >= top {
      MulMonotone(top, k, m);
    } else {
      MulMonotone(k + 1, top, m);
      assert (k + 1) * m == k * m + m;
    }
  }

  // The broadcast address of a valid network is still a 32-bit address.
  lemma LastInRange(n: Net)
    requires n.Valid()
    ensures n.addr <= n.Last() <= MAX_ADDR
  {
    hide Pow2, LowBitsClear;
    LowBitsAreRemainder(n.addr, 32 - n.prefix);
    var k := RemainderZero(n.addr, n.Size());
    var top := Pow2Splits(32 - n.prefix, 32);
    AddressSpaceSize();
    BlockEnd(k, top, n.Size());
  }

  lemma AddressSpaceSize()
    ensures Pow2(32) == MAX_ADDR + 1
  {
    assert Pow2(8) == 256;
    assert Pow2(16) == 0x1_0000;
    assert Pow2(24) == 0x100_0000;
  }

  // Two networks with the same prefix length and a common address are the same network.
  lemma SamePrefixSameNetwork(n: Net, n': Net, a: Addr)
    requires n.Valid() && n'.Valid()
    requires n.prefix == n'.prefix && n.Contains(a) && n'.Contains(a)
    ensures n == n'
  {
    NetworkOfMember(n, a);
    NetworkOfMember(n', a);
  }

  lemma RoundedDownIsAligned(a: int, m: int)
    requires m > 0
    ensures (a - a % m) % m == 0
  {
    var q := a / m;
    assert a - a % m == q * m;
    FloorUnique(q * m, m, q);
  }

  // a with its low bits cleared, for m a power of two.
  function AlignDown(a: nat, m: nat): (b: nat)
    requires m > 0
    ensures b <= a < b + m && b % m == 0
  {
    RoundedDownIsAligned(a, m);
    a - a % m
  }

  // IPInterface::network(): the host bits of the interface address are cleared.
  function NetworkOf(a: Addr, prefix: PrefixLength): (n: Net)
    ensures n.Valid() && n.prefix == prefix && n.Contains(a)
  {
    var b := AlignDown(a, Pow2(32 - prefix));
    LowBitsAreRemainder(b, 32 - prefix);
    Net(b, prefix)
  }
}
