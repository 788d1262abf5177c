/** 32-bit address arithmetic behind the subnet collector: prefix blocks, their extents,
    membership, and the block that follows another one.

    An address is its 32-bit value. A block is an address together with a prefix length, as
    in a route table entry; the address need not be the first one of the block.

    Products and quotients of two variables are written with Times and Quot, which are
    defined by repeated addition: the proofs then stay within linear arithmetic. */
module Ipv4 {

  const ADDRESSES := 0x1_0000_0000

  type Addr = a: int | 0 <= a < 0x1_0000_0000

  type PrefixLen = p: int | 0 <= p <= 32

  function Times(k: nat, s: nat): nat {
    if k == 0 then 0 else Times(k - 1, s) + s
  }

  function Quot(a: nat, s: nat): (q: nat)
    requires 0 < s
    ensures Times(q, s) <= a < Times(q, s) + s
  {
    if a < s then 0 else Quot(a - s, s) + 1
  }

  lemma {:induction false} TimesIsProduct(k: nat, s: nat)
    ensures Times(k, s) == k * s
  {
    if k == 0 {
    } else {
      TimesIsProduct(k - 1, s);
    }
  }

  /** k copies of s and s more are at most j copies when k is smaller than j. */
  lemma {:induction false} Step(k: nat, j: nat, s: nat)
    requires k < j
    ensures Times(k, s) + s <= Times(j, s)
    decreases j
  {
    if k == j - 1 {
    } else {
      Step(k, j - 1, s);
    }
  }

  lemma {:induction false} TimesAdds(j: nat, k: nat, s: nat)
    ensures Times(j + k, s) == Times(j, s) + Times(k, s)
  {
    if k == 0 {
    } else {
      TimesAdds(j, k - 1, s);
    }
  }

  lemma {:induction false} TimesAssociates(k: nat, m: nat, n: nat)
    ensures Times(k, Times(m, n)) == Times(Times(k, m), n)
  {
    if k == 0 {
    } else {
      TimesAssociates(k - 1, m, n);
      TimesAdds(Times(k - 1, m), m, n);
    }
  }

  /** A quotient is determined by the interval it stands for. */
  lemma QuotIs(a: nat, s: nat, k: nat)
    requires 0 < s
    ensures Quot(a, s) == k <==> Times(k, s) <= a < Times(k, s) + s
  {
    var q := Quot(a, s);
    if q < k {
      Step(q, k, s);
    } else if k < q {
      Step(k, q, s);
    }
  }

  lemma Spread(a: nat, q: nat, low: nat, high: nat, n: nat)
    requires low <= q < high && Times(q, n) <= a < Times(q, n) + n
    ensures Times(low, n) <= a < Times(high, n)
  {
    Step(q, high, n);
    if low < q {
      Step(low, q, n);
    }
  }

  /** Dividing by m copies of n is dividing by n and then by m. */
  lemma QuotOfQuot(a: nat, m: nat, n: nat)
    requires 0 < m && 0 < n
    ensures 0 < Times(m, n) && Quot(a, Times(m, n)) == Quot(Quot(a, n), m)
  {
    var q := Quot(a, n);
    var k := Quot(q, m);
    var low: nat := Times(k, m);
    var high: nat := low + m;
    Step(0, m, n);
    Spread(a, q, low, high, n);
    TimesAdds(low, m, n);
    TimesAssociates(k, m, n);
    var parts: nat := Times(m, n);
    assert Times(k, parts) <= a < Times(k, parts) + parts;
    QuotIs(a, parts, k);
  }

  function Pow2(n: nat): (r: nat)
    ensures r > 0
  {
    if n == 0 then 1 else Pow2(n - 1) + Pow2(n - 1)
  }

  lemma {:induction false} Pow2Adds(m: nat, n: nat)
    ensures Pow2(m + n) == Times(Pow2(m), Pow2(n))
  {
    if m == 0 {
      assert Times(1, Pow2(n)) == Times(0, Pow2(n)) + Pow2(n);
    } else {
      Pow2Adds(m - 1, n);
      TimesAdds(Pow2(m - 1), Pow2(m - 1), Pow2(n));
    }
  }

  lemma Pow2Is32()
    ensures Pow2(32) == ADDRESSES
  {
    assert Pow2(8) == 256;
    assert Pow2(16) == 0x1_0000;
    assert Pow2(24) == 0x100_0000;
  }

  /** The number of addresses in a block. */
  function Size(p: PrefixLen): (r: nat)
    ensures 0 < r
  {
    Pow2(32 - p)
  }

  /** The blocks of one length fill the address space. */
  lemma BlocksFillTheSpace(p: PrefixLen)
    ensures Times(Pow2(p), Size(p)) == ADDRESSES
  {
    Pow2Is32();
    Pow2Adds(p, 32 - p);
  }

  datatype IPNet = IPNet(ip: Addr, prefix: PrefixLen) {

    /** The position of the block among all blocks of its size. */
    function Index(): nat {
      Quot(ip, Size(prefix))
    }

    predicate Contains(a: Addr) {
      Quot(a, Size(prefix)) == Index()
    }

    /** cidr.AddressRange returns the network's address as it was given, masked or not ... */
    function FirstIP(): Addr {
      ip
    }

    /** ... and that address with every host bit set. */
    function LastIP(): (r: Addr)
      ensures r == Times(Index(), Size(prefix)) + Size(prefix) - 1
    {
      IndexBounds();
      Times(Index(), Size(prefix)) + Size(prefix) - 1
    }

    lemma IndexBounds()
      ensures Index() < Pow2(prefix)
      ensures Times(Index(), Size(prefix)) <= ip < Times(Index(), Size(prefix)) + Size(prefix) <= ADDRESSES
    {
      BlocksFillTheSpace(prefix);
      if Pow2(prefix) < Index() {
        Step(Pow2(prefix), Index(), Size(prefix));
      } else if Index() < Pow2(prefix) {
        Step(Index(), Pow2(prefix), Size(prefix));
      }
    }
  }

  /** The block of length p that holds address a, given by its first address, as
      net.ParseCIDR returns it. */
  function BlockOf(a: Addr, p: PrefixLen): (r: IPNet)
    ensures r.prefix == p && r.Contains(a) && r.ip == Times(r.Index(), Size(p))
  {
    var n := IPNet(a, p);
    n.IndexBounds();
    QuotIs(Times(n.Index(), Size(p)), Size(p), n.Index());
    IPNet(Times(n.Index(), Size(p)), p)
  }

  /** Block number k of length p. */
  function Block(k: nat, p: PrefixLen): (r: IPNet)
    requires k < Pow2(p)
    ensures r.prefix == p && r.Index() == k && r.ip == Times(k, Size(p))
  {
    BlocksFillTheSpace(p);
    Step(k, Pow2(p), Size(p));
    QuotIs(Times(k, Size(p)), Size(p), k);
    IPNet(Times(k, Size(p)), p)
  }

  lemma BlockOfItsFirst(k: nat, p: PrefixLen)
    requires k < Pow2(p)
    ensures 0 <= Times(k, Size(p)) < ADDRESSES && BlockOf(Times(k, Size(p)), p) == Block(k, p)
  {
    assert Block(k, p).ip == Times(k, Size(p));
  }

  lemma BlockOfIsCanonical(a: Addr, p: PrefixLen)
    ensures BlockOf(BlockOf(a, p).ip, p) == BlockOf(a, p)
  {
  }

  lemma Canonical(b: IPNet)
    requires b == BlockOf(b.ip, b.prefix)
    ensures b.Index() < Pow2(b.prefix) && b == Block(b.Index(), b.prefix)
  {
    b.IndexBounds();
  }

  /** One more, in 32 bits: the topmost address is followed by 0.0.0.0. */
  function Inc(a: Addr): Addr {
    if a + 1 == ADDRESSES then 0 else a + 1
  }

  /** cidr.NextSubnet: the block of length p that holds the address after the block's last. */
  function NextSubnet(n: IPNet, p: PrefixLen): IPNet {
    BlockOf(Inc(n.LastIP()), p)
  }

  /** The block after block k is block k + 1, and block 0 after the topmost one. */
  function NextIndex(k: nat, p: PrefixLen): (next: nat)
    requires k < Pow2(p)
    ensures next < Pow2(p)
  {
    if k + 1 == Pow2(p) then 0 else k + 1
  }

  lemma NextSubnetWraps(k: nat, p: PrefixLen)
    requires k < Pow2(p)
    ensures NextSubnet(Block(k, p), p) == Block(NextIndex(k, p), p)
  {
    BlocksFillTheSpace(p);
    AddressAfter(k, NextIndex(k, p), Pow2(p), Size(p), Block(k, p).LastIP());
    BlockOfItsFirst(NextIndex(k, p), p);
  }

  lemma AddressAfter(k: nat, next: nat, top: nat, s: nat, last: Addr)
    requires 0 < s && k < top && Times(top, s) == ADDRESSES
    requires last == Times(k, s) + s - 1
    requires next == if k + 1 == top then 0 else k + 1
    ensures Inc(last) == Times(next, s)
  {
    if k + 1 < top {
      Step(k + 1, top, s);
    }
  }

  /** Two blocks share an address. */
  ghost predicate Intersects(n1: IPNet, n2: IPNet) {
    exists a: Addr :: n1.Contains(a) && n2.Contains(a)
  }

  /** All addresses of the inner block belong to the outer one. */
  ghost predicate Within(inner: IPNet, outer: IPNet) {
    forall a: Addr :: inner.Contains(a) ==> outer.Contains(a)
  }

  /** The block of a shorter prefix that holds an address is found from the index of the
      block of a longer prefix that holds it. */
  lemma OuterIndex(a: Addr, p: PrefixLen, q: PrefixLen)
    requires p <= q
    ensures Quot(a, Size(p)) == Quot(Quot(a, Size(q)), Pow2(q - p))
  {
    Pow2Adds(q - p, 32 - q);
    QuotOfQuot(a, Pow2(q - p), Size(q));
  }

  /** Prefix blocks are nested or disjoint: one common address puts the longer-prefix block
      entirely inside the other. */
  lemma NestedOrDisjoint(outer: IPNet, inner: IPNet)
    requires outer.prefix <= inner.prefix
    ensures Intersects(outer, inner) <==> outer.Contains(inner.ip)
    ensures Intersects(outer, inner) <==> Within(inner, outer)
  {
    forall a: Addr | inner.Contains(a)
      ensures outer.Contains(a) <==> outer.Contains(inner.ip)
    {
      OuterIndex(a, outer.prefix, inner.prefix);
      OuterIndex(inner.ip, outer.prefix, inner.prefix);
    }
    assert inner.Contains(inner.ip);
  }
}
