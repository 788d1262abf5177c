/** The search for a free block: pkg/collect/host_subnetavailable.go. */
module SubnetSearch {
  import opened Options
  import opened Ipv4

  /** A route's network. Its mask need not be that of a prefix length: then it holds the addresses
      that agree with its own on the bits of the mask. */
  datatype Network = Prefix(net: IPNet) | Scattered(ip: Addr, holds: Addr -> bool)

  datatype SystemRoute = SystemRoute(iface: string, dest: Network, gateway: Addr, metric: nat)

  /** 0.0.0.0/0 is skipped by the search; an all-zero mask with another address is not. */
  predicate IsDefault(route: SystemRoute) {
    route.dest.Prefix? && route.dest.net.ip == 0 && route.dest.net.prefix == 0
  }

  /** The test the collector runs on two networks: does either hold the first or the last
      address of the other? */
  predicate NetOverlaps(n1: IPNet, n2: IPNet) {
    if n1.Contains(n2.FirstIP()) || n1.Contains(n2.LastIP()) then true
    else n2.Contains(n1.FirstIP()) || n2.Contains(n1.LastIP())
  }

  /** The four membership tests decide whether the address sets meet, whatever addresses
      inside the two blocks the networks were written with. */
  lemma NetOverlapsIsExact(n1: IPNet, n2: IPNet)
    ensures NetOverlaps(n1, n2) <==> Intersects(n1, n2)
    ensures Intersects(n1, n2) <==> Within(n1, n2) || Within(n2, n1)
  {
    LastIsInside(n1);
    LastIsInside(n2);
    assert n1.Contains(n1.ip) && n2.Contains(n2.ip);
    if n1.prefix <= n2.prefix {
      NestedOrDisjoint(n1, n2);
    } else {
      NestedOrDisjoint(n2, n1);
    }
  }

  lemma LastIsInside(n: IPNet)
    ensures n.Contains(n.LastIP())
  {
    QuotIs(n.LastIP(), Size(n.prefix), n.Index());
  }

  /** The same test of a route's network. A mask that is not that of a prefix length has no size, so
      cidr.AddressRange gives the network's own address as its first and its last. */
  predicate Overlaps(network: Network, block: IPNet) {
    match network
    case Prefix(net) => NetOverlaps(net, block)
    case Scattered(ip, holds) => holds(block.FirstIP()) || holds(block.LastIP()) || block.Contains(ip)
  }

  /** A route is in the way of a block: it shares an address with the block or, if its mask is not
      that of a prefix length, it holds an end of the block or has its own address in it. */
  ghost predicate InTheWay(network: Network, block: IPNet) {
    match network
    case Prefix(net) => Intersects(net, block)
    case Scattered(ip, holds) => holds(block.ip) || holds(block.LastIP()) || block.Contains(ip)
  }

  /** No route other than a default route is in the way. */
  ghost predicate Free(block: IPNet, routes: seq<SystemRoute>) {
    forall i :: 0 <= i < |routes| && !IsDefault(routes[i]) ==> !InTheWay(routes[i].dest, block)
  }

  /** A route is passed over exactly when it is 0.0.0.0/0 or is not in the way. */
  lemma PassedOverIff(block: IPNet, route: SystemRoute)
    ensures Free(block, [route]) <==> route.dest == Prefix(IPNet(0, 0)) || !InTheWay(route.dest, block)
  {
    assert [route][0] == route;
  }

  /** A block is free of a table exactly when it is free of each of its parts, ... */
  lemma FreeOfParts(block: IPNet, a: seq<SystemRoute>, b: seq<SystemRoute>)
    ensures Free(block, a + b) <==> Free(block, a) && Free(block, b)
  {
    var all := a + b;
    assert forall i :: 0 <= i < |a| ==> all[i] == a[i];
    assert forall i :: 0 <= i < |b| ==> all[|a| + i] == b[i];
  }

  /** ... so a default route changes no answer, wherever it stands in the table, and any other route
      takes the blocks that it is in the way of. */
  lemma OneRouteMore(range: IPNet, d: PrefixLen, a: seq<SystemRoute>, route: SystemRoute, b: seq<SystemRoute>)
    ensures route.dest == Prefix(IPNet(0, 0)) ==>
              (SomeOfferedBlockIsFree(range, d, a + [route] + b) <==> SomeOfferedBlockIsFree(range, d, a + b))
    ensures route.dest != Prefix(IPNet(0, 0)) ==>
              (SomeOfferedBlockIsFree(range, d, a + [route] + b) <==>
               exists block: IPNet :: Offered(range, d, block) && Free(block, a + b) && !InTheWay(route.dest, block))
  {
    forall block: IPNet
      ensures Free(block, a + [route] + b) <==>
              Free(block, a + b) && (route.dest == Prefix(IPNet(0, 0)) || !InTheWay(route.dest, block))
    {
      FreeOfParts(block, a + [route], b);
      FreeOfParts(block, a, [route]);
      FreeOfParts(block, a, b);
      PassedOverIff(block, route);
    }
  }

  /** A route whose mask is not that of a prefix length is never in the way of a block with which it
      shares no address. */
  lemma ScatteredSharesAnAddress(ip: Addr, holds: Addr -> bool, block: IPNet)
    requires holds(ip) && InTheWay(Scattered(ip, holds), block)
    ensures exists a: Addr :: holds(a) && block.Contains(a)
  {
    LastIsInside(block);
    assert block.Contains(block.ip);
  }

  lemma OverlapsIsInTheWay(network: Network, block: IPNet)
    ensures Overlaps(network, block) <==> InTheWay(network, block)
  {
    if network.Prefix? {
      NetOverlapsIsExact(network.net, block);
    }
  }

  /** The index of the first route in the way, if any. */
  method FindFirstOverlappingRoute(subnet: IPNet, routes: seq<SystemRoute>) returns (found: Option<nat>)
    ensures found.None? <==> Free(subnet, routes)
    ensures found.Some? ==>
              && found.value < |routes|
              && !IsDefault(routes[found.value])
              && InTheWay(routes[found.value].dest, subnet)
              && Free(subnet, routes[..found.value])
  {
    for i := 0 to |routes|
      invariant Free(subnet, routes[..i])
    {
      if !IsDefault(routes[i]) {
        OverlapsIsInTheWay(routes[i].dest, subnet);
        if Overlaps(routes[i].dest, subnet) {
          return Some(i);
        }
      }
      assert routes[..i + 1] == routes[..i] + [routes[i]];
    }
    assert routes[..|routes|] == routes;
    return None;
  }

  /** What Mask.Size reports: 32 bits for a contiguous IPv4 mask, something else otherwise. */
  datatype Mask = IPv4Mask(ones: PrefixLen) | OtherMask

  datatype Outcome =
    | InvalidSize
    | NotIPv4
    | RangeTooSmall
    | Available(available: bool)
    | Searching  // the iterations allowed were used up before the loop ended

  /** The blocks of length d inside the range that the search ever looks at: for a range
      other than /0, those from the block that holds the range's own address onwards. */
  ghost predicate Offered(range: IPNet, d: PrefixLen, block: IPNet) {
    && block == BlockOf(block.ip, d)
    && Within(block, range)
    && (range.prefix == 0 || BlockOf(range.ip, d).ip <= block.ip)
  }

  ghost predicate SomeOfferedBlockIsFree(range: IPNet, d: PrefixLen, routes: seq<SystemRoute>) {
    exists block: IPNet :: Offered(range, d, block) && Free(block, routes)
  }

  /** The index of the block the search starts with. */
  function Start(range: IPNet, d: PrefixLen): (k: nat)
    ensures k < Pow2(d)
  {
    BlockOf(range.ip, d).IndexBounds();
    BlockOf(range.ip, d).Index()
  }

  /** The index of the i-th block the search looks at, wrapping from the top to 0. */
  function NthIndex(range: IPNet, d: PrefixLen, i: nat): (k: nat)
    requires i < Pow2(d)
    ensures k < Pow2(d)
  {
    var k := Start(range, d) + i;
    if k < Pow2(d) then k else k - Pow2(d)
  }

  function Nth(range: IPNet, d: PrefixLen, i: nat): (b: IPNet)
    requires i < Pow2(d)
    ensures b.prefix == d && b.Index() == NthIndex(range, d, i)
  {
    Block(NthIndex(range, d, i), d)
  }

  /** How many blocks there are to look at before the range is left, or all of them seen. */
  function Count(range: IPNet, d: PrefixLen): (n: nat)
    requires range.prefix <= d
    ensures 0 < n <= Pow2(d - range.prefix) <= Pow2(d)
    ensures range.prefix == 0 ==> n == Pow2(d)
  {
    RangeInterval(range, d);
    if range.prefix == 0 then Pow2(d)
    else Times(range.Index() + 1, Pow2(d - range.prefix)) - Start(range, d)
  }

  /** The i-th block lies in the range and some route is in its way. */
  ghost predicate Taken(range: IPNet, d: PrefixLen, routes: seq<SystemRoute>, i: nat)
    requires i < Pow2(d)
  {
    Within(Nth(range, d, i), range) && !Free(Nth(range, d, i), routes)
  }

  ghost predicate AllTaken(range: IPNet, d: PrefixLen, routes: seq<SystemRoute>, n: nat)
    requires n <= Pow2(d)
  {
    forall i: nat :: i < n ==> Taken(range, d, routes, i)
  }

  /** Blocks of length d inside a /s range are those with indices in one interval. */
  lemma InsideRange(range: IPNet, b: IPNet)
    requires range.prefix <= b.prefix
    ensures Within(b, range) <==> range.Contains(b.FirstIP()) && range.Contains(b.LastIP())
    ensures var parts := Pow2(b.prefix - range.prefix);
            Within(b, range) <==> Times(range.Index(), parts) <= b.Index() < Times(range.Index() + 1, parts)
  {
    assert b.Contains(b.ip);
    LastIsInside(b);
    NestedOrDisjoint(range, b);
    OuterIndex(b.ip, range.prefix, b.prefix);
    QuotIs(b.Index(), Pow2(b.prefix - range.prefix), range.Index());
  }

  /** The search starts inside that interval; for /0 the interval is everything, and for any
      other range it does not hold index 0 when it reaches the top. */
  lemma RangeInterval(range: IPNet, d: PrefixLen)
    requires range.prefix <= d
    ensures var parts, lo := Pow2(d - range.prefix), Times(range.Index(), Pow2(d - range.prefix));
            && lo <= Start(range, d) < lo + parts <= Pow2(d)
            && lo + parts == Times(range.Index() + 1, parts)
            && (range.prefix == 0 ==> lo == 0 && parts == Pow2(d))
            && (range.prefix >= 1 && lo + parts == Pow2(d) ==> 0 < lo)
  {
    var parts := Pow2(d - range.prefix);
    range.IndexBounds();
    Step(range.Index(), Pow2(range.prefix), parts);
    Pow2Adds(range.prefix, d - range.prefix);
    OuterIndex(range.ip, range.prefix, d);
    assert BlockOf(range.ip, d).Index() == Quot(range.ip, Size(d));
    QuotIs(Start(range, d), parts, range.Index());
    if range.Index() >= 1 {
      Step(0, range.Index(), parts);
    } else if range.prefix >= 1 {
      Step(1, Pow2(range.prefix), parts);
    }
  }

  /** Blocks of one length are ordered alike by index and by first address. */
  lemma SameOrder(b: IPNet, c: IPNet)
    requires b == BlockOf(b.ip, b.prefix) && c == BlockOf(c.ip, c.prefix) && b.prefix == c.prefix
    ensures b.Index() <= c.Index() <==> b.ip <= c.ip
  {
    var j, k := b.Index(), c.Index();
    if j < k {
      Step(j, k, Size(b.prefix));
    } else if k < j {
      Step(k, j, Size(b.prefix));
    }
  }

  lemma IndexOf(range: IPNet, d: PrefixLen, k: nat) returns (i: nat)
    requires k < Pow2(d)
    ensures i < Pow2(d) && NthIndex(range, d, i) == k
    ensures Start(range, d) <= k ==> i == k - Start(range, d)
  {
    var start := Start(range, d);
    i := if start <= k then k - start else k + Pow2(d) - start;
  }

  /** Every offered block is one of the first Count blocks of the search ... */
  lemma OfferedIsNth(range: IPNet, d: PrefixLen, block: IPNet) returns (i: nat)
    requires range.prefix <= d && Offered(range, d, block)
    ensures i < Count(range, d) && block == Nth(range, d, i)
  {
    Canonical(block);
    Canonical(BlockOf(range.ip, d));
    InsideRange(range, block);
    RangeInterval(range, d);
    SameOrder(BlockOf(range.ip, d), block);
    i := IndexOf(range, d, block.Index());
  }

  /** ... and each of those is offered. */
  lemma NthIsOffered(range: IPNet, d: PrefixLen, i: nat)
    requires range.prefix <= d && i < Count(range, d)
    ensures Offered(range, d, Nth(range, d, i))
  {
    var b := Nth(range, d, i);
    RangeInterval(range, d);
    InsideRange(range, b);
    BlockOfItsFirst(b.Index(), d);
    SameOrder(BlockOf(range.ip, d), b);
    b.IndexBounds();
  }

  lemma AllTakenMeansNoneFree(range: IPNet, d: PrefixLen, routes: seq<SystemRoute>)
    requires range.prefix <= d
    requires AllTaken(range, d, routes, Count(range, d))
    ensures !SomeOfferedBlockIsFree(range, d, routes)
  {
    forall block: IPNet | Offered(range, d, block)
      ensures !Free(block, routes)
    {
      var i := OfferedIsNth(range, d, block);
      assert Taken(range, d, routes, i);
    }
  }

  /** Moving on from the i-th block leads to the next one ... */
  lemma Advance(range: IPNet, d: PrefixLen, i: nat)
    requires i + 1 < Pow2(d)
    ensures NextSubnet(Nth(range, d, i), d) == Nth(range, d, i + 1)
  {
    NextSubnetWraps(NthIndex(range, d, i), d);
    NextIndexIsNth(range, d, i);
  }

  lemma NextIndexIsNth(range: IPNet, d: PrefixLen, i: nat)
    requires i + 1 < Pow2(d)
    ensures NextIndex(NthIndex(range, d, i), d) == NthIndex(range, d, i + 1)
  {
  }

  /** ... and from the last one out of the range. */
  lemma AdvanceOut(range: IPNet, d: PrefixLen, last: IPNet)
    requires 1 <= range.prefix <= d && last == Nth(range, d, Count(range, d) - 1)
    ensures !Within(NextSubnet(last, d), range)
  {
    NextSubnetWraps(last.Index(), d);
    RangeInterval(range, d);
    InsideRange(range, NextSubnet(last, d));
  }

  ghost predicate SomeBlockIsFree(range: IPNet, d: PrefixLen, routes: seq<SystemRoute>) {
    exists block: IPNet :: block == BlockOf(block.ip, d) && Within(block, range) && Free(block, routes)
  }

  /** The search starts with the first block of the range: masked to /d, the range's address is the
      range's first address. A search of /0 comes round to every block wherever it starts. */
  predicate StartsInFront(range: IPNet, d: PrefixLen)
    requires range.prefix <= d
  {
    range.prefix == 0 || BlockOf(range.ip, d).ip == BlockOf(range.ip, range.prefix).ip
  }

  /** The two ways to tell where the search starts, by address and by index. */
  lemma FrontByIndex(range: IPNet, d: PrefixLen)
    requires 1 <= range.prefix <= d
    ensures StartsInFront(range, d) <==> Start(range, d) == Times(range.Index(), Pow2(d - range.prefix))
    ensures Times(range.Index(), Pow2(d - range.prefix)) <= Start(range, d)
  {
    var lo, size: nat := Times(range.Index(), Pow2(d - range.prefix)), Size(d);
    RangeInterval(range, d);
    Pow2Adds(d - range.prefix, 32 - d);
    TimesAssociates(range.Index(), Pow2(d - range.prefix), size);
    assert BlockOf(range.ip, range.prefix).ip == Times(lo, size);
    assert BlockOf(range.ip, d).ip == Times(Start(range, d), size);
    if lo < Start(range, d) {
      Step(lo, Start(range, d), size);
    }
  }

  /** Then the search answers the question that was asked, whatever the routes: is there a free
      block of length d anywhere in the range? */
  lemma FrontIsExact(range: IPNet, d: PrefixLen, routes: seq<SystemRoute>)
    requires range.prefix <= d && StartsInFront(range, d)
    ensures SomeOfferedBlockIsFree(range, d, routes) <==> SomeBlockIsFree(range, d, routes)
  {
    forall block: IPNet | block == BlockOf(block.ip, d) && Within(block, range)
      ensures Offered(range, d, block)
    {
      if range.prefix >= 1 {
        FrontByIndex(range, d);
        InsideRange(range, block);
        SameOrder(BlockOf(range.ip, d), block);
      }
    }
  }

  /** One route for each block of length d from block k on. */
  function RoutesFrom(k: nat, d: PrefixLen): (routes: seq<SystemRoute>)
    requires k < Pow2(d)
    ensures |routes| == Pow2(d) - k
    ensures forall i :: 0 <= i < |routes| ==> routes[i].dest == Prefix(Block(k + i, d))
  {
    seq(Pow2(d) - k, i requires 0 <= i < Pow2(d) - k => SystemRoute("", Prefix(Block(k + i, d)), 0, 0))
  }

  lemma FreeBeforeThem(j: nat, k: nat, d: PrefixLen)
    requires j < k < Pow2(d)
    ensures Free(Block(j, d), RoutesFrom(k, d))
  {
    var routes := RoutesFrom(k, d);
    forall i | 0 <= i < |routes|
      ensures !InTheWay(routes[i].dest, Block(j, d))
    {
      assert routes[i].dest.net.Index() == k + i;
    }
  }

  lemma TakenFromThemOn(j: nat, k: nat, d: PrefixLen)
    requires 1 <= d && k <= j < Pow2(d)
    ensures !Free(Block(j, d), RoutesFrom(k, d))
  {
    var routes, i := RoutesFrom(k, d), j - k;
    assert routes[i].dest == Prefix(Block(k + i, d));
    MeetsItself(Block(j, d));
    assert !IsDefault(routes[i]);
  }

  lemma MeetsItself(block: IPNet)
    ensures Intersects(block, block)
  {
    assert block.Contains(block.ip);
  }

  /** Otherwise there are routes with which it does not: one for each block from the start on. */
  lemma OtherAddressMisses(range: IPNet, d: PrefixLen) returns (routes: seq<SystemRoute>)
    requires range.prefix <= d && !StartsInFront(range, d)
    ensures SomeBlockIsFree(range, d, routes) && !SomeOfferedBlockIsFree(range, d, routes)
  {
    var lo: nat, start: nat := Times(range.Index(), Pow2(d - range.prefix)), Start(range, d);
    FrontByIndex(range, d);
    routes := RoutesFrom(start, d);
    forall block: IPNet | Offered(range, d, block)
      ensures !Free(block, routes)
    {
      SameOrder(BlockOf(range.ip, d), block);
      Canonical(block);
      TakenFromThemOn(block.Index(), start, d);
    }
    FreeBeforeThem(lo, start, d);
    FirstBlockOfTheRange(range, d, lo);
  }

  lemma FirstBlockOfTheRange(range: IPNet, d: PrefixLen, lo: nat)
    requires range.prefix <= d && lo == Times(range.Index(), Pow2(d - range.prefix)) && lo < Pow2(d)
    ensures var block := Block(lo, d);
            block == BlockOf(block.ip, d) && Within(block, range)
  {
    BlockOfItsFirst(lo, d);
    InsideRange(range, Block(lo, d));
  }

  /** So the search is right for every route table exactly when it starts in front. */
  lemma SearchIsExactIff(range: IPNet, d: PrefixLen)
    requires range.prefix <= d
    ensures (forall routes :: SomeOfferedBlockIsFree(range, d, routes) <==> SomeBlockIsFree(range, d, routes)) <==>
            StartsInFront(range, d)
  {
    if StartsInFront(range, d) {
      forall routes
        ensures SomeOfferedBlockIsFree(range, d, routes) <==> SomeBlockIsFree(range, d, routes)
      {
        FrontIsExact(range, d, routes);
      }
    } else {
      var routes := OtherAddressMisses(range, d);
    }
  }

  /** In particular it is right for a range given by its network address. */
  lemma NetworkAddressIsExact(range: IPNet, d: PrefixLen, routes: seq<SystemRoute>)
    requires range.prefix <= d && range == BlockOf(range.ip, range.prefix)
    ensures StartsInFront(range, d)
    ensures SomeOfferedBlockIsFree(range, d, routes) <==> SomeBlockIsFree(range, d, routes)
  {
    if range.prefix >= 1 {
      BlockOf(range.ip, d).IndexBounds();
      Pow2Adds(d - range.prefix, 32 - d);
      TimesAssociates(range.Index(), Pow2(d - range.prefix), Size(d));
      QuotIs(range.ip, Size(d), Times(range.Index(), Pow2(d - range.prefix)));
    }
    FrontIsExact(range, d, routes);
  }

  /** 0.0.0.128/24 with the route 0.0.0.128/25: 0.0.0.0/25 is free and is not found. */
  lemma OtherAddressMissesOne()
    ensures var range := IPNet(128, 24);
            var routes := [SystemRoute("eth0", Prefix(IPNet(128, 25)), 0, 0)];
            SomeBlockIsFree(range, 25, routes) && !SomeOfferedBlockIsFree(range, 25, routes)
  {
    var range, used, free := IPNet(128, 24), IPNet(128, 25), IPNet(0, 25);
    var routes := [SystemRoute("eth0", Prefix(used), 0, 0)];
    assert Size(24) == 256 && Size(25) == 128;
    assert Quot(0, 256) == Quot(128, 256) == 0 && Quot(0, 128) == 0 && Quot(128, 128) == 1;
    NestedOrDisjoint(range, free);
    NestedOrDisjoint(used, free);
    assert free == BlockOf(0, 25) && Within(free, range) && Free(free, routes);
    forall block: IPNet | Offered(range, 25, block)
      ensures !Free(block, routes)
    {
      InsideRange(range, block);
      assert Times(1, 2) == 2 && Times(0, 2) == 0 && Pow2(1) == 2;
      SameOrder(BlockOf(128, 25), block);
      assert used.Contains(block.ip) && block.Contains(block.ip);
      assert InTheWay(routes[0].dest, block);
    }
  }

  /** What a search allowed the given number of iterations answers. */
  ghost predicate Decided(range: IPNet, d: PrefixLen, routes: seq<SystemRoute>, iterations: nat, r: Outcome)
    requires range.prefix <= d
  {
    && (r == Available(true) ==> SomeOfferedBlockIsFree(range, d, routes))
    && (r == Available(false) ==> range.prefix >= 1 && !SomeOfferedBlockIsFree(range, d, routes))
    && (r == Searching ==> forall i: nat :: i < iterations && i < Count(range, d) ==> Taken(range, d, routes, i))
    && (range.prefix >= 1 && Pow2(d - range.prefix) < iterations ==> r != Searching)
    && (range.prefix == 0 && Pow2(d) <= iterations ==>
          (r == Searching <==> !SomeOfferedBlockIsFree(range, d, routes)))
    && (range.prefix == 0 && !SomeOfferedBlockIsFree(range, d, routes) ==> r == Searching)
    && (r.Available? || r.Searching?)
  }

  /** The state of the loop: the blocks seen so far, all taken, and the one to look at next. */
  ghost predicate Progress(range: IPNet, d: PrefixLen, routes: seq<SystemRoute>, subnet: IPNet, seen: nat)
    requires range.prefix <= d
  {
    && seen <= Count(range, d)
    && subnet == BlockOf(subnet.ip, d)
    && (seen < Count(range, d) ==> subnet == Nth(range, d, seen))
    && (range.prefix >= 1 && seen == Count(range, d) ==> !Within(subnet, range))
    && AllTaken(range, d, routes, seen)
  }

  lemma ProgressStarts(range: IPNet, d: PrefixLen, routes: seq<SystemRoute>)
    requires range.prefix <= d
    ensures Progress(range, d, routes, BlockOf(range.ip, d), 0)
  {
    RangeInterval(range, d);
    Canonical(BlockOf(range.ip, d));
  }

  lemma ProgressStops(range: IPNet, d: PrefixLen, routes: seq<SystemRoute>, subnet: IPNet, seen: nat)
    requires range.prefix <= d && Progress(range, d, routes, subnet, seen)
    ensures seen == Count(range, d) ==> !SomeOfferedBlockIsFree(range, d, routes)
    ensures !Within(subnet, range) ==> range.prefix >= 1 && seen == Count(range, d)
  {
    if seen == Count(range, d) {
      AllTakenMeansNoneFree(range, d, routes);
    } else {
      NthIsOffered(range, d, seen);
    }
    InsideRange(range, subnet);
    RangeInterval(range, d);
    subnet.IndexBounds();
  }

  lemma ProgressFinds(range: IPNet, d: PrefixLen, routes: seq<SystemRoute>, subnet: IPNet, seen: nat)
    requires range.prefix <= d && Progress(range, d, routes, subnet, seen) && Within(subnet, range)
    ensures Offered(range, d, subnet)
  {
    if seen < Count(range, d) {
      NthIsOffered(range, d, seen);
    }
  }

  lemma OneMoreTaken(range: IPNet, d: PrefixLen, routes: seq<SystemRoute>, n: nat)
    requires n < Pow2(d) && AllTaken(range, d, routes, n) && Taken(range, d, routes, n)
    ensures AllTaken(range, d, routes, n + 1)
  {
  }

  lemma ProgressGoesOn(range: IPNet, d: PrefixLen, routes: seq<SystemRoute>, subnet: IPNet, seen: nat, more: nat)
    requires range.prefix <= d && Progress(range, d, routes, subnet, seen)
    requires Within(subnet, range) && !Free(subnet, routes)
    requires more == if seen < Count(range, d) then seen + 1 else seen
    ensures Progress(range, d, routes, NextSubnet(subnet, d), more)
  {
    var count := Count(range, d);
    BlockOfIsCanonical(Inc(subnet.LastIP()), d);
    if seen < count {
      OneMoreTaken(range, d, routes, seen);
      if more < count {
        Advance(range, d, seen);
      } else if range.prefix >= 1 {
        AdvanceOut(range, d, subnet);
      }
    }
  }

  method SearchFrom(range: IPNet, d: PrefixLen, routes: seq<SystemRoute>, iterations: nat) returns (r: Outcome)
    requires range.prefix <= d
    ensures Decided(range, d, routes, iterations, r)
  {
    var subnet := BlockOf(range.FirstIP(), d);
    ProgressStarts(range, d, routes);
    ghost var seen: nat := 0;
    var left := iterations;
    while left > 0
      invariant left <= iterations
      invariant Progress(range, d, routes, subnet, seen)
      invariant seen == iterations - left || (range.prefix == 0 && seen == Count(range, d))
    {
      InsideRange(range, subnet);
      ProgressStops(range, d, routes, subnet, seen);
      if !range.Contains(subnet.FirstIP()) || !range.Contains(subnet.LastIP()) {
        return Available(false);
      }
      var route := FindFirstOverlappingRoute(subnet, routes);
      if route == None {
        ProgressFinds(range, d, routes, subnet, seen);
        return Available(true);
      }
      ghost var more := if seen < Count(range, d) then seen + 1 else seen;
      ProgressGoesOn(range, d, routes, subnet, seen, more);
      seen := more;
      subnet := NextSubnet(subnet, d);
      left := left - 1;
    }
    ProgressStops(range, d, routes, subnet, seen);
    return Searching;
  }

  /** The loop of isASubnetAvailableInCIDR, cut off after a number of iterations. The outcome
      is Available(true) exactly when some offered block is free. With a range other than /0
      the loop ends after looking at no more than the 2^(d-s) blocks of the range; with /0 it
      ends exactly when a free block exists. */
  method IsASubnetAvailableInCIDR(cidrRange: int, ip: Addr, mask: Mask, routes: seq<SystemRoute>, iterations: nat)
    returns (r: Outcome)
    ensures r.InvalidSize? <==> cidrRange < 1 || cidrRange > 32
    ensures r.NotIPv4? <==> 1 <= cidrRange <= 32 && mask.OtherMask?
    ensures r.RangeTooSmall? <==> 1 <= cidrRange <= 32 && mask.IPv4Mask? && mask.ones > cidrRange
    ensures 1 <= cidrRange <= 32 && mask.IPv4Mask? && mask.ones <= cidrRange ==>
              Decided(IPNet(ip, mask.ones), cidrRange, routes, iterations, r)
  {
    if cidrRange < 1 || cidrRange > 32 {
      return InvalidSize;
    }
    if mask.OtherMask? {
      return NotIPv4;
    }
    if mask.ones > cidrRange {
      return RangeTooSmall;
    }
    r := SearchFrom(IPNet(ip, mask.ones), cidrRange, routes, iterations);
  }
}
