/** The subnet collector from the text of the route table to its verdict:
    CollectHostSubnetAvailable.Collect in pkg/collect/host_subnetavailable.go. */
module SubnetAvailable {
  import opened Options
  import opened Ipv4
  import opened SubnetSearch
  import Text
  import ProcNetRoute

  /** net.CIDRMask(p, 32) as a number: p ones followed by zeros. */
  function MaskOf(p: PrefixLen): (mask: Addr)
    ensures mask == ADDRESSES - Size(p)
  {
    BlocksFillTheSpace(p);
    Step(0, Pow2(p), Size(p));
    ADDRESSES - Size(p)
  }

  /** The least p, from the given one on, whose mask this is. */
  function PrefixFrom(mask: Addr, p: PrefixLen): (r: Option<PrefixLen>)
    ensures r.Some? ==> p <= r.value && MaskOf(r.value) == mask
    decreases 32 - p
  {
    if MaskOf(p) == mask then Some(p)
    else if p == 32 then None
    else PrefixFrom(mask, p + 1)
  }

  lemma {:induction false} SizeShrinks(p: PrefixLen, q: PrefixLen)
    requires p < q
    ensures Size(q) < Size(p)
    decreases q - p
  {
    assert Size(p) == Size(p + 1) + Size(p + 1);
    if p + 1 < q {
      SizeShrinks(p + 1, q);
    }
  }

  /** A prefix length and its mask determine each other. */
  lemma {:induction false} PrefixOfMask(p: PrefixLen, from: PrefixLen)
    requires from <= p
    ensures PrefixFrom(MaskOf(p), from) == Some(p)
    decreases p - from
  {
    if from < p {
      SizeShrinks(from, p);
      PrefixOfMask(p, from + 1);
    }
  }

  /** The numbers agree on the bits of the mask: net.IPNet.Contains. */
  predicate Agree(a: nat, b: nat, mask: nat) {
    mask == 0 || ((mask % 2 == 1 ==> a % 2 == b % 2) && Agree(a / 2, b / 2, mask / 2))
  }

  function Bit(n: nat, k: nat): nat {
    if k == 0 then n % 2 else Bit(n / 2, k - 1)
  }

  /** That is: wherever the mask has a one. */
  lemma AgreeIsBitwise(a: nat, b: nat, mask: nat)
    ensures Agree(a, b, mask) <==> forall k: nat :: Bit(mask, k) == 1 ==> Bit(a, k) == Bit(b, k)
  {
    if Agree(a, b, mask) {
      forall k: nat
        ensures Bit(mask, k) == 1 ==> Bit(a, k) == Bit(b, k)
      {
        AgreeingBits(a, b, mask, k);
      }
    } else {
      var k := OtherBit(a, b, mask);
    }
  }

  lemma {:induction false} AgreeingBits(a: nat, b: nat, mask: nat, k: nat)
    requires Agree(a, b, mask)
    ensures Bit(mask, k) == 1 ==> Bit(a, k) == Bit(b, k)
  {
    if mask == 0 {
      NoBits(k);
    } else if k > 0 {
      AgreeingBits(a / 2, b / 2, mask / 2, k - 1);
    }
  }

  lemma {:induction false} OtherBit(a: nat, b: nat, mask: nat) returns (k: nat)
    requires !Agree(a, b, mask)
    ensures Bit(mask, k) == 1 && Bit(a, k) != Bit(b, k)
    decreases mask
  {
    if mask % 2 == 1 && a % 2 != b % 2 {
      k := 0;
    } else {
      k := OtherBit(a / 2, b / 2, mask / 2);
      k := k + 1;
    }
  }

  lemma {:induction false} NoBits(k: nat)
    ensures Bit(0, k) == 0
  {
    if k > 0 {
      NoBits(k - 1);
    }
  }

  /** Ones in n places agree on numbers of n bits that are equal. */
  lemma {:induction false} AgreeOnOnes(a: nat, b: nat, n: nat)
    requires a < Pow2(n) && b < Pow2(n)
    ensures Agree(a, b, Pow2(n) - 1) <==> a == b
  {
    if n > 0 {
      assert (Pow2(n) - 1) / 2 == Pow2(n - 1) - 1 && (Pow2(n) - 1) % 2 == 1;
      AgreeOnOnes(a / 2, b / 2, n - 1);
    }
  }

  /** n ones with h zeros behind them agree when the numbers do without their last h bits. */
  lemma {:induction false} AgreeOnPrefix(a: nat, b: nat, n: nat, h: nat)
    requires a < Pow2(n + h) && b < Pow2(n + h)
    ensures Pow2(h) <= Pow2(n + h) && (Agree(a, b, Pow2(n + h) - Pow2(h)) <==> Quot(a, Pow2(h)) == Quot(b, Pow2(h)))
  {
    if h == 0 {
      AgreeOnOnes(a, b, n);
      QuotByOne(a);
      QuotByOne(b);
    } else {
      AgreeOnPrefix(a / 2, b / 2, n, h - 1);
      AgreeOnDouble(a, b, Pow2(n + h - 1) - Pow2(h - 1));
      QuotByHalf(a, h);
      QuotByHalf(b, h);
    }
  }

  lemma AgreeOnDouble(a: nat, b: nat, half: nat)
    ensures Agree(a, b, half + half) <==> Agree(a / 2, b / 2, half)
  {
    assert (half + half) / 2 == half && (half + half) % 2 == 0;
  }

  lemma QuotByOne(a: nat)
    ensures Pow2(0) == 1 && Quot(a, 1) == a
  {
    TimesIsProduct(a, 1);
    QuotIs(a, 1, a);
  }

  /** The last h bits can be dropped one at a time. */
  lemma QuotByHalf(a: nat, h: nat)
    requires h > 0
    ensures Quot(a, Pow2(h)) == Quot(a / 2, Pow2(h - 1))
  {
    var m := Pow2(h - 1);
    TimesIsProduct(m, 2);
    TimesIsProduct(a / 2, 2);
    QuotIs(a, 2, a / 2);
    QuotOfQuot(a, m, 2);
  }

  /** So a network with the mask of a prefix length holds the addresses of its block. */
  lemma MaskHoldsTheBlock(ip: Addr, p: PrefixLen, a: Addr)
    ensures Agree(a, ip, MaskOf(p)) <==> IPNet(ip, p).Contains(a)
  {
    var n: nat, h: nat := p, 32 - p;
    Pow2Is32();
    assert n + h == 32;
    AgreeOnPrefix(a, ip, n, h);
  }

  /** A parsed route as the search sees it. */
  function SystemRouteOf(route: ProcNetRoute.Route): SystemRoute {
    var dest :=
      match PrefixFrom(route.mask, 0)
      case None => Scattered(route.ip, (a: Addr) => Agree(a, route.ip, route.mask))
      case Some(p) => Prefix(IPNet(route.ip, p));
    SystemRoute(route.iface, dest, route.gateway, route.metric)
  }

  /** A route is in the way of a block, as the search sees it, when some address of the block agrees with
      its own on the bits of its mask, if that is the mask of a prefix length; if it is not, when the
      first or the last one does or its own address is in the block. */
  lemma RouteIsInTheWayIff(route: ProcNetRoute.Route, block: IPNet)
    ensures var r, agrees := SystemRouteOf(route), (a: Addr) => Agree(a, route.ip, route.mask);
            InTheWay(r.dest, block) <==>
            if exists p: PrefixLen :: MaskOf(p) == route.mask then exists a: Addr :: agrees(a) && block.Contains(a)
            else agrees(block.FirstIP()) || agrees(block.LastIP()) || block.Contains(route.ip)
  {
    if p: PrefixLen :| MaskOf(p) == route.mask {
      PrefixOfMask(p, 0);
      forall a: Addr
        ensures Agree(a, route.ip, route.mask) <==> IPNet(route.ip, p).Contains(a)
      {
        MaskHoldsTheBlock(route.ip, p, a);
      }
    }
  }

  function SystemRoutesOf(routes: seq<ProcNetRoute.Route>): (r: seq<SystemRoute>)
    ensures |r| == |routes|
  {
    if routes == [] then [] else [SystemRouteOf(routes[0])] + SystemRoutesOf(routes[1..])
  }

  /** A row whose mask is that of a prefix length is read as the route with that length, if it is
      read at all. */
  lemma PrintedMaskIsRead(row: ProcNetRoute.Row, p: PrefixLen)
    requires ProcNetRoute.Printable(row) && row.mask == MaskOf(p)
    ensures var line := ProcNetRoute.ParseLine(ProcNetRoute.PrintRow(row));
            && (line.Parsed? <==> !ProcNetRoute.LooksLikeHeading(row))
            && (line.Parsed? ==>
                  SystemRouteOf(line.route) ==
                  SystemRoute(row.iface, Prefix(IPNet(row.dest, p)), row.gateway, row.metric % 0x1_0000_0000))
  {
    ProcNetRoute.ParsePrintedRow(row);
    PrefixOfMask(p, 0);
  }

  datatype Collected =
    | TableError(error: ProcNetRoute.Error)
    | Crash
    | NilNil           // no data and no error
    | MaskError        // the mask of the range is no integer
    | SearchError      // the search refused its arguments
    | Status(available: bool)
    | StillSearching

  /** A status that is given says whether an offered block is free, and the search gives one in time. */
  ghost predicate Answers(range: IPNet, d: PrefixLen, routes: seq<SystemRoute>, iterations: nat, r: Collected)
    requires range.prefix <= d
  {
    && (r.Status? || r.StillSearching?)
    && (r.Status? ==> (r.available <==> SomeOfferedBlockIsFree(range, d, routes)))
    && (range.prefix >= 1 && Pow2(d - range.prefix) < iterations ==> r.Status?)
    && (range.prefix == 0 && Pow2(d) <= iterations ==> (r.Status? <==> SomeOfferedBlockIsFree(range, d, routes)))
  }

  /** Collect. parseIP reads the address of the range; where there is none, computing the extents of
      the range panics, or for a single address the missing one cannot be parsed. The size checks wrap
      the nil error left over from the steps before them, and wrapping nil gives nil: a size out of
      range, or a range that is not two pieces, is reported as neither data nor error. */
  method Collect(procNetRoute: string, desiredCIDR: int, cidrRangeAlloc: string, parseIP: string -> Option<Addr>,
                 iterations: nat)
    returns (r: Collected)
    ensures var table := ProcNetRoute.ParseLines(Text.Split(procNetRoute, '\n'));
            match table
            case Failed(error) => r == TableError(error)
            case Panicked => r == Crash
            case Routes(routes) =>
              var pieces := Text.Split(cidrRangeAlloc, '/');
              if desiredCIDR < 1 || desiredCIDR > 32 || |pieces| != 2 then r == NilNil
              else if Text.Atoi(pieces[1]).None? then r == MaskError
              else
                var maskInt := Text.Atoi(pieces[1]).value;
                if maskInt < 0 || maskInt > 32 then r == NilNil
                else if maskInt > desiredCIDR then r == SearchError
                else
                  match parseIP(pieces[0])
                  case None => r == if maskInt == 32 then SearchError else Crash
                  case Some(ip) => Answers(IPNet(ip, maskInt), desiredCIDR, SystemRoutesOf(routes), iterations, r)
  {
    var table := ProcNetRoute.ParseProcNetRoute(procNetRoute);
    if table.Failed? {
      return TableError(table.error);
    }
    if table.Panicked? {
      return Crash;
    }
    if desiredCIDR < 1 || desiredCIDR > 32 {
      return NilNil;
    }
    var pieces := Text.Split(cidrRangeAlloc, '/');
    if |pieces| != 2 {
      return NilNil;
    }
    var mask := Text.Atoi(pieces[1]);
    if mask.None? {
      return MaskError;
    }
    if mask.value < 0 || mask.value > 32 {
      return NilNil;
    }
    var ip := parseIP(pieces[0]);
    if ip.None? {
      // without an address the size checks still come first; then the range's extents are computed
      return if mask.value > desiredCIDR || mask.value == 32 then SearchError else Crash;
    }
    var outcome := IsASubnetAvailableInCIDR(desiredCIDR, ip.value, IPv4Mask(mask.value),
                                            SystemRoutesOf(table.routes), iterations);
    match outcome {
      case Available(available) => return Status(available);
      case Searching => return StillSearching;
      case _ => return SearchError;
    }
  }
}
