/** Discovery scopes: CIDR targets with CIDR exclusions subtracted. */
module Scopes {
  import opened Common

  function Pow2(n: nat): (p: nat)
    ensures p >= 1
  {
    if n == 0 then 1 else 2 * Pow2(n - 1)
  }

  datatype Address = Address(ipv6: bool, value: nat)

  function Width(ipv6: bool): nat { if ipv6 then 128 else 32 }

  /** A CIDR block: an aligned run of `2^hostBits` addresses. */
  datatype Block = Block(ipv6: bool, base: nat, hostBits: nat) {
    ghost predicate Aligned() { hostBits <= Width(ipv6) && Multiple(base, Pow2(hostBits)) }

    function Size(): nat { Pow2(hostBits) }

    function Last(): nat { base + Size() - 1 }

    predicate Holds(a: Address) { a.ipv6 == ipv6 && base <= a.value <= Last() }
  }

  type Network = n: Block | n.Aligned() witness Origin()

  function Origin(): (n: Block)
    ensures n.Aligned() && n.base == 0
  {
    assert Times(0, Pow2(0)) == 0;
    Block(false, 0, 0)
  }

  predicate SomeHolds(ns: seq<Network>, a: Address) { exists i :: 0 <= i < |ns| && ns[i].Holds(a) }

  // ------------------------------------------------------ nested or disjoint

  function Times(k: nat, m: nat): nat { k * m }

  ghost predicate Multiple(x: nat, m: nat) { exists k: nat :: Times(k, m) == x }

  lemma MultipleOfMultiple(k: nat, x: nat, m: nat)
    requires Multiple(x, m)
    ensures Multiple(Times(k, x), m)
  {
    var q: nat :| Times(q, m) == x;
    assert Times(Times(k, q), m) == Times(k, x);
  }

  lemma {:induction false} Pow2Divides(a: nat, b: nat)
    requires a <= b
    ensures Multiple(Pow2(b), Pow2(a))
    decreases b
  {
    if a == b {
      assert Times(1, Pow2(a)) == Pow2(a);
    } else {
      Pow2Divides(a, b - 1);
      MultipleOfMultiple(2, Pow2(b - 1), Pow2(a));
    }
  }

  lemma TimesMonotone(p: nat, q: nat, m: nat)
    requires p <= q
    ensures Times(p, m) <= Times(q, m)
  {
    assert Times(q, m) == Times(p, m) + Times(q - p, m);
  }

  /** Distinct multiples of `m` are at least `m` apart. */
  lemma MultiplesApart(x: nat, y: nat, m: nat)
    requires Multiple(x, m) && Multiple(y, m) && x < y
    ensures x + m <= y
  {
    var p: nat :| Times(p, m) == x;
    var q: nat :| Times(q, m) == y;
    if q <= p { TimesMonotone(q, p, m); } else { TimesMonotone(p + 1, q, m); }
  }

  lemma SumOfMultiples(x: nat, y: nat, m: nat)
    requires Multiple(x, m) && Multiple(y, m)
    ensures Multiple(x + y, m)
  {
    var p: nat :| Times(p, m) == x;
    var q: nat :| Times(q, m) == y;
    assert Times(p + q, m) == x + y;
  }

  lemma AlignedToSmaller(x: nat, a: nat, b: nat)
    requires a <= b && Multiple(x, Pow2(b))
    ensures Multiple(x, Pow2(a))
  {
    var q: nat :| Times(q, Pow2(b)) == x;
    Pow2Divides(a, b);
    MultipleOfMultiple(q, Pow2(b), Pow2(a));
  }

  predicate Overlap(a: Network, b: Network) {
    a.ipv6 == b.ipv6 &&
    (b.base <= a.base <= b.Last() || b.base <= a.Last() <= b.Last() ||
     a.base <= b.base <= a.Last() || a.base <= b.Last() <= a.Last())
  }

  predicate Contains(outer: Network, inner: Network) {
    outer.ipv6 == inner.ipv6 && outer.base <= inner.base && inner.Last() <= outer.Last()
  }

  /** Two blocks are nested or disjoint: an overlap means the smaller is inside. */
  lemma NestedOrDisjoint(a: Network, b: Network)
    requires Overlap(a, b) && a.hostBits <= b.hostBits
    ensures Contains(b, a)
  {
    var m := a.Size();
    AlignedToSmaller(b.base, a.hostBits, b.hostBits);
    Pow2Divides(a.hostBits, b.hostBits);
    SumOfMultiples(b.base, b.Size(), m);
    if a.base < b.base { MultiplesApart(a.base, b.base, m); }
    if a.base < b.base + b.Size() { MultiplesApart(a.base, b.base + b.Size(), m); }
  }

  lemma SameSpanSameBlock(a: Network, b: Network)
    requires Contains(a, b) && a.hostBits == b.hostBits
    ensures a == b
  {
  }

  // ----------------------------------------------------------- subtraction

  lemma HalfAligned(n: Network)
    requires n.hostBits > 0
    ensures Block(n.ipv6, n.base, n.hostBits - 1).Aligned()
    ensures Block(n.ipv6, n.base + Pow2(n.hostBits - 1), n.hostBits - 1).Aligned()
  {
    AlignedToSmaller(n.base, n.hostBits - 1, n.hostBits);
    assert Times(1, Pow2(n.hostBits - 1)) == Pow2(n.hostBits - 1);
    SumOfMultiples(n.base, Pow2(n.hostBits - 1), Pow2(n.hostBits - 1));
  }

  function LowerHalf(n: Network): Network
    requires n.hostBits > 0
  {
    HalfAligned(n);
    Block(n.ipv6, n.base, n.hostBits - 1)
  }

  function UpperHalf(n: Network): Network
    requires n.hostBits > 0
  {
    HalfAligned(n);
    Block(n.ipv6, n.base + Pow2(n.hostBits - 1), n.hostBits - 1)
  }

  lemma {:induction false} Pow2Grows(a: nat, b: nat)
    requires a < b
    ensures 2 * Pow2(a) <= Pow2(b)
    decreases b
  {
    if a < b - 1 { Pow2Grows(a, b - 1); }
  }

  /** A block strictly inside another lies in one of its halves. */
  lemma InOneHalf(n: Network, e: Network)
    requires Contains(n, e) && e != n
    ensures e.hostBits < n.hostBits
    ensures Contains(LowerHalf(n), e) || Contains(UpperHalf(n), e)
  {
    if e.hostBits >= n.hostBits {
      if e.hostBits > n.hostBits { Pow2Grows(n.hostBits, e.hostBits); }
      assert e.Size() == n.Size();
      if e.hostBits == n.hostBits { SameSpanSameBlock(n, e); }
      assert false;
    }
    if e.base < UpperHalf(n).base {
      assert Overlap(e, LowerHalf(n));
      NestedOrDisjoint(e, LowerHalf(n));
    } else {
      assert Overlap(e, UpperHalf(n));
      NestedOrDisjoint(e, UpperHalf(n));
    }
  }

  /** `address_exclude`: halve towards the excluded block, keeping the other half. */
  function Exclude(n: Network, e: Network): seq<Network>
    requires Contains(n, e) && e != n
    decreases n.hostBits
  {
    InOneHalf(n, e);
    var low, high := LowerHalf(n), UpperHalf(n);
    if e == low then [high]
    else if e == high then [low]
    else if Contains(low, e) then [high] + Exclude(low, e)
    else [low] + Exclude(high, e)
  }

  lemma HoldsHalf(n: Network, a: Address)
    requires n.hostBits > 0
    ensures n.Holds(a) <==> LowerHalf(n).Holds(a) || UpperHalf(n).Holds(a)
    ensures !(LowerHalf(n).Holds(a) && UpperHalf(n).Holds(a))
  {
  }

  lemma {:induction false} ExcludeExact(n: Network, e: Network, a: Address)
    requires Contains(n, e) && e != n
    ensures SomeHolds(Exclude(n, e), a) <==> n.Holds(a) && !e.Holds(a)
    decreases n.hostBits
  {
    InOneHalf(n, e);
    HoldsHalf(n, a);
    var low, high := LowerHalf(n), UpperHalf(n);
    assert [low][0] == low && [high][0] == high;
    if e == low {
    } else if e == high {
    } else if Contains(low, e) {
      ExcludeExact(low, e, a);
      ConcatHolds([high], Exclude(low, e), a);
    } else {
      ExcludeExact(high, e, a);
      ConcatHolds([low], Exclude(high, e), a);
    }
  }

  lemma ConcatHolds(xs: seq<Network>, ys: seq<Network>, a: Address)
    ensures SomeHolds(xs + ys, a) <==> SomeHolds(xs, a) || SomeHolds(ys, a)
  {
    if SomeHolds(xs, a) { var i :| 0 <= i < |xs| && xs[i].Holds(a); assert (xs + ys)[i].Holds(a); }
    if SomeHolds(ys, a) { var i :| 0 <= i < |ys| && ys[i].Holds(a); assert (xs + ys)[|xs| + i].Holds(a); }
  }

  /** What one exclusion leaves of one network. */
  function Left(n: Network, e: Network): seq<Network> {
    if !Overlap(n, e) then [n]
    else if Contains(e, n) then []
    else
      StrictlyInside(n, e);
      Exclude(n, e)
  }

  lemma StrictlyInside(n: Network, e: Network)
    requires Overlap(n, e) && !Contains(e, n)
    ensures Contains(n, e) && e != n
  {
    if n.hostBits <= e.hostBits { NestedOrDisjoint(n, e); } else { NestedOrDisjoint(e, n); }
  }

  lemma LeftExact(n: Network, e: Network, a: Address)
    ensures SomeHolds(Left(n, e), a) <==> n.Holds(a) && !e.Holds(a)
  {
    if !Overlap(n, e) {
      assert [n][0] == n;
    } else if !Contains(e, n) {
      StrictlyInside(n, e);
      ExcludeExact(n, e, a);
    }
  }

  function Round(remaining: seq<Network>, e: Network): seq<Network> {
    if remaining == [] then [] else Round(remaining[..|remaining| - 1], e) + Left(remaining[|remaining| - 1], e)
  }

  function Remaining(networks: seq<Network>, exclusions: seq<Network>): seq<Network> {
    if exclusions == [] then networks
    else Round(Remaining(networks, exclusions[..|exclusions| - 1]), exclusions[|exclusions| - 1])
  }

  lemma {:induction false} RoundExact(remaining: seq<Network>, e: Network, a: Address)
    ensures SomeHolds(Round(remaining, e), a) <==> SomeHolds(remaining, a) && !e.Holds(a)
  {
    if remaining != [] {
      var n := |remaining| - 1;
      RoundExact(remaining[..n], e, a);
      LeftExact(remaining[n], e, a);
      ConcatHolds(Round(remaining[..n], e), Left(remaining[n], e), a);
      assert remaining == remaining[..n] + [remaining[n]];
      ConcatHolds(remaining[..n], [remaining[n]], a);
      assert [remaining[n]][0] == remaining[n];
    }
  }

  /** Subtraction is exact: what remains is every target address no exclusion holds. */
  lemma {:induction false} RemainingExact(networks: seq<Network>, exclusions: seq<Network>, a: Address)
    ensures SomeHolds(Remaining(networks, exclusions), a) <==> SomeHolds(networks, a) && !SomeHolds(exclusions, a)
  {
    if exclusions != [] {
      var n := |exclusions| - 1;
      RemainingExact(networks, exclusions[..n], a);
      RoundExact(Remaining(networks, exclusions[..n]), exclusions[n], a);
      assert exclusions == exclusions[..n] + [exclusions[n]];
      ConcatHolds(exclusions[..n], [exclusions[n]], a);
      assert [exclusions[n]][0] == exclusions[n];
    }
  }

  predicate Before(a: Network, b: Network) { (!a.ipv6 && b.ipv6) || (a.ipv6 == b.ipv6 && a.base <= b.base) }

  function InsertNetwork(n: Network, ns: seq<Network>): seq<Network> {
    if ns == [] then [n] else if Before(n, ns[0]) then [n] + ns else [ns[0]] + InsertNetwork(n, ns[1..])
  }

  function InOrder(ns: seq<Network>): seq<Network> {
    if ns == [] then [] else InsertNetwork(ns[0], InOrder(ns[1..]))
  }

  lemma {:induction false} InsertKeepsAll(n: Network, ns: seq<Network>)
    ensures multiset(InsertNetwork(n, ns)) == multiset(ns) + multiset{n}
  {
    hide Before;
    if ns != [] {
      InsertKeepsAll(n, ns[1..]);
      assert multiset(ns) == multiset{ns[0]} + multiset(ns[1..]) by { assert ns == [ns[0]] + ns[1..]; }
      if !Before(n, ns[0]) { assert InsertNetwork(n, ns) == [ns[0]] + InsertNetwork(n, ns[1..]); }
    }
  }

  lemma {:induction false} OrderKeeps(ns: seq<Network>)
    ensures multiset(InOrder(ns)) == multiset(ns)
  {
    if ns != [] {
      OrderKeeps(ns[1..]);
      InsertKeepsAll(ns[0], InOrder(ns[1..]));
      assert ns == [ns[0]] + ns[1..];
    }
  }

  lemma SameElementsHold(xs: seq<Network>, ys: seq<Network>, a: Address)
    requires multiset(xs) == multiset(ys)
    ensures SomeHolds(xs, a) ==> SomeHolds(ys, a)
  {
    if SomeHolds(xs, a) {
      var i :| 0 <= i < |xs| && xs[i].Holds(a);
      assert xs[i] in multiset(ys);
      var j :| 0 <= j < |ys| && ys[j] == xs[i];
      assert ys[j].Holds(a);
    }
  }

  // ------------------------------------------------------------------ scopes

  datatype Scope = Scope(networks: seq<Network>, exclusions: seq<Network>)

  function Included(s: Scope): seq<Network> { InOrder(Remaining(s.networks, s.exclusions)) }

  /** An address is in scope exactly when some target holds it and no exclusion does. */
  lemma IncludedExact(s: Scope, a: Address)
    ensures SomeHolds(Included(s), a) <==> SomeHolds(s.networks, a) && !SomeHolds(s.exclusions, a)
  {
    var rest := Remaining(s.networks, s.exclusions);
    RemainingExact(s.networks, s.exclusions, a);
    OrderKeeps(rest);
    SameElementsHold(rest, InOrder(rest), a);
    SameElementsHold(InOrder(rest), rest, a);
  }

  lemma RoundStarts(networks: seq<Network>)
    ensures Remaining(networks, []) == networks && forall e :: Round([], e) == []
  {
  }

  lemma RoundStep(remaining: seq<Network>, i: nat, e: Network)
    requires i < |remaining|
    ensures Round(remaining[..i + 1], e) == Round(remaining[..i], e) + Left(remaining[i], e)
  {
    hide Exclude, Left;
    assert remaining[..i + 1][..i] == remaining[..i];
  }

  lemma RemainingStep(networks: seq<Network>, exclusions: seq<Network>, k: nat)
    requires k < |exclusions|
    ensures Remaining(networks, exclusions[..k + 1]) == Round(Remaining(networks, exclusions[..k]), exclusions[k])
  {
    hide Round;
    assert exclusions[..k + 1][..k] == exclusions[..k];
  }

  method ComputeIncluded(s: Scope) returns (r: seq<Network>)
    ensures r == Included(s)
  {
    hide Round, Remaining, Exclude;
    RoundStarts(s.networks);
    var remaining := s.networks;
    for k := 0 to |s.exclusions|
      invariant remaining == Remaining(s.networks, s.exclusions[..k])
    {
      var excluded := s.exclusions[k];
      var nextRound: seq<Network> := [];
      for i := 0 to |remaining|
        invariant nextRound == Round(remaining[..i], excluded)
      {
        var network := remaining[i];
        RoundStep(remaining, i, excluded);
        if !Overlap(network, excluded) {
          nextRound := nextRound + [network];
          continue;
        }
        if Contains(excluded, network) { continue; }
        StrictlyInside(network, excluded);
        nextRound := nextRound + Exclude(network, excluded);
      }
      assert remaining[..|remaining|] == remaining;
      RemainingStep(s.networks, s.exclusions, k);
      remaining := nextRound;
    }
    assert s.exclusions[..|s.exclusions|] == s.exclusions;
    r := InOrder(remaining);
  }

  method Covers(s: Scope, a: Address) returns (r: bool)
    ensures r <==> SomeHolds(s.networks, a) && !SomeHolds(s.exclusions, a)
  {
    IncludedExact(s, a);
    var included := ComputeIncluded(s);
    for i := 0 to |included|
      invariant forall j :: 0 <= j < i ==> !included[j].Holds(a)
    {
      if included[i].Holds(a) { return true; }
    }
    return false;
  }

  /** Addresses a probe would be sent to. */
  function Usable(n: Network): int { if n.hostBits <= 1 then n.Size() else n.Size() - 2 }

  /** What iterating one network yields: the standard library drops the network and
      broadcast addresses of IPv4, but only the first address of IPv6. */
  function HostCount(n: Network): nat {
    if n.hostBits <= 1 then n.Size()
    else if n.ipv6 then n.Size() - 1
    else
      Pow2Grows(0, n.hostBits);
      n.Size() - 2
  }

  function HostsOf(n: Network): seq<Address> {
    seq(HostCount(n), i requires 0 <= i => Address(n.ipv6, if n.hostBits <= 1 then n.base + i else n.base + 1 + i))
  }

  function TotalUsable(ns: seq<Network>): int {
    if ns == [] then 0 else TotalUsable(ns[..|ns| - 1]) + Usable(ns[|ns| - 1])
  }

  function AllHosts(ns: seq<Network>): seq<Address> {
    if ns == [] then [] else AllHosts(ns[..|ns| - 1]) + HostsOf(ns[|ns| - 1])
  }

  function ScopeSize(s: Scope): int { TotalUsable(Included(s)) }

  method Hosts(s: Scope) returns (addresses: seq<Address>)
    ensures addresses == AllHosts(Included(s))
  {
    var included := ComputeIncluded(s);
    addresses := [];
    for k := 0 to |included|
      invariant addresses == AllHosts(included[..k])
    {
      var network := included[k];
      assert included[..k + 1][..k] == included[..k];
      if network.hostBits == 0 {
        assert HostsOf(network) == [Address(network.ipv6, network.base)];
        addresses := addresses + [Address(network.ipv6, network.base)];
        continue;
      }
      addresses := addresses + HostsOf(network);
    }
    assert included[..|included|] == included;
  }

  lemma {:induction false} HostsAreHeld(ns: seq<Network>)
    ensures forall a :: a in AllHosts(ns) ==> SomeHolds(ns, a)
  {
    if ns != [] {
      var n := |ns| - 1;
      HostsAreHeld(ns[..n]);
      forall a | a in AllHosts(ns) ensures SomeHolds(ns, a) {
        assert ns == ns[..n] + [ns[n]];
        ConcatHolds(ns[..n], [ns[n]], a);
        if a in HostsOf(ns[n]) { assert [ns[n]][0].Holds(a); }
      }
    }
  }

  /** No address a run probes lies in an exclusion, and every one lies in a target. */
  lemma NoHostExcluded(s: Scope, a: Address)
    requires a in AllHosts(Included(s))
    ensures SomeHolds(s.networks, a) && !SomeHolds(s.exclusions, a)
  {
    HostsAreHeld(Included(s));
    IncludedExact(s, a);
  }

  /** How many networks the library and the count disagree about, by one address each. */
  function WideV6(ns: seq<Network>): nat {
    if ns == [] then 0
    else WideV6(ns[..|ns| - 1]) + if ns[|ns| - 1].ipv6 && ns[|ns| - 1].hostBits > 1 then 1 else 0
  }

  /** The size counted without enumerating is the number of addresses enumerated, short by
      one for every IPv6 network wider than a /127. */
  lemma {:induction false} SizeIsHostCount(ns: seq<Network>)
    ensures |AllHosts(ns)| == TotalUsable(ns) + WideV6(ns)
  {
    if ns != [] {
      SizeIsHostCount(ns[..|ns| - 1]);
    }
  }

  datatype Refusal = NoTarget | TooLarge(size: int)

  function Flatten(parts: seq<seq<Network>>): seq<Network> {
    if parts == [] then [] else Flatten(parts[..|parts| - 1]) + parts[|parts| - 1]
  }

  /** Each entry has been read into the blocks it stands for. */
  method BuildScope(targets: seq<seq<Network>>, exclusions: seq<seq<Network>>,
      maxHosts: int) returns (r: Result<Scope, Refusal>)
    ensures r.Err? <==> targets == [] || ScopeSize(Scope(Flatten(targets), Flatten(exclusions))) > maxHosts
    ensures r.Err? && targets == [] ==> r.error == NoTarget
    ensures r.Err? && targets != [] ==> r.error == TooLarge(ScopeSize(Scope(Flatten(targets), Flatten(exclusions))))
    ensures r.Ok? ==> r.value == Scope(Flatten(targets), Flatten(exclusions))
    ensures r.Ok? ==> |AllHosts(Included(r.value))| <= maxHosts + WideV6(Included(r.value))
  {
    if targets == [] { return Err(NoTarget); }
    var networks: seq<Network> := [];
    for i := 0 to |targets|
      invariant networks == Flatten(targets[..i])
    {
      assert targets[..i + 1][..i] == targets[..i];
      networks := networks + targets[i];
    }
    assert targets[..|targets|] == targets;
    var excluded: seq<Network> := [];
    for i := 0 to |exclusions|
      invariant excluded == Flatten(exclusions[..i])
    {
      assert exclusions[..i + 1][..i] == exclusions[..i];
      excluded := excluded + exclusions[i];
    }
    assert exclusions[..|exclusions|] == exclusions;
    var scope := Scope(networks, excluded);
    SizeIsHostCount(Included(scope));
    var size := ScopeSize(scope);
    if size > maxHosts { return Err(TooLarge(size)); }
    return Ok(scope);
  }

  lemma {:induction false} NoWideV6(ns: seq<Network>)
    requires forall i :: 0 <= i < |ns| ==> !ns[i].ipv6
    ensures WideV6(ns) == 0
  {
    if ns != [] { NoWideV6(ns[..|ns| - 1]); }
  }

  /** For IPv4 targets the size is exactly the number of addresses probed, so a scope that
      was built probes at most the ceiling it was checked against. */
  lemma V4SizeExact(s: Scope)
    requires forall i :: 0 <= i < |s.networks| ==> !s.networks[i].ipv6
    ensures |AllHosts(Included(s))| == ScopeSize(s)
  {
    var included := Included(s);
    forall i | 0 <= i < |included| ensures !included[i].ipv6 {
      var a := Address(included[i].ipv6, included[i].base);
      assert included[i].Holds(a);
      IncludedExact(s, a);
    }
    NoWideV6(included);
    SizeIsHostCount(included);
  }

  // ------------------------------------------------------ which hosts, and once

  /** Iterating a block yields each of its usable addresses once, in order: all of them for a
      single host or a pair, and otherwise all but the first and, for IPv4, the last. */
  lemma BlockHostsExact(n: Network, a: Address)
    ensures a in HostsOf(n) <==>
      n.Holds(a) && (n.hostBits >= 2 ==> a.value != n.base && (n.ipv6 || a.value != n.Last()))
    ensures forall i, j :: 0 <= i < j < |HostsOf(n)| ==> HostsOf(n)[i].value < HostsOf(n)[j].value
  {
    hide Pow2, Block.Aligned;
    var hosts := HostsOf(n);
    if n.hostBits >= 2 { BigEnough(n.hostBits); }
    if n.Holds(a) && (n.hostBits >= 2 ==> a.value != n.base && (n.ipv6 || a.value != n.Last())) {
      var i := if n.hostBits <= 1 then a.value - n.base else a.value - n.base - 1;
      assert hosts[i] == a;
    }
  }

  lemma BigEnough(bits: nat)
    requires bits >= 2
    ensures Pow2(bits) >= 4
  {
    assert Pow2(2) == 4;
    if bits > 2 { Pow2Grows(2, bits); }
  }

  /** A run probes exactly the usable addresses of the remaining networks. */
  lemma {:induction false} AllHostsExact(ns: seq<Network>, a: Address)
    ensures a in AllHosts(ns) <==> exists i :: 0 <= i < |ns| && a in HostsOf(ns[i])
  {
    hide HostsOf;
    if ns != [] {
      var n := |ns| - 1;
      AllHostsExact(ns[..n], a);
      assert forall i :: 0 <= i < n ==> ns[..n][i] == ns[i];
    }
  }

  /** Networks come IPv4 first, then by their first address. */
  predicate Ascending(ns: seq<Network>) {
    forall i, j :: 0 <= i < j < |ns| ==>
      (ns[j].ipv6 && !ns[i].ipv6) || (ns[i].ipv6 == ns[j].ipv6 && ns[i].base <= ns[j].base)
  }

  lemma ConsAscends(n: Network, ns: seq<Network>)
    requires Ascending(ns) && forall i :: 0 <= i < |ns| ==> Before(n, ns[i])
    ensures Ascending([n] + ns)
  {
  }

  lemma HeadIsFirst(ns: seq<Network>)
    requires Ascending(ns) && ns != []
    ensures Ascending(ns[1..]) && forall i :: 0 <= i < |ns| ==> Before(ns[0], ns[i])
  {
  }

  lemma BeforeIsOrder(a: Network, b: Network, c: Network)
    ensures Before(a, b) || Before(b, a)
    ensures Before(a, b) && Before(b, c) ==> Before(a, c)
  {
  }

  lemma {:induction false} InsertAscends(n: Network, ns: seq<Network>)
    requires Ascending(ns)
    ensures Ascending(InsertNetwork(n, ns))
  {
    hide Ascending, Before;
    if ns == [] {
      assert InsertNetwork(n, ns) == [n] + ns;
      ConsAscends(n, ns);
    } else {
      HeadIsFirst(ns);
      BeforeIsOrder(n, ns[0], ns[0]);
      if Before(n, ns[0]) {
        forall i | 0 <= i < |ns| ensures Before(n, ns[i]) { BeforeIsOrder(n, ns[0], ns[i]); }
        ConsAscends(n, ns);
      } else {
        InsertAscends(n, ns[1..]);
        var rest := InsertNetwork(n, ns[1..]);
        InsertKeepsAll(n, ns[1..]);
        forall i | 0 <= i < |rest| ensures Before(ns[0], rest[i]) {
          assert rest[i] in multiset(rest);
          if rest[i] != n {
            assert rest[i] in ns[1..];
            var k :| 0 <= k < |ns[1..]| && ns[1..][k] == rest[i];
            assert ns[k + 1] == rest[i];
          }
        }
        ConsAscends(ns[0], rest);
      }
    }
  }

  lemma {:induction false} OrderAscends(ns: seq<Network>)
    ensures Ascending(InOrder(ns))
  {
    if ns != [] {
      OrderAscends(ns[1..]);
      InsertAscends(ns[0], InOrder(ns[1..]));
    }
  }

  /** Reading the entries of a list loses no block and adds none. */
  lemma {:induction false} FlattenHolds(parts: seq<seq<Network>>, a: Address)
    ensures SomeHolds(Flatten(parts), a) <==> exists i :: 0 <= i < |parts| && SomeHolds(parts[i], a)
  {
    hide SomeHolds;
    if parts == [] {
      NoneHolds(a);
    } else {
      var n := |parts| - 1;
      FlattenHolds(parts[..n], a);
      ConcatHolds(Flatten(parts[..n]), parts[n], a);
      assert forall i :: 0 <= i < n ==> parts[..n][i] == parts[i];
    }
  }

  lemma NoneHolds(a: Address)
    ensures !SomeHolds([], a)
  {
  }
}
