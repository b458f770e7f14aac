/** What the pairwise tests of the analyser mean in terms of concrete packets.

    A packet here carries everything a rule can constrain: the address family, both
    addresses, protocol and port, both zones, application and user. */
module Packets {
  import opened Common
  import opened Intervals
  import opened Model

  datatype Packet = Packet(
    ipv6: bool, source: int, destination: int, protocol: int, port: int,
    srcZone: string, dstZone: string, application: string, user: string)

  predicate InZones(zones: set<string>, zone: string) { zones == {} || zone in zones }

  predicate Names(names: set<string>, name: string) { names == {} || "any" in names || name in names }

  ghost predicate Matches(r: ResolvedRule, p: Packet) {
    && RealService(p.protocol, p.port)
    && InZones(r.srcZones, p.srcZone)
    && InZones(r.dstZones, p.dstZone)
    && r.source.Holds(p.ipv6, p.source)
    && r.destination.Holds(p.ipv6, p.destination)
    && r.services.Serves(p.protocol, p.port)
    && Names(r.applications, p.application)
    && Names(r.users, p.user)
  }

  // -------------------------------------------------------- the tests as coded

  predicate NamesOverlap(a: set<string>, b: set<string>) {
    !(a != {} && b != {} && a * b == {} && "any" !in a && "any" !in b)
  }

  predicate NamesContain(outer: set<string>, inner: set<string>) {
    outer == {} || "any" in outer || (inner != {} && inner <= outer)
  }

  predicate IdentityOverlaps(a: ResolvedRule, b: ResolvedRule) {
    NamesOverlap(a.applications, b.applications) && NamesOverlap(a.users, b.users)
  }

  predicate IdentityContains(outer: ResolvedRule, inner: ResolvedRule) {
    NamesContain(outer.applications, inner.applications) && NamesContain(outer.users, inner.users)
  }

  ghost predicate Covers(outer: ResolvedRule, inner: ResolvedRule) {
    && outer.ZonesContain(inner)
    && outer.source.Includes(inner.source)
    && outer.destination.Includes(inner.destination)
    && outer.services.Includes(inner.services)
    && IdentityContains(outer, inner)
  }

  /** The chain of cheap filters a pair must survive before it is compared. */
  ghost predicate PassesFilters(a: ResolvedRule, b: ResolvedRule) {
    && a.ZonesIntersect(b)
    && a.source.Overlaps(b.source)
    && a.destination.Overlaps(b.destination)
    && a.services.Overlaps(b.services)
    && IdentityOverlaps(a, b)
  }

  method TestCovers(outer: ResolvedRule, inner: ResolvedRule) returns (r: bool)
    ensures r <==> Covers(outer, inner)
  {
    if !outer.ZonesContain(inner) { return false; }
    r := AddressesContain(outer.source, inner.source);
    if r { r := AddressesContain(outer.destination, inner.destination); }
    if r { r := ServicesContain(outer.services, inner.services); }
    r := r && IdentityContains(outer, inner);
  }

  method TestFilters(a: ResolvedRule, b: ResolvedRule) returns (r: bool)
    ensures r <==> PassesFilters(a, b)
  {
    if !a.ZonesIntersect(b) { return false; }
    r := AddressesIntersect(a.source, b.source);
    if r { r := AddressesIntersect(a.destination, b.destination); }
    if r { r := ServicesIntersect(a.services, b.services); }
    r := r && IdentityOverlaps(a, b);
  }

  // ------------------------------------------------------------------ coverage

  /** If one rule covers another, it matches every packet the other matches. */
  lemma CoverSound(outer: ResolvedRule, inner: ResolvedRule, p: Packet)
    requires outer.services.WellFormed() && inner.services.WellFormed()
    requires Covers(outer, inner) && Matches(inner, p)
    ensures Matches(outer, p)
  {
    hide IntsOf, ServiceSet.WellFormed, ServiceSet.Serves, ServiceSet.Includes;
    IncludeIsSubservice(outer.services, inner.services);
  }

  /** Addresses of this family on both sides of the rule. */
  predicate HasFamily(r: ResolvedRule, ipv6: bool) {
    !r.source.Family(ipv6).IsEmpty() && !r.destination.Family(ipv6).IsEmpty()
  }

  /** Some service, and some family on both sides: a packet can match. */
  predicate Matchable(r: ResolvedRule) { r.services.NonEmpty() && (HasFamily(r, false) || HasFamily(r, true)) }

  ghost predicate FamilyIncluded(outer: ResolvedRule, inner: ResolvedRule, ipv6: bool) {
    && inner.source.Family(ipv6).Ints() <= outer.source.Family(ipv6).Ints()
    && inner.destination.Family(ipv6).Ints() <= outer.destination.Family(ipv6).Ints()
  }

  /** The coverage test restricted to the families the covered rule has on both sides. */
  ghost predicate CoversShared(outer: ResolvedRule, inner: ResolvedRule) {
    && outer.ZonesContain(inner)
    && (forall ipv6 :: HasFamily(inner, ipv6) ==> FamilyIncluded(outer, inner, ipv6))
    && outer.services.Includes(inner.services)
    && IdentityContains(outer, inner)
  }

  /** What the coverage test asks on top: the addresses of a family the covered rule has
      on one side only, which no packet of it uses. */
  ghost predicate StraysIncluded(outer: ResolvedRule, inner: ResolvedRule) {
    forall ipv6 :: !HasFamily(inner, ipv6) ==> FamilyIncluded(outer, inner, ipv6)
  }

  lemma SomeAddress(s: AddressSet, ipv6: bool) returns (x: int)
    requires !s.Family(ipv6).IsEmpty()
    ensures s.Holds(ipv6, x)
  {
    NonEmptyInts(s.Family(ipv6).intervals);
    x := Pick(s.Family(ipv6).Ints());
  }

  lemma SomeMember(zones: set<string>) returns (z: string)
    ensures InZones(zones, z) && Names(zones, z)
  {
    if zones == {} { z := ""; } else { z := Pick(zones); }
  }

  lemma SomePacket(r: ResolvedRule, ipv6: bool, source: int, destination: int) returns (p: Packet)
    requires r.services.WellFormed() && r.services.NonEmpty()
    requires r.source.Holds(ipv6, source) && r.destination.Holds(ipv6, destination)
    ensures Matches(r, p) && p.ipv6 == ipv6 && p.source == source && p.destination == destination
  {
    hide IntsOf, ServiceSet.WellFormed;
    var protocol, port := SomeService(r.services);
    var srcZone := SomeMember(r.srcZones);
    var dstZone := SomeMember(r.dstZones);
    var application := SomeMember(r.applications);
    var user := SomeMember(r.users);
    p := Packet(ipv6, source, destination, protocol, port, srcZone, dstZone, application, user);
  }

  ghost predicate AllMatched(outer: ResolvedRule, inner: ResolvedRule) {
    forall p :: Matches(inner, p) ==> Matches(outer, p)
  }

  lemma ZoneOutside(outer: set<string>, inner: set<string>) returns (z: string)
    requires !(outer == {} || (inner != {} && inner <= outer))
    ensures InZones(inner, z) && !InZones(outer, z)
  {
    if inner == {} { z := FreshName(outer); } else { z := NotSubset(inner, outer); }
  }

  lemma NameOutside(outer: set<string>, inner: set<string>) returns (n: string)
    requires !NamesContain(outer, inner)
    ensures Names(inner, n) && !Names(outer, n)
  {
    if inner == {} || "any" in inner { n := FreshName(outer); } else { n := NotSubset(inner, outer); }
  }

  lemma ZonesFollow(outer: ResolvedRule, inner: ResolvedRule, p: Packet)
    requires Matches(inner, p) && !outer.ZonesContain(inner)
    ensures !AllMatched(outer, inner)
  {
    hide IntsOf, ServiceSet.Serves;
    var q: Packet;
    if !(outer.srcZones == {} || (inner.srcZones != {} && inner.srcZones <= outer.srcZones)) {
      var z := ZoneOutside(outer.srcZones, inner.srcZones);
      q := p.(srcZone := z);
    } else {
      var z := ZoneOutside(outer.dstZones, inner.dstZones);
      q := p.(dstZone := z);
    }
    assert Matches(inner, q) && !Matches(outer, q);
  }

  lemma IdentityFollows(outer: ResolvedRule, inner: ResolvedRule, p: Packet)
    requires Matches(inner, p) && !IdentityContains(outer, inner)
    ensures !AllMatched(outer, inner)
  {
    hide IntsOf, ServiceSet.Serves;
    var q: Packet;
    if !NamesContain(outer.applications, inner.applications) {
      var n := NameOutside(outer.applications, inner.applications);
      q := p.(application := n);
    } else {
      var n := NameOutside(outer.users, inner.users);
      q := p.(user := n);
    }
    assert Matches(inner, q) && !Matches(outer, q);
  }

  lemma ServicesFollow(outer: ResolvedRule, inner: ResolvedRule, p: Packet)
    requires outer.services.WellFormed() && inner.services.WellFormed()
    requires Matches(inner, p) && AllMatched(outer, inner)
    ensures outer.services.Includes(inner.services)
  {
    hide IntsOf, ServiceSet.WellFormed, ServiceSet.Serves, ServiceSet.Includes;
    forall protocol, port | RealService(protocol, port) && inner.services.Serves(protocol, port)
      ensures outer.services.Serves(protocol, port)
    {
      assert Matches(inner, p.(protocol := protocol, port := port));
    }
    IncludeIsSubservice(outer.services, inner.services);
  }

  lemma FamilyFollows(outer: ResolvedRule, inner: ResolvedRule, ipv6: bool)
    requires inner.services.WellFormed() && inner.services.NonEmpty() && HasFamily(inner, ipv6) &&
        AllMatched(outer, inner)
    ensures FamilyIncluded(outer, inner, ipv6)
  {
    hide IntsOf, ServiceSet.WellFormed, ServiceSet.Serves;
    var x := SomeAddress(inner.source, ipv6);
    var y := SomeAddress(inner.destination, ipv6);
    forall s | s in inner.source.Family(ipv6).Ints() ensures s in outer.source.Family(ipv6).Ints() {
      var p := SomePacket(inner, ipv6, s, y);
      assert outer.source.Holds(ipv6, s);
    }
    forall d | d in inner.destination.Family(ipv6).Ints() ensures d in outer.destination.Family(ipv6).Ints() {
      var p := SomePacket(inner, ipv6, x, d);
      assert outer.destination.Holds(ipv6, d);
    }
  }

  lemma MatchHasFamily(r: ResolvedRule, p: Packet)
    requires Matches(r, p)
    ensures HasFamily(r, p.ipv6) && Matchable(r)
  {
    hide IntsOf, ServiceSet.Serves;
    HoldsNonEmpty(r.source, p.ipv6, p.source);
    HoldsNonEmpty(r.destination, p.ipv6, p.destination);
    ServesNothing(r.services, p.protocol, p.port);
  }

  /** Exactly when every packet of one rule is a packet of another: when the first has no
      packet, or the coverage test succeeds on the families it has on both sides. */
  lemma AllMatchedExact(outer: ResolvedRule, inner: ResolvedRule)
    requires outer.services.WellFormed() && inner.services.WellFormed()
    ensures AllMatched(outer, inner) <==> !Matchable(inner) || CoversShared(outer, inner)
  {
    hide IntsOf, ServiceSet.WellFormed, ServiceSet.Serves, ServiceSet.Includes, FamilyIncluded;
    if AllMatched(outer, inner) && Matchable(inner) {
      forall ipv6 | HasFamily(inner, ipv6) ensures FamilyIncluded(outer, inner, ipv6) {
        FamilyFollows(outer, inner, ipv6);
      }
      var ipv6 := !HasFamily(inner, false);
      var x := SomeAddress(inner.source, ipv6);
      var y := SomeAddress(inner.destination, ipv6);
      var p := SomePacket(inner, ipv6, x, y);
      if !outer.ZonesContain(inner) { ZonesFollow(outer, inner, p); }
      if !IdentityContains(outer, inner) { IdentityFollows(outer, inner, p); }
      ServicesFollow(outer, inner, p);
    }
    forall p | Matches(inner, p) && (!Matchable(inner) || CoversShared(outer, inner)) ensures Matches(outer, p) {
      MatchHasFamily(inner, p);
      SharedCoverSound(outer, inner, p);
    }
  }

  lemma SharedCoverSound(outer: ResolvedRule, inner: ResolvedRule, p: Packet)
    requires outer.services.WellFormed() && inner.services.WellFormed()
    requires CoversShared(outer, inner) && Matches(inner, p) && HasFamily(inner, p.ipv6)
    ensures Matches(outer, p)
  {
    hide IntsOf, ServiceSet.WellFormed, ServiceSet.Serves, ServiceSet.Includes;
    IncludeIsSubservice(outer.services, inner.services);
    assert FamilyIncluded(outer, inner, p.ipv6);
  }

  /** Exactly when the coverage test says what it promises, that every packet of the
      covered rule is a packet of the other: unless the rule has a family on one side
      only, it has packets, and those alone escape. */
  lemma CoverExact(outer: ResolvedRule, inner: ResolvedRule)
    requires outer.services.WellFormed() && inner.services.WellFormed()
    ensures (Covers(outer, inner) <==> AllMatched(outer, inner)) <==>
      if Matchable(inner) then CoversShared(outer, inner) ==> StraysIncluded(outer, inner) else Covers(outer, inner)
  {
    hide IntsOf, ServiceSet.WellFormed, ServiceSet.Includes, AllMatched, Matchable;
    AllMatchedExact(outer, inner);
    CoversBothParts(outer, inner);
  }

  lemma CoversBothParts(outer: ResolvedRule, inner: ResolvedRule)
    ensures Covers(outer, inner) <==> CoversShared(outer, inner) && StraysIncluded(outer, inner)
  {
    hide IntsOf, ServiceSet.Includes, HasFamily;
    if CoversShared(outer, inner) && StraysIncluded(outer, inner) {
      assert FamilyIncluded(outer, inner, false) && FamilyIncluded(outer, inner, true);
    }
  }

  /** The rules on which the test keeps its promise against every other rule are exactly
      those that can match and have each family on both sides or on neither. */
  lemma CoverAlwaysExact(inner: ResolvedRule)
    requires inner.services.WellFormed()
    ensures (forall outer: ResolvedRule :: outer.services.WellFormed() ==>
      (Covers(outer, inner) <==> AllMatched(outer, inner)))
       <==> Matchable(inner) && Balanced(inner)
  {
    hide IntsOf, ServiceSet.WellFormed, ServiceSet.Includes, AllMatched, Covers;
    if !Matchable(inner) {
      UnmatchableEscapes(inner);
    } else if !Balanced(inner) {
      UnbalancedEscapes(inner);
    } else {
      forall outer: ResolvedRule | outer.services.WellFormed()
        ensures Covers(outer, inner) <==> AllMatched(outer, inner)
      {
        CoverExact(outer, inner);
        BalancedHasNoStrays(outer, inner);
      }
    }
  }

  /** Each family is present on both sides of the rule or on neither. */
  predicate Balanced(r: ResolvedRule) {
    forall ipv6 :: r.source.Family(ipv6).IsEmpty() <==> r.destination.Family(ipv6).IsEmpty()
  }

  lemma BalancedHasNoStrays(outer: ResolvedRule, inner: ResolvedRule)
    requires Balanced(inner)
    ensures StraysIncluded(outer, inner)
  {
    hide IntsOf;
    forall ipv6 | !HasFamily(inner, ipv6) ensures FamilyIncluded(outer, inner, ipv6) {
      NonEmptyInts(inner.source.Family(ipv6).intervals);
      NonEmptyInts(inner.destination.Family(ipv6).intervals);
    }
  }

  /** A rule from a zone of its own does not cover a rule without packets. */
  lemma UnmatchableEscapes(inner: ResolvedRule)
    requires inner.services.WellFormed() && !Matchable(inner)
    ensures exists outer: ResolvedRule ::
      outer.services.WellFormed() && AllMatched(outer, inner) && !Covers(outer, inner)
  {
    hide IntsOf, ServiceSet.WellFormed, ServiceSet.Includes, AllMatched;
    var z := FreshName(inner.srcZones);
    var outer := inner.(srcZones := {z});
    if inner.srcZones != {} { assert Pick(inner.srcZones) != z; }
    AllMatchedExact(outer, inner);
    assert !Covers(outer, inner);
  }

  function Drop(a: AddressSet, ipv6: bool): AddressSet { if ipv6 then a.(v6 := EMPTY) else a.(v4 := EMPTY) }

  lemma DropOneFamily(inner: ResolvedRule, ipv6: bool)
    requires !(inner.source.Family(ipv6).IsEmpty() <==> inner.destination.Family(ipv6).IsEmpty())
    ensures var outer := inner.(source := Drop(inner.source, ipv6), destination := Drop(inner.destination, ipv6));
      FamilyIncluded(outer, inner, !ipv6) && !FamilyIncluded(outer, inner, ipv6)
  {
    hide IntsOf;
    NoInts([]);
    NonEmptyInts(inner.source.Family(ipv6).intervals);
    NonEmptyInts(inner.destination.Family(ipv6).intervals);
    if inner.source.Family(ipv6).IsEmpty() {
      assert Pick(inner.destination.Family(ipv6).Ints()) !in EMPTY.Ints();
    } else {
      assert Pick(inner.source.Family(ipv6).Ints()) !in EMPTY.Ints();
    }
  }

  /** The rule itself, less the addresses of a family it has on one side only, matches all
      its packets and does not cover it. */
  lemma UnbalancedEscapes(inner: ResolvedRule)
    requires inner.services.WellFormed() && Matchable(inner) && !Balanced(inner)
    ensures exists outer: ResolvedRule ::
      outer.services.WellFormed() && AllMatched(outer, inner) && !Covers(outer, inner)
  {
    hide IntsOf, ServiceSet.WellFormed, AllMatched, Covers, Drop;
    var ipv6 :| !(inner.source.Family(ipv6).IsEmpty() <==> inner.destination.Family(ipv6).IsEmpty());
    WithoutStrays(inner, ipv6);
  }

  lemma WithoutStrays(inner: ResolvedRule, ipv6: bool)
    requires inner.services.WellFormed()
    requires !(inner.source.Family(ipv6).IsEmpty() <==> inner.destination.Family(ipv6).IsEmpty())
    ensures var outer := inner.(source := Drop(inner.source, ipv6), destination := Drop(inner.destination, ipv6));
      AllMatched(outer, inner) && !Covers(outer, inner)
  {
    hide IntsOf, ServiceSet.WellFormed, ServiceSet.Includes, ServiceSet.Serves, AllMatched, FamilyIncluded, Drop,
        Covers;
    hide Matchable, IdentityContains, ResolvedRule.ZonesContain;
    var outer := inner.(source := Drop(inner.source, ipv6), destination := Drop(inner.destination, ipv6));
    DropOneFamily(inner, ipv6);
    IncludeIsSubservice(inner.services, inner.services);
    SameNames(outer, inner);
    AllMatchedExact(outer, inner);
    StrayEscapes(outer, inner, ipv6);
  }

  lemma StrayEscapes(outer: ResolvedRule, inner: ResolvedRule, ipv6: bool)
    requires !FamilyIncluded(outer, inner, ipv6)
    ensures !Covers(outer, inner)
  {
    hide IntsOf, ServiceSet.Includes, IdentityContains;
  }

  lemma SameNames(outer: ResolvedRule, inner: ResolvedRule)
    requires outer.srcZones == inner.srcZones && outer.dstZones == inner.dstZones
    requires outer.applications == inner.applications && outer.users == inner.users
    ensures outer.ZonesContain(inner) && IdentityContains(outer, inner)
  {
  }

  /** The promise fails for a common shape: a rule from `any` to IPv4 addresses. The same
      rule with all of IPv4 as its source, which two halves of it resolve to, matches
      every packet of it, and yet does not pass the test. */
  lemma AnySourceEscapesCoverage(inner: ResolvedRule)
    requires inner.services.WellFormed() && inner.services.NonEmpty()
    requires inner.source == AnyAddress() && !inner.destination.v4.IsEmpty() && inner.destination.v6.IsEmpty()
    ensures var outer := inner.(source := AddressSet(Universe(IPV4_MAX), EMPTY));
      Matchable(inner) && AllMatched(outer, inner) && !Covers(outer, inner)
  {
    hide ServiceSet.WellFormed, ServiceSet.Serves, ServiceSet.Includes;
    var outer := inner.(source := AddressSet(Universe(IPV4_MAX), EMPTY));
    NoInts([]);
    assert 0 in inner.source.v6.Ints() && 0 !in outer.source.v6.Ints();
    IncludeIsSubservice(inner.services, inner.services);
    AllMatchedExact(outer, inner);
    NonEmptyInts(inner.destination.v6.intervals);
  }

  // ------------------------------------------------------------------- filters

  ghost predicate SharePacket(a: ResolvedRule, b: ResolvedRule) {
    exists p :: Matches(a, p) && Matches(b, p)
  }

  /** Both sides overlap in one and the same family. */
  ghost predicate SameFamilyOverlap(a: ResolvedRule, b: ResolvedRule) {
    exists ipv6, x, y :: a.source.Holds(ipv6, x) && b.source.Holds(ipv6, x)
                      && a.destination.Holds(ipv6, y) && b.destination.Holds(ipv6, y)
  }

  lemma ZonesMeet(a: set<string>, b: set<string>) returns (z: string)
    requires !(a != {} && b != {} && a * b == {})
    ensures InZones(a, z) && InZones(b, z)
  {
    if a == {} { z := SomeMember(b); }
    else if b == {} { z := SomeMember(a); }
    else { z := Pick(a * b); }
  }

  lemma NamesMeet(a: set<string>, b: set<string>) returns (n: string)
    requires NamesOverlap(a, b)
    ensures Names(a, n) && Names(b, n)
  {
    if a == {} || "any" in a { n := SomeMember(b); }
    else if b == {} || "any" in b { n := SomeMember(a); }
    else { n := Pick(a * b); }
  }

  lemma SharedNames(a: ResolvedRule, b: ResolvedRule, p: Packet)
    requires Matches(a, p) && Matches(b, p)
    ensures a.ZonesIntersect(b) && IdentityOverlaps(a, b)
  {
    hide IntsOf, ServiceSet.Serves, AddressSet.Holds;
    assert p.srcZone in a.srcZones && p.srcZone in b.srcZones ==> p.srcZone in a.srcZones * b.srcZones;
    assert p.dstZone in a.dstZones && p.dstZone in b.dstZones ==> p.dstZone in a.dstZones * b.dstZones;
    assert p.application in a.applications && p.application in b.applications ==>
      p.application in a.applications * b.applications;
    assert p.user in a.users && p.user in b.users ==> p.user in a.users * b.users;
  }

  /** Exactly which pairs share a packet. The filters differ from this only in testing
      the two sides' families separately. */
  lemma SharedPacketExact(a: ResolvedRule, b: ResolvedRule)
    requires a.services.WellFormed() && b.services.WellFormed()
    ensures SharePacket(a, b) <==>
      a.ZonesIntersect(b) && SameFamilyOverlap(a, b) && a.services.Overlaps(b.services) && IdentityOverlaps(a, b)
  {
    hide IntsOf, ServiceSet.WellFormed, ServiceSet.Serves, ServiceSet.Overlaps;
    OverlapIsSharedService(a.services, b.services);
    if SharePacket(a, b) {
      var p :| Matches(a, p) && Matches(b, p);
      SharedNames(a, b, p);
      assert a.source.Holds(p.ipv6, p.source) && b.source.Holds(p.ipv6, p.source)
          && a.destination.Holds(p.ipv6, p.destination) && b.destination.Holds(p.ipv6, p.destination);
      assert a.services.Serves(p.protocol, p.port) && b.services.Serves(p.protocol, p.port);
    }
    if a.ZonesIntersect(b) && SameFamilyOverlap(a, b) && SharedService(a.services, b.services) &&
        IdentityOverlaps(a, b) {
      var ipv6, x, y :| a.source.Holds(ipv6, x) && b.source.Holds(ipv6, x)
                      && a.destination.Holds(ipv6, y) && b.destination.Holds(ipv6, y);
      var protocol, port :| RealService(protocol, port) && a.services.Serves(protocol, port) &&
          b.services.Serves(protocol, port);
      var srcZone := ZonesMeet(a.srcZones, b.srcZones);
      var dstZone := ZonesMeet(a.dstZones, b.dstZones);
      var application := NamesMeet(a.applications, b.applications);
      var user := NamesMeet(a.users, b.users);
      var p := Packet(ipv6, x, y, protocol, port, srcZone, dstZone, application, user);
      assert Matches(a, p) && Matches(b, p);
    }
  }

  predicate OnlyV4(r: ResolvedRule) { r.source.v6.IsEmpty() && r.destination.v6.IsEmpty() }

  predicate OnlyV6(r: ResolvedRule) { r.source.v4.IsEmpty() && r.destination.v4.IsEmpty() }

  lemma OverlapWitness(a: AddressSet, b: AddressSet) returns (ipv6: bool, x: int)
    requires a.Overlaps(b)
    ensures a.Holds(ipv6, x) && b.Holds(ipv6, x)
  {
    ipv6 := a.v4.Ints() * b.v4.Ints() == {};
    if ipv6 { x := Pick(a.v6.Ints() * b.v6.Ints()); } else { x := Pick(a.v4.Ints() * b.v4.Ints()); }
  }

  lemma WitnessOverlap(a: AddressSet, b: AddressSet, ipv6: bool, x: int)
    requires a.Holds(ipv6, x) && b.Holds(ipv6, x)
    ensures a.Overlaps(b)
  {
    if ipv6 { assert x in a.v6.Ints() * b.v6.Ints(); } else { assert x in a.v4.Ints() * b.v4.Ints(); }
  }

  lemma HoldsNonEmpty(a: AddressSet, ipv6: bool, x: int)
    requires a.Holds(ipv6, x)
    ensures !a.Family(ipv6).IsEmpty()
  {
    NonEmptyInts(a.Family(ipv6).intervals);
  }

  /** No pair that shares a packet is ever filtered out, and those let through without
      sharing one overlap on the two sides in different families only; when either rule is
      of a single family the filters pass exactly the pairs that share a packet. */
  lemma FiltersExact(a: ResolvedRule, b: ResolvedRule)
    requires a.services.WellFormed() && b.services.WellFormed()
    ensures SharePacket(a, b) <==> PassesFilters(a, b) && SameFamilyOverlap(a, b)
    ensures OnlyV4(a) || OnlyV6(a) || OnlyV4(b) || OnlyV6(b) ==> (PassesFilters(a, b) <==> SharePacket(a, b))
  {
    hide IntsOf, ServiceSet.WellFormed, ServiceSet.Serves, ServiceSet.Overlaps, AddressSet.Holds, AddressSet.Overlaps;
    SharedPacketExact(a, b);
    if SharePacket(a, b) {
      var ipv6, x, y :| a.source.Holds(ipv6, x) && b.source.Holds(ipv6, x)
                      && a.destination.Holds(ipv6, y) && b.destination.Holds(ipv6, y);
      WitnessOverlap(a.source, b.source, ipv6, x);
      WitnessOverlap(a.destination, b.destination, ipv6, y);
    }
    if PassesFilters(a, b) && (OnlyV4(a) || OnlyV6(a) || OnlyV4(b) || OnlyV6(b)) {
      var f, x := OverlapWitness(a.source, b.source);
      var g, y := OverlapWitness(a.destination, b.destination);
      HoldsNonEmpty(a.source, f, x);
      HoldsNonEmpty(b.source, f, x);
      HoldsNonEmpty(a.destination, g, y);
      HoldsNonEmpty(b.destination, g, y);
      assert f == g;
    }
  }

  /** The filters never drop a pair `_covers` would accept, unless the covered rule is empty. */
  lemma FiltersKeepCovered(outer: ResolvedRule, inner: ResolvedRule)
    requires outer.services.WellFormed() && inner.services.WellFormed()
    requires Covers(outer, inner) && inner.CanMatch()
    ensures PassesFilters(outer, inner) && PassesFilters(inner, outer)
  {
    hide IntsOf, ServiceSet.WellFormed, ServiceSet.Serves, ServiceSet.Overlaps, ServiceSet.Includes;
    var f := inner.source.v4.IsEmpty();
    var x := SomeAddress(inner.source, f);
    WitnessOverlap(outer.source, inner.source, f, x);
    WitnessOverlap(inner.source, outer.source, f, x);
    var g := inner.destination.v4.IsEmpty();
    var y := SomeAddress(inner.destination, g);
    WitnessOverlap(outer.destination, inner.destination, g, y);
    WitnessOverlap(inner.destination, outer.destination, g, y);
    var protocol, port := SomeService(inner.services);
    IncludeIsSubservice(outer.services, inner.services);
    assert outer.services.Serves(protocol, port);
    OverlapIsSharedService(outer.services, inner.services);
    OverlapIsSharedService(inner.services, outer.services);
    ContainedNamesOverlap(outer.applications, inner.applications);
    ContainedNamesOverlap(outer.users, inner.users);
    ContainedZonesMeet(outer, inner);
  }

  lemma ContainedNamesOverlap(outer: set<string>, inner: set<string>)
    requires NamesContain(outer, inner)
    ensures NamesOverlap(outer, inner) && NamesOverlap(inner, outer)
  {
    if outer != {} && "any" !in outer { assert Pick(inner) in outer; }
  }

  lemma ContainedZonesMeet(outer: ResolvedRule, inner: ResolvedRule)
    requires outer.ZonesContain(inner)
    ensures outer.ZonesIntersect(inner) && inner.ZonesIntersect(outer)
  {
    if outer.srcZones != {} { assert Pick(inner.srcZones) in outer.srcZones; }
    if outer.dstZones != {} { assert Pick(inner.dstZones) in outer.dstZones; }
  }

  /** With both families the OR over families is not exact: this rule passes the filters
      against itself, and even covers itself, but matches no packet. */
  lemma MixedFamiliesFoolTheFilters(r: ResolvedRule)
    requires r.source == AddressSet(Universe(IPV4_MAX), EMPTY) && r.destination == AddressSet(EMPTY, Universe(IPV6_MAX))
    requires r.services == AnyService()
    ensures PassesFilters(r, r) && Covers(r, r) && !SharePacket(r, r)
  {
    assert 0 in r.source.v4.Ints() && 0 in r.destination.v6.Ints();
    assert r.source.Overlaps(r.source) by { WitnessOverlap(r.source, r.source, false, 0); }
    assert r.destination.Overlaps(r.destination) by { WitnessOverlap(r.destination, r.destination, true, 0); }
    if r.applications != {} { assert Pick(r.applications) in r.applications; }
    if r.users != {} { assert Pick(r.users) in r.users; }
    ContainedZonesMeet(r, r);
  }

  // ------------------------------------------------------ the rules of examples

  /** From the given IPv4 sources to address 0, any service, nothing else named. */
  ghost function HostRule(action: string, sources: set<int>, unread: seq<string>): ResolvedRule
    requires NonNegative(sources)
  {
    ResolvedRule(true, action, {}, {}, AddressSet(Of(sources), EMPTY), AddressSet(Of({0}), EMPTY), AnyService(),
                 {}, {}, unread, [], [], None)
  }

  lemma HostRulesCompare(a: string, s: set<int>, u: seq<string>, b: string, t: set<int>, v: seq<string>)
    requires NonNegative(s) && NonNegative(t)
    ensures Covers(HostRule(a, s, u), HostRule(b, t, v)) <==> t <= s
    ensures PassesFilters(HostRule(a, s, u), HostRule(b, t, v)) <==> s * t != {}
    ensures HostRule(a, s, u).services.WellFormed() && HostRule(b, t, v).services.WellFormed()
  {
    hide IntsOf, Universe;
    NoInts([]);
    assert 0 in Of({0}).Ints() * Of({0}).Ints();
  }
}
