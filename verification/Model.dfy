/** Rules as products of sets: services, addresses of two families, zones and names.

    The ghost predicates state what each test of the source decides, in terms of the
    integers and names a rule stands for; the methods are those tests. The lemmas then
    say which of them are exact about packets. */
module Model {
  import opened Common
  import opened Intervals

  const ANY_PROTOCOL := -1
  const MAX_GROUP_DEPTH := 16

  /** The protocol numbers the resolver can name. */
  predicate NamedProtocol(p: int) { p in {1, 2, 6, 17, 47, 50, 51, 58, 132} }

  lemma SingleIsCanonical(hi: int)
    requires 0 <= hi
    ensures Canonical([Interval(0, hi)]) && IntsOf([Interval(0, hi)]) == Range(0, hi)
  {
    AppendPoints([], Interval(0, hi));
    assert [] + [Interval(0, hi)] == [Interval(0, hi)];
  }

  /** `[0, hi]` as one interval; the source builds the three universes once. */
  function Universe(hi: int): (r: IntervalSet)
    requires hi == PORT_MAX || hi == IPV4_MAX || hi == IPV6_MAX
    ensures r.intervals == [Interval(0, hi)] && r.Ints() == Range(0, hi)
  {
    SingleIsCanonical(hi);
    var ivs := [Interval(0, hi)];
    var signature := if hi == PORT_MAX then {0} else AllBuckets();
    assert signature == BucketsOf(ivs) by { UniverseSignature(hi); }
    assert SizeOf(ivs) == hi + 1;
    Stored(ivs, signature, hi + 1)
  }

  lemma UniverseSignature(hi: int)
    requires hi == PORT_MAX || hi == IPV4_MAX || hi == IPV6_MAX
    ensures BucketsOf([Interval(0, hi)]) == if hi == PORT_MAX then {0} else AllBuckets()
  {
    var ivs := [Interval(0, hi)];
    forall b | b in AllBuckets() ensures Touched(ivs, 1, b) <==> Buckets(ivs[0]).Holds(b) { }
    assert hi == PORT_MAX ==> Buckets(ivs[0]) == Interval(0, 0);
    assert hi == IPV4_MAX ==> Buckets(ivs[0]) == Interval(0, SIGNATURE_BUCKETS - 1);
  }

  // ---------------------------------------------------------------- services

  datatype ServiceSet = ServiceSet(byProtocol: map<int, IntervalSet>) {
    predicate IsAny() { ANY_PROTOCOL in byProtocol }

    predicate NonEmpty() { byProtocol != map[] }

    /** The ports a packet of this protocol is compared with: an empty entry is falsy and
        falls through to the ANY entry. */
    function PortsFor(protocol: int): Option<IntervalSet> {
      if protocol in byProtocol && !byProtocol[protocol].IsEmpty() then Some(byProtocol[protocol])
      else if ANY_PROTOCOL in byProtocol then Some(byProtocol[ANY_PROTOCOL])
      else None
    }

    ghost predicate Serves(protocol: int, port: int) {
      PortsFor(protocol).Some? && port in PortsFor(protocol).value.Ints()
    }

    /** What every resolved service set looks like. */
    ghost predicate WellFormed() {
      || byProtocol == map[ANY_PROTOCOL := Universe(PORT_MAX)]
      || Named()
    }

    ghost predicate Named() {
      forall p :: p in byProtocol ==>
        NamedProtocol(p) && !byProtocol[p].IsEmpty() && byProtocol[p].Ints() <= Range(0, PORT_MAX)
    }

    ghost predicate Overlaps(other: ServiceSet) {
      if IsAny() || other.IsAny() then NonEmpty() && other.NonEmpty()
      else exists p :: p in byProtocol && p in other.byProtocol &&
                       byProtocol[p].Ints() * other.byProtocol[p].Ints() != {}
    }

    ghost predicate Includes(other: ServiceSet) {
      || !other.NonEmpty()
      || IsAny()
      || (!other.IsAny() && forall p :: p in other.byProtocol ==>
            p in byProtocol && other.byProtocol[p].Ints() <= byProtocol[p].Ints())
    }
  }

  function AnyService(): ServiceSet { ServiceSet(map[ANY_PROTOCOL := Universe(PORT_MAX)]) }

  method ServicesIntersect(a: ServiceSet, b: ServiceSet) returns (r: bool)
    ensures r <==> a.Overlaps(b)
  {
    if a.IsAny() || b.IsAny() { return a.NonEmpty() && b.NonEmpty(); }
    var mine, theirs := a.byProtocol, b.byProtocol;
    if |mine| > |theirs| { mine, theirs := theirs, mine; }
    var todo := mine.Keys;
    while todo != {}
      invariant todo <= mine.Keys
      invariant forall p :: p in mine.Keys - todo && p in theirs ==> mine[p].Ints() * theirs[p].Ints() == {}
    {
      var p := Choose(todo);
      todo := todo - {p};
      if p in theirs {
        var meet := Intersects(mine[p], theirs[p]);
        if meet {
          assert mine[p].Ints() * theirs[p].Ints() == theirs[p].Ints() * mine[p].Ints();
          return true;
        }
      }
    }
    forall p | p in a.byProtocol && p in b.byProtocol
      ensures a.byProtocol[p].Ints() * b.byProtocol[p].Ints() == {}
    {
      assert p in mine.Keys - todo && p in theirs;
      assert mine[p].Ints() * theirs[p].Ints() == theirs[p].Ints() * mine[p].Ints();
    }
    return false;
  }

  method ServicesContain(a: ServiceSet, b: ServiceSet) returns (r: bool)
    ensures r <==> a.Includes(b)
  {
    if b.byProtocol == map[] { return true; }
    if a.IsAny() { return true; }
    if b.IsAny() { return false; }
    var todo := b.byProtocol.Keys;
    while todo != {}
      invariant todo <= b.byProtocol.Keys
      invariant forall p :: p in b.byProtocol.Keys - todo ==>
        p in a.byProtocol && b.byProtocol[p].Ints() <= a.byProtocol[p].Ints()
    {
      var p := Choose(todo);
      todo := todo - {p};
      if p !in a.byProtocol { return false; }
      var inside := ContainsSet(a.byProtocol[p], b.byProtocol[p]);
      if !inside { return false; }
    }
    return true;
  }

  predicate RealService(protocol: int, port: int) { 0 <= protocol <= 255 && 0 <= port <= PORT_MAX }

  lemma SomePort(s: IntervalSet) returns (port: int)
    requires !s.IsEmpty()
    ensures port in s.Ints()
  {
    NonEmptyInts(s.intervals);
    port := Pick(s.Ints());
  }

  /** What a well-formed set serves, without the lookup rule. */
  lemma ServesAt(s: ServiceSet, protocol: int, port: int)
    requires s.WellFormed()
    ensures s.IsAny() && RealService(protocol, port) ==> s.Serves(protocol, port)
    ensures !s.IsAny() ==> (s.Serves(protocol, port) <==>
      protocol in s.byProtocol && port in s.byProtocol[protocol].Ints())
    ensures !s.IsAny() && s.Serves(protocol, port) ==> RealService(protocol, port) && protocol != 0
  {
    hide IntsOf, NamedProtocol, ServiceSet.WellFormed;
    AnyIsNotNamed(s);
    NamedIsReal(protocol);
  }

  lemma ServesMeans(s: ServiceSet)
    requires s.WellFormed()
    ensures s.IsAny() ==> forall protocol, port :: RealService(protocol, port) ==> s.Serves(protocol, port)
    ensures !s.IsAny() ==> forall protocol, port ::
      s.Serves(protocol, port) <==> protocol in s.byProtocol && port in s.byProtocol[protocol].Ints()
    ensures !s.IsAny() ==> forall protocol, port :: s.Serves(protocol, port) ==>
      RealService(protocol, port) && protocol != 0
  {
    hide *;
    forall protocol, port { ServesAt(s, protocol, port); }
  }

  lemma AnyIsNotNamed(s: ServiceSet)
    requires s.WellFormed()
    ensures s.IsAny() <==> s == AnyService()
    ensures !s.IsAny() ==> s.Named()
  {
  }

  lemma NamedIsReal(p: int)
    ensures NamedProtocol(p) ==> 0 < p <= 255
  {
  }

  lemma NotSubset<T>(a: set<T>, b: set<T>) returns (x: T)
    requires !(a <= b)
    ensures x in a && x !in b
  {
    if a - b == {} {
      forall x | x in a ensures x in b { assert x !in a - b; }
    }
    x := Pick(a - b);
  }

  /** A non-empty well-formed set serves something real. */
  lemma SomeService(s: ServiceSet) returns (protocol: int, port: int)
    requires s.WellFormed() && s.NonEmpty()
    ensures RealService(protocol, port) && s.Serves(protocol, port)
    ensures s.IsAny() ==> protocol == 0
  {
    ServesMeans(s);
    hide IntsOf;
    if s.IsAny() {
      protocol, port := 0, 0;
      assert RealService(0, 0);
    } else {
      protocol := Pick(s.byProtocol.Keys);
      port := SomePort(s.byProtocol[protocol]);
    }
  }

  ghost predicate SharedService(a: ServiceSet, b: ServiceSet) {
    exists protocol, port :: RealService(protocol, port) && a.Serves(protocol, port) && b.Serves(protocol, port)
  }

  ghost predicate Subservice(a: ServiceSet, b: ServiceSet) {
    forall protocol, port :: RealService(protocol, port) && b.Serves(protocol, port) ==> a.Serves(protocol, port)
  }

  /** On resolved sets `intersects` holds exactly when some real protocol and port is
      served by both. */
  lemma OverlapIsSharedService(a: ServiceSet, b: ServiceSet)
    requires a.WellFormed() && b.WellFormed()
    ensures a.Overlaps(b) <==> SharedService(a, b)
  {
    hide IntsOf, ServiceSet.Serves;
    ServesMeans(a);
    ServesMeans(b);
    if a.Overlaps(b) {
      if a.IsAny() {
        var protocol, port := SomeService(b);
        assert a.Serves(protocol, port);
      } else if b.IsAny() {
        var protocol, port := SomeService(a);
        assert b.Serves(protocol, port);
      } else {
        var p :| p in a.byProtocol && p in b.byProtocol && a.byProtocol[p].Ints() * b.byProtocol[p].Ints() != {};
        var port := Pick(a.byProtocol[p].Ints() * b.byProtocol[p].Ints());
        assert a.Serves(p, port) && b.Serves(p, port);
      }
    }
    if SharedService(a, b) {
      var protocol, port :| RealService(protocol, port) && a.Serves(protocol, port) && b.Serves(protocol, port);
      ServesNothing(a, protocol, port);
      ServesNothing(b, protocol, port);
      if !a.IsAny() && !b.IsAny() {
        assert port in a.byProtocol[protocol].Ints() * b.byProtocol[protocol].Ints();
      }
    }
  }

  lemma ServesNothing(s: ServiceSet, protocol: int, port: int)
    requires s.Serves(protocol, port)
    ensures s.NonEmpty()
  {
  }

  /** On resolved sets `contains` holds exactly when every real protocol and port the
      other serves is served here. Protocol 0 has no name, so it tells ANY apart. */
  lemma IncludeIsSubservice(a: ServiceSet, b: ServiceSet)
    requires a.WellFormed() && b.WellFormed()
    ensures a.Includes(b) <==> Subservice(a, b)
  {
    hide IntsOf, ServiceSet.Serves;
    ServesMeans(a);
    ServesMeans(b);
    if a.Includes(b) {
      forall protocol, port | RealService(protocol, port) && b.Serves(protocol, port)
        ensures a.Serves(protocol, port)
      {
        ServesNothing(b, protocol, port);
      }
    } else if b.IsAny() {
      var protocol, port := SomeService(b);
      assert b.Serves(protocol, port) && !a.Serves(protocol, port);
    } else {
      var p :| p in b.byProtocol && !(p in a.byProtocol && b.byProtocol[p].Ints() <= a.byProtocol[p].Ints());
      var port: int;
      if p in a.byProtocol {
        port := NotSubset(b.byProtocol[p].Ints(), a.byProtocol[p].Ints());
      } else {
        port := SomePort(b.byProtocol[p]);
      }
      assert b.Serves(p, port) && !a.Serves(p, port);
    }
  }

  // --------------------------------------------------------------- addresses

  datatype AddressSet = AddressSet(v4: IntervalSet, v6: IntervalSet) {
    function Family(ipv6: bool): IntervalSet { if ipv6 then v6 else v4 }

    ghost predicate Holds(ipv6: bool, x: int) { x in Family(ipv6).Ints() }

    predicate NonEmpty() { !v4.IsEmpty() || !v6.IsEmpty() }

    /** True when EITHER family is full, as the source has it. */
    predicate IsAny() {
      v4.intervals == Universe(IPV4_MAX).intervals || v6.intervals == Universe(IPV6_MAX).intervals
    }

    ghost predicate Overlaps(other: AddressSet) {
      v4.Ints() * other.v4.Ints() != {} || v6.Ints() * other.v6.Ints() != {}
    }

    ghost predicate Includes(other: AddressSet) {
      other.v4.Ints() <= v4.Ints() && other.v6.Ints() <= v6.Ints()
    }

    ghost predicate InRange() {
      v4.Ints() <= Range(0, IPV4_MAX) && v6.Ints() <= Range(0, IPV6_MAX)
    }
  }

  const EMPTY_ADDRESS: AddressSet := AddressSet(EMPTY, EMPTY)

  function AnyAddress(): AddressSet { AddressSet(Universe(IPV4_MAX), Universe(IPV6_MAX)) }

  method AddressesIntersect(a: AddressSet, b: AddressSet) returns (r: bool)
    ensures r <==> a.Overlaps(b)
  {
    r := Intersects(a.v4, b.v4);
    if !r { r := Intersects(a.v6, b.v6); }
  }

  method AddressesContain(a: AddressSet, b: AddressSet) returns (r: bool)
    ensures r <==> a.Includes(b)
  {
    r := ContainsSet(a.v4, b.v4);
    if r { r := ContainsSet(a.v6, b.v6); }
  }

  ghost function UnionAddress(a: AddressSet, b: AddressSet): (r: AddressSet)
    ensures forall ipv6, x :: r.Holds(ipv6, x) <==> a.Holds(ipv6, x) || b.Holds(ipv6, x)
  {
    AddressSet(UnionOf(a.v4, b.v4), UnionOf(a.v6, b.v6))
  }

  ghost function Negated(a: AddressSet): (r: AddressSet)
    ensures r.InRange()
    ensures forall x :: 0 <= x <= IPV4_MAX ==> (r.Holds(false, x) <==> !a.Holds(false, x))
    ensures forall x :: 0 <= x <= IPV6_MAX ==> (r.Holds(true, x) <==> !a.Holds(true, x))
  {
    AddressSet(ComplementOf(a.v4, IPV4_MAX), ComplementOf(a.v6, IPV6_MAX))
  }

  method AddressUnion(a: AddressSet, b: AddressSet) returns (r: AddressSet)
    ensures r == UnionAddress(a, b)
  {
    var v4 := Union(a.v4, b.v4);
    var v6 := Union(a.v6, b.v6);
    EqualIffSameInts(v4, UnionOf(a.v4, b.v4));
    EqualIffSameInts(v6, UnionOf(a.v6, b.v6));
    r := AddressSet(v4, v6);
  }

  method Negate(a: AddressSet) returns (r: AddressSet)
    ensures r == Negated(a)
  {
    var v4 := Complement(a.v4, IPV4_MAX);
    var v6 := Complement(a.v6, IPV6_MAX);
    EqualIffSameInts(v4, ComplementOf(a.v4, IPV4_MAX));
    EqualIffSameInts(v6, ComplementOf(a.v6, IPV6_MAX));
    r := AddressSet(v4, v6);
  }

  /** Negating twice is the identity on, and only on, sets inside both universes. */
  lemma NegatedTwice(a: AddressSet)
    ensures Negated(Negated(a)) == a <==> a.InRange()
  {
    DoubleComplement(a.v4, IPV4_MAX);
    DoubleComplement(a.v6, IPV6_MAX);
  }

  // ------------------------------------------------------------------- rules

  datatype ResolvedRule = ResolvedRule(
    enabled: bool,
    action: string,
    srcZones: set<string>,
    dstZones: set<string>,
    source: AddressSet,
    destination: AddressSet,
    services: ServiceSet,
    applications: set<string>,
    users: set<string>,
    unresolvedSrc: seq<string>,
    unresolvedDst: seq<string>,
    unresolvedSvc: seq<string>,
    rulebase: Option<string>
  ) {
    predicate Permits() { Lower(action) in {"allow", "permit", "accept"} }

    /** MONITOR logs and carries on; every other action decides. */
    predicate Terminates() { Lower(action) != "monitor" }

    predicate SameAction(other: ResolvedRule) { Lower(action) == Lower(other.action) }

    predicate Resolved() { unresolvedSrc == [] && unresolvedDst == [] && unresolvedSvc == [] }

    predicate ZonesIntersect(other: ResolvedRule) {
      && !(srcZones != {} && other.srcZones != {} && srcZones * other.srcZones == {})
      && !(dstZones != {} && other.dstZones != {} && dstZones * other.dstZones == {})
    }

    predicate ZonesContain(other: ResolvedRule) {
      && (srcZones == {} || (other.srcZones != {} && other.srcZones <= srcZones))
      && (dstZones == {} || (other.dstZones != {} && other.dstZones <= dstZones))
    }

    /** Some address on each side and some service: the rule can match at all. */
    predicate CanMatch() { source.NonEmpty() && destination.NonEmpty() && services.NonEmpty() }
  }
}
