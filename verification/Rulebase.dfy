/** Turning the rules as written into rules as sets, negation included. */
module Rulebase {
  import opened Common
  import opened Intervals
  import opened Model
  import opened Catalogue
  import opened Resolver
  import opened ResolverLaws
  import opened Packets

  /** A rule as the device writes it: names, and a negation flag for each side. */
  datatype RawRule = RawRule(
    src: seq<string>, dst: seq<string>, services: seq<string>,
    srcNegate: bool, dstNegate: bool,
    enabled: bool, action: string,
    srcZones: set<string>, dstZones: set<string>,
    applications: set<string>, users: set<string>,
    rulebase: Option<string>)

  function OrAny(names: seq<string>): seq<string> { if names == [] then ["any"] else names }

  ghost function Side(a: AddressSet, negate: bool): AddressSet { if negate then Negated(a) else a }

  ghost function ResolveRule(c: Catalogue, rd: Reader, memo: Memo, raw: RawRule): (Memo, ResolvedRule) {
    var (memo, src) := LookupAddresses(c, rd, memo, OrAny(raw.src), |OrAny(raw.src)|);
    var (memo, dst) := LookupAddresses(c, rd, memo, OrAny(raw.dst), |OrAny(raw.dst)|);
    var (memo, svc) := LookupServices(c, rd, memo, OrAny(raw.services), |OrAny(raw.services)|);
    (memo, ResolvedRule(
      raw.enabled, if raw.action == "" then "allow" else raw.action, raw.srcZones, raw.dstZones,
      Side(src.set_, raw.srcNegate), Side(dst.set_, raw.dstNegate), svc.set_,
      raw.applications, raw.users, src.missing, dst.missing, svc.missing, raw.rulebase))
  }

  ghost function ResolveRules(c: Catalogue, rd: Reader, raws: seq<RawRule>, n: nat): (r: (Memo, seq<ResolvedRule>))
    requires n <= |raws|
    ensures |r.1| == n
  {
    if n == 0 then (Memo(map[], map[], {}, {}, {}), [])
    else
      var (memo, rules) := ResolveRules(c, rd, raws, n - 1);
      var (memo, rule) := ResolveRule(c, rd, memo, raws[n - 1]);
      (memo, rules + [rule])
  }

  method ResolveRulebase(c: Catalogue, rd: Reader, raws: seq<RawRule>) returns (rules: seq<ResolvedRule>,
      resolver: ObjectResolver)
    ensures (resolver.State(), rules) == ResolveRules(c, rd, raws, |raws|)
  {
    hide LookupAddresses, LookupServices, IntsOf, Stored.Valid;
    resolver := new ObjectResolver(c, rd);
    rules := [];
    for i := 0 to |raws|
      invariant fresh(resolver) && resolver.catalogue == c && resolver.reader == rd
      invariant (resolver.State(), rules) == ResolveRules(c, rd, raws, i)
    {
      var raw := raws[i];
      var source, missingSrc := resolver.ResolveAddresses(OrAny(raw.src));
      var destination, missingDst := resolver.ResolveAddresses(OrAny(raw.dst));
      var services, missingSvc := resolver.ResolveServices(OrAny(raw.services));
      if raw.srcNegate { source := Negate(source); }
      if raw.dstNegate { destination := Negate(destination); }
      rules := rules + [ResolvedRule(
        raw.enabled, if raw.action == "" then "allow" else raw.action, raw.srcZones, raw.dstZones,
        source, destination, services,
        raw.applications, raw.users, missingSrc, missingDst, missingSvc, raw.rulebase)];
    }
  }

  /** A list of names, as written or negated, takes in the address. */
  ghost predicate TakesIn(c: Catalogue, rd: Reader, names: seq<string>, negate: bool, ipv6: bool, x: int) {
    negate != (SomeNameIsAny(c, rd, names, |names|) || SomeNameHolds(c, rd, names, |names|, ipv6, x))
  }

  predicate InSpace(ipv6: bool, x: int) { 0 <= x <= if ipv6 then IPV6_MAX else IPV4_MAX }

  /** The side of a rule says exactly what its names say, or exactly the opposite. */
  ghost predicate Means(c: Catalogue, rd: Reader, names: seq<string>, negate: bool, side: AddressSet) {
    forall ipv6, x :: InSpace(ipv6, x) ==> (side.Holds(ipv6, x) <==> TakesIn(c, rd, names, negate, ipv6, x))
  }

  ghost predicate ServiceTakesIn(c: Catalogue, rd: Reader, names: seq<string>, protocol: int, port: int) {
    SomeServiceIsAny(c, rd, names, |names|) || SomeNameServes(c, rd, names, |names|, protocol, port)
  }

  /** The services of a rule are exactly those its names say. */
  ghost predicate Offers(c: Catalogue, rd: Reader, names: seq<string>, services: ServiceSet) {
    && services.WellFormed()
    && forall protocol, port :: RealService(protocol, port) ==>
         (services.Serves(protocol, port) <==> ServiceTakesIn(c, rd, names, protocol, port))
  }

  /** Everything else a rule says it says as written; an action left blank allows. What it
      could not read it names. */
  ghost predicate Keeps(c: Catalogue, rd: Reader, raw: RawRule, rule: ResolvedRule) {
    && rule.enabled == raw.enabled
    && rule.action == (if raw.action == "" then "allow" else raw.action)
    && rule.srcZones == raw.srcZones && rule.dstZones == raw.dstZones
    && rule.applications == raw.applications && rule.users == raw.users
    && rule.rulebase == raw.rulebase
    && rule.unresolvedSrc == UnreadNames(c, rd, OrAny(raw.src), |OrAny(raw.src)|)
    && rule.unresolvedDst == UnreadNames(c, rd, OrAny(raw.dst), |OrAny(raw.dst)|)
    && rule.unresolvedSvc == UnreadServices(c, rd, OrAny(raw.services), |OrAny(raw.services)|)
  }

  lemma ServicesOffered(c: Catalogue, rd: Reader, memo: Memo, names: seq<string>)
    requires TameServices(c) && rd.Sound() && FaithfulServices(c, rd, memo) && AllWellFormed(memo)
    ensures var (after, e) := LookupServices(c, rd, memo, names, |names|);
      && FaithfulServices(c, rd, after) && AllWellFormed(after) && Offers(c, rd, names, e.set_)
      && e.missing == UnreadServices(c, rd, names, |names|)
  {
    hide LookupServices, UnreadServices, TameServices, FaithfulServices, ExpandService, SomeNameServes,
        SomeServiceIsAny, IntsOf,
        Stored.Valid, ServiceSet.Serves, ServiceSet.WellFormed;
    ServiceListIsUnion(c, rd, memo, names, |names|);
    ListServicesWellFormed(c, rd, memo, names, |names|);
    forall protocol, port | RealService(protocol, port) ensures AnyService().Serves(protocol, port) {
      AnyIsWellFormed();
      ServesAt(AnyService(), protocol, port);
    }
  }

  lemma AnyHoldsAll(ipv6: bool, x: int)
    requires 0 <= x <= (if ipv6 then IPV6_MAX else IPV4_MAX)
    ensures AnyAddress().Holds(ipv6, x)
  {
  }

  lemma SideMeans(c: Catalogue, rd: Reader, memo: Memo, names: seq<string>, negate: bool)
    requires Tame(c) && Faithful(c, rd, memo)
    ensures var (after, e) := LookupAddresses(c, rd, memo, names, |names|);
      && Faithful(c, rd, after) && Means(c, rd, names, negate, Side(e.set_, negate))
      && e.missing == UnreadNames(c, rd, names, |names|)
  {
    hide LookupAddresses, UnreadNames, Tame, Faithful, Expand, SomeNameHolds, SomeNameIsAny, IntsOf, Stored.Valid,
        AddressSet.Holds;
    ListIsUnion(c, rd, memo, names, |names|);
    var e := LookupAddresses(c, rd, memo, names, |names|).1;
    forall ipv6, x | InSpace(ipv6, x)
      ensures Side(e.set_, negate).Holds(ipv6, x) <==> TakesIn(c, rd, names, negate, ipv6, x)
    {
      AnyHoldsAll(ipv6, x);
      if ipv6 {} else {}
    }
  }

  /** Every rule of a resolved rulebase means what it says, wherever it stands in the list
      and whatever was resolved before it. */
  lemma {:induction false} RulesMeanWhatTheySay(c: Catalogue, rd: Reader, raws: seq<RawRule>, n: nat)
    requires Tame(c) && TameServices(c) && rd.Sound() && n <= |raws|
    ensures var (memo, rules) := ResolveRules(c, rd, raws, n);
      && Faithful(c, rd, memo) && FaithfulServices(c, rd, memo) && AllWellFormed(memo)
      && forall i :: 0 <= i < n ==>
        && Means(c, rd, OrAny(raws[i].src), raws[i].srcNegate, rules[i].source)
        && Means(c, rd, OrAny(raws[i].dst), raws[i].dstNegate, rules[i].destination)
        && Offers(c, rd, OrAny(raws[i].services), rules[i].services)
        && Keeps(c, rd, raws[i], rules[i])
  {
    hide ResolveRule, Keeps, Tame, TameServices, Offers, Means, Faithful, FaithfulServices, AllWellFormed, OrAny,
        IntsOf,
        Stored.Valid;
    if n == 0 {
      NothingRemembered(c, rd);
    } else {
      RulesMeanWhatTheySay(c, rd, raws, n - 1);
      var memo := ResolveRules(c, rd, raws, n - 1).0;
      RuleMeansWhatItSays(c, rd, memo, raws[n - 1]);
    }
  }

  /** What a written rule says of a packet: it is enabled, the packet goes from and to zones it
      names, or any if it names none, and is of an application and a user it names or of any,
      and its addresses and service are among those its names stand for. */
  ghost predicate Says(c: Catalogue, rd: Reader, raw: RawRule, p: Packet) {
    && raw.enabled
    && (raw.srcZones != {} ==> p.srcZone in raw.srcZones)
    && (raw.dstZones != {} ==> p.dstZone in raw.dstZones)
    && (raw.applications != {} && "any" !in raw.applications ==> p.application in raw.applications)
    && (raw.users != {} && "any" !in raw.users ==> p.user in raw.users)
    && TakesIn(c, rd, OrAny(raw.src), raw.srcNegate, p.ipv6, p.source)
    && TakesIn(c, rd, OrAny(raw.dst), raw.dstNegate, p.ipv6, p.destination)
    && ServiceTakesIn(c, rd, OrAny(raw.services), p.protocol, p.port)
  }

  /** A resolved rule matches exactly the packets its written rule says, if it is enabled at
      all, keeps its action and its rulebase, and can be read exactly when no name that
      cannot be read stands on any side ahead of one that is `any`. */
  lemma RuleMatchesExact(c: Catalogue, rd: Reader, raws: seq<RawRule>, i: nat, p: Packet)
    requires Tame(c) && TameServices(c) && rd.Sound() && i < |raws|
    requires InSpace(p.ipv6, p.source) && InSpace(p.ipv6, p.destination) && RealService(p.protocol, p.port)
    ensures var rule := ResolveRules(c, rd, raws, |raws|).1[i];
      var src, dst, services := OrAny(raws[i].src), OrAny(raws[i].dst), OrAny(raws[i].services);
      && (rule.enabled && Matches(rule, p) <==> Says(c, rd, raws[i], p))
      && rule.action == (if raws[i].action == "" then "allow" else raws[i].action)
      && rule.rulebase == raws[i].rulebase
      && (rule.Resolved() <==>
            && (forall j :: 0 <= j < |src| ==> !UnreadAt(c, rd, src, j))
            && (forall j :: 0 <= j < |dst| ==> !UnreadAt(c, rd, dst, j))
            && (forall j :: 0 <= j < |services| ==> !UnreadServiceAt(c, rd, services, j)))
  {
    hide ResolveRules, Tame, TameServices, Faithful, FaithfulServices, AllWellFormed, UnreadAt, UnreadServiceAt, OrAny;
    hide TakesIn, ServiceTakesIn, ServiceSet.Serves, AddressSet.Holds, UnreadNames, UnreadServices, IntsOf,
        Reader.Sound;
    RulesMeanWhatTheySay(c, rd, raws, |raws|);
    NothingUnread(c, rd, OrAny(raws[i].src), |OrAny(raws[i].src)|);
    NothingUnread(c, rd, OrAny(raws[i].dst), |OrAny(raws[i].dst)|);
    NoServiceUnread(c, rd, OrAny(raws[i].services), |OrAny(raws[i].services)|);
  }

  /** A side left out takes in everything, and a list of services left out every service. */
  lemma LeftOutIsAny(c: Catalogue, rd: Reader, ipv6: bool, x: int, protocol: int, port: int)
    ensures TakesIn(c, rd, OrAny([]), false, ipv6, x) && ServiceTakesIn(c, rd, OrAny([]), protocol, port)
    ensures !UnreadAt(c, rd, OrAny([]), 0) && !UnreadServiceAt(c, rd, OrAny([]), 0)
    ensures forall names :: names != [] ==> OrAny(names) == names
  {
    hide IntsOf;
    var names := OrAny([]);
    assert names[0] == "any" && Strip("any") == "any" && Lower("any") == "any";
    assert Expand(c, rd, names[0], FULL) == Some(AnyAddress()) && AnyAddress().IsAny();
    assert ExpandService(c, rd, names[0], FULL) == Some(AnyService()) && AnyService().IsAny();
  }

  lemma NothingRemembered(c: Catalogue, rd: Reader)
    ensures var memo := Memo(map[], map[], {}, {}, {});
      Faithful(c, rd, memo) && FaithfulServices(c, rd, memo) && AllWellFormed(memo)
  {
  }

  lemma RuleMeansWhatItSays(c: Catalogue, rd: Reader, memo: Memo, raw: RawRule)
    requires Tame(c) && TameServices(c) && rd.Sound()
    requires Faithful(c, rd, memo) && FaithfulServices(c, rd, memo) && AllWellFormed(memo)
    ensures var (after, rule) := ResolveRule(c, rd, memo, raw);
      && Faithful(c, rd, after) && FaithfulServices(c, rd, after) && AllWellFormed(after)
      && Means(c, rd, OrAny(raw.src), raw.srcNegate, rule.source)
      && Means(c, rd, OrAny(raw.dst), raw.dstNegate, rule.destination)
      && Offers(c, rd, OrAny(raw.services), rule.services)
      && Keeps(c, rd, raw, rule)
  {
    hide LookupAddresses, LookupServices, Tame, TameServices, Offers, Means, Side, ServiceSet.WellFormed, IntsOf,
        Stored.Valid, Expand, Faithful, FaithfulServices, AllWellFormed, OrAny;
    SideMeans(c, rd, memo, OrAny(raw.src), raw.srcNegate);
    AddressesKeepServices(c, rd, memo, OrAny(raw.src), |OrAny(raw.src)|);
    var memo1 := LookupAddresses(c, rd, memo, OrAny(raw.src), |OrAny(raw.src)|).0;
    SideMeans(c, rd, memo1, OrAny(raw.dst), raw.dstNegate);
    AddressesKeepServices(c, rd, memo1, OrAny(raw.dst), |OrAny(raw.dst)|);
    var memo2 := LookupAddresses(c, rd, memo1, OrAny(raw.dst), |OrAny(raw.dst)|).0;
    SameServices(memo, memo1);
    SameServices(memo1, memo2);
    SameFaith(c, rd, memo, memo2);
    ServicesOffered(c, rd, memo2, OrAny(raw.services));
    ServicesKeepAddresses(c, rd, memo2, OrAny(raw.services), |OrAny(raw.services)|);
    SameAddresses(c, rd, memo2, LookupServices(c, rd, memo2, OrAny(raw.services), |OrAny(raw.services)|).0);
  }

  lemma SameServices(a: Memo, b: Memo)
    requires a.services == b.services && AllWellFormed(a)
    ensures AllWellFormed(b)
  {
  }

  lemma SameFaith(c: Catalogue, rd: Reader, a: Memo, b: Memo)
    requires a.services == b.services && FaithfulServices(c, rd, a)
    ensures FaithfulServices(c, rd, b)
  {
    hide ExpandService;
  }

  lemma SameAddresses(c: Catalogue, rd: Reader, a: Memo, b: Memo)
    requires a.addresses == b.addresses && Faithful(c, rd, a)
    ensures Faithful(c, rd, b)
  {
    hide Expand;
  }

  // The two tables do not touch each other.

  lemma {:induction false} AddressKeepsServices(c: Catalogue, rd: Reader, memo: Memo, name: string, fuel: nat)
    ensures LookupAddress(c, rd, memo, name, fuel).0.services == memo.services
    decreases fuel, 0
  {
    hide AnyAddressToken, ExternallyResolved, IntsOf, Stored.Valid, LookupMembers;
    if fuel > 0 && name in c.addressGroups {
      var members := c.addressGroups[name].members;
      MembersKeepServices(c, rd, memo.Refer(name), members, |members|, fuel - 1);
    }
  }

  lemma {:induction false} MembersKeepServices(c: Catalogue, rd: Reader, memo: Memo, members: seq<string>, n: nat,
      fuel: nat)
    requires n <= |members|
    ensures LookupMembers(c, rd, memo, members, n, fuel).0.services == memo.services
    decreases fuel, n
  {
    hide LookupAddress, Join;
    if n > 0 {
      MembersKeepServices(c, rd, memo, members, n - 1, fuel);
      AddressKeepsServices(c, rd, LookupMembers(c, rd, memo, members, n - 1, fuel).0, members[n - 1], fuel);
    }
  }

  lemma {:induction false} AddressesKeepServices(c: Catalogue, rd: Reader, memo: Memo, names: seq<string>, n: nat)
    requires n <= |names|
    ensures LookupAddresses(c, rd, memo, names, n).0.services == memo.services
  {
    hide LookupAddress, UnionAddress, AddressSet.IsAny, IntsOf, Stored.Valid;
    if n > 0 {
      AddressesKeepServices(c, rd, memo, names, n - 1);
      AddressKeepsServices(c, rd, LookupAddresses(c, rd, memo, names, n - 1).0, names[n - 1], FULL);
    }
  }

  lemma {:induction false} ServiceKeepsAddresses(c: Catalogue, rd: Reader, memo: Memo, name: string, fuel: nat)
    ensures LookupService(c, rd, memo, name, fuel).0.addresses == memo.addresses
    decreases fuel, 0
  {
    hide AnyServiceToken, ExternallyResolved, IntsOf, Stored.Valid, LookupServiceMembers, ServiceFromObject,
        ServiceFromLiteral;
    if fuel > 0 && name in c.serviceGroups {
      var members := c.serviceGroups[name].members;
      ServiceMembersKeepAddresses(c, rd, memo.Refer(name), members, |members|, fuel - 1);
    }
  }

  lemma {:induction false} ServiceMembersKeepAddresses(c: Catalogue, rd: Reader, memo: Memo, members: seq<string>,
      n: nat, fuel: nat)
    requires n <= |members|
    ensures LookupServiceMembers(c, rd, memo, members, n, fuel).0.addresses == memo.addresses
    decreases fuel, n
  {
    hide LookupService, MergePorts;
    if n > 0 {
      ServiceMembersKeepAddresses(c, rd, memo, members, n - 1, fuel);
      ServiceKeepsAddresses(c, rd, LookupServiceMembers(c, rd, memo, members, n - 1, fuel).0, members[n - 1], fuel);
    }
  }

  lemma {:induction false} ServicesKeepAddresses(c: Catalogue, rd: Reader, memo: Memo, names: seq<string>, n: nat)
    requires n <= |names|
    ensures LookupServices(c, rd, memo, names, n).0.addresses == memo.addresses
  {
    hide LookupService, MergePorts;
    if n > 0 {
      ServicesKeepAddresses(c, rd, memo, names, n - 1);
      ServiceKeepsAddresses(c, rd, LookupServices(c, rd, memo, names, n - 1).0, names[n - 1], FULL);
    }
  }
}
