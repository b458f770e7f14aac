/** What memoised expansion promises: it is invisible on catalogues that nest sanely,
    its service sets are well formed on every catalogue, and a list never narrows. */
module ResolverLaws {
  import opened Common
  import opened Intervals
  import opened Model
  import opened Catalogue
  import opened Resolver

  // --------------------------------------------- the plain recursive expansion

  /** No table: just the recursion, cut off when the fuel runs out. */
  ghost function Expand(c: Catalogue, rd: Reader, name: string, fuel: nat): Option<AddressSet>
    decreases fuel, 0
  {
    if fuel == 0 then None
    else if AnyAddressToken(name) then Some(AnyAddress())
    else if rd.address(name).NonEmpty() then Some(rd.address(name))
    else if name in c.addresses then
      var obj := c.addresses[name];
      if ExternallyResolved(obj.kind) || !rd.address(obj.value).NonEmpty() then None
      else Some(rd.address(obj.value))
    else if name in c.addressGroups then
      var group := c.addressGroups[name];
      if ExternallyResolved(group.kind) then None
      else
        var combined := ExpandMembers(c, rd, group.members, |group.members|, fuel - 1);
        if group.members != [] then combined else Some(EMPTY_ADDRESS)
    else None
  }

  ghost function ExpandMembers(c: Catalogue, rd: Reader, members: seq<string>, n: nat, fuel: nat): Option<AddressSet>
    requires n <= |members|
    decreases fuel, n
  {
    if n == 0 then None
    else Join(ExpandMembers(c, rd, members, n - 1, fuel), Expand(c, rd, members[n - 1], fuel))
  }

  /** What a name that is no group stands for, first reading that applies: everything, the
      literal it is, or the value of the object it names; an object of a kind kept elsewhere
      or of no readable value, and a name that is not defined, stand for nothing known. */
  lemma PlainNameMeans(c: Catalogue, rd: Reader, name: string)
    requires name !in c.addressGroups
    ensures Expand(c, rd, name, FULL) ==
      if Lower(Strip(name)) in {"any", "all", "*"} then Some(AnyAddress())
      else if rd.address(name).NonEmpty() then Some(rd.address(name))
      else if name !in c.addresses || !rd.address(c.addresses[name].value).NonEmpty() then None
      else if c.addresses[name].kind in
        {"security-group", "prefix-list", "dynamic-group", "epg-no-subnet", "service-tag"} then None
      else Some(rd.address(c.addresses[name].value))
  {
    hide IntsOf, Stored.Valid, AddressSet.NonEmpty, Strip, Lower;
  }

  ghost function Depth(c: Catalogue, name: string): nat { NestingDepth(c, name, {}) }

  /** In an acyclic catalogue any fuel above the nesting depth gives the same expansion:
      the depth limit then plays no part in it. */
  lemma {:induction false} FuelIsIrrelevant(c: Catalogue, rd: Reader, name: string, f: nat, g: nat)
    requires Acyclic(c) && f > Depth(c, name) && g > Depth(c, name)
    ensures Expand(c, rd, name, f) == Expand(c, rd, name, g)
    decreases f, 0
  {
    hide Acyclic, NestingDepth, AnyAddressToken, ExternallyResolved, IntsOf, Stored.Valid, ExpandMembers;
    if name in c.addressGroups {
      var members := c.addressGroups[name].members;
      forall i | 0 <= i < |members| ensures Depth(c, members[i]) < Depth(c, name) {
        MemberIsShallower(c, name, i);
      }
      MembersFuelIsIrrelevant(c, rd, members, |members|, f - 1, g - 1);
    }
  }

  lemma {:induction false} MembersFuelIsIrrelevant(c: Catalogue, rd: Reader, members: seq<string>, n: nat, f: nat,
      g: nat)
    requires Acyclic(c) && n <= |members|
    requires forall i :: 0 <= i < |members| ==> Depth(c, members[i]) < f && Depth(c, members[i]) < g
    ensures ExpandMembers(c, rd, members, n, f) == ExpandMembers(c, rd, members, n, g)
    decreases f, n
  {
    hide Acyclic, Expand;
    if n > 0 {
      MembersFuelIsIrrelevant(c, rd, members, n - 1, f, g);
      FuelIsIrrelevant(c, rd, members[n - 1], f, g);
    }
  }

  ghost predicate SomeNameReads(c: Catalogue, rd: Reader, names: seq<string>, n: nat)
    requires n <= |names|
  {
    exists i :: 0 <= i < n && Expand(c, rd, names[i], FULL).Some?
  }

  /** What a group stands for, on a catalogue that nests sanely: nothing that its readable
      members do not hold, and all they do. It can be read if it has no members, or one of
      them can be; and never if its members are kept elsewhere. */
  lemma GroupIsUnionOfMembers(c: Catalogue, rd: Reader, name: string)
    requires Tame(c) && name in c.addressGroups && name !in c.addresses
    requires !AnyAddressToken(name) && !rd.address(name).NonEmpty()
    ensures var group, r := c.addressGroups[name], Expand(c, rd, name, FULL);
      var members := group.members;
      && (r.None? <==> ExternallyResolved(group.kind) || (members != [] && !SomeNameReads(c, rd, members, |members|)))
      && (r.Some? ==> forall ipv6, x :: r.value.Holds(ipv6, x) <==> SomeNameHolds(c, rd, members, |members|, ipv6, x))
  {
    hide NestingDepth, SomeNameReads, SomeNameHolds, AnyAddressToken, ExternallyResolved, Acyclic, IntsOf;
    hide Stored.Valid, AddressSet.Holds;
    var members := c.addressGroups[name].members;
    assert Depth(c, name) <= MAX_GROUP_DEPTH;
    forall i | 0 <= i < |members| ensures Depth(c, members[i]) < FULL - 1 { MemberIsShallower(c, name, i); }
    MembersFuelIsIrrelevant(c, rd, members, |members|, FULL - 1, FULL);
    MembersUnion(c, rd, members, |members|);
    NothingHeld();
  }

  lemma NothingHeld()
    ensures forall ipv6, x :: !EMPTY_ADDRESS.Holds(ipv6, x)
  {
    NoInts([]);
  }

  lemma {:induction false} MembersUnion(c: Catalogue, rd: Reader, members: seq<string>, n: nat)
    requires n <= |members|
    ensures var r := ExpandMembers(c, rd, members, n, FULL);
      && (r.Some? <==> SomeNameReads(c, rd, members, n))
      && (r.Some? ==> forall ipv6, x :: r.value.Holds(ipv6, x) <==> SomeNameHolds(c, rd, members, n, ipv6, x))
      && (r.None? ==> forall ipv6, x :: !SomeNameHolds(c, rd, members, n, ipv6, x))
  {
    hide Expand, AddressSet.Holds, AddressSet.IsAny;
    if n > 0 {
      MembersUnion(c, rd, members, n - 1);
      ListStep(c, rd, members, n);
      NothingHeld();
    }
  }

  // ------------------------------------------------------ memo transparency

  /** Acyclic, and no group nests deeper than the resolver will follow. */
  ghost predicate Tame(c: Catalogue) {
    Acyclic(c) && forall name :: Depth(c, name) <= MAX_GROUP_DEPTH
  }

  /** Every remembered set is the plain expansion of its name. */
  ghost predicate Faithful(c: Catalogue, rd: Reader, memo: Memo) {
    forall name :: name in memo.addresses ==> Expand(c, rd, name, FULL) == Some(memo.addresses[name])
  }

  /** Memoisation is transparent: whatever was looked up before, a lookup that can reach
      the bottom returns the plain expansion and leaves the table faithful. */
  lemma {:induction false} LookupIsExpansion(c: Catalogue, rd: Reader, memo: Memo, name: string, fuel: nat)
    requires Tame(c) && Faithful(c, rd, memo) && Depth(c, name) < fuel <= FULL
    ensures var (after, r) := LookupAddress(c, rd, memo, name, fuel);
      r == Expand(c, rd, name, FULL) && Faithful(c, rd, after)
    decreases fuel, 0
  {
    hide NestingDepth, AnyAddressToken, ExternallyResolved, Acyclic, Join, IntsOf, Stored.Valid, LookupMembers;
    FuelIsIrrelevant(c, rd, name, fuel, FULL);
    if name in c.addressGroups && name !in memo.addresses && !AnyAddressToken(name) {
      var members := c.addressGroups[name].members;
      forall i | 0 <= i < |members| ensures Depth(c, members[i]) < fuel - 1 {
        MemberIsShallower(c, name, i);
      }
      MembersFuelIsIrrelevant(c, rd, members, |members|, fuel - 1, FULL);
      MembersAreExpansions(c, rd, memo.Refer(name), members, |members|, fuel - 1);
    }
  }

  lemma {:induction false} MembersAreExpansions(c: Catalogue, rd: Reader, memo: Memo, members: seq<string>, n: nat,
      fuel: nat)
    requires Tame(c) && Faithful(c, rd, memo) && n <= |members| && fuel <= FULL
    requires forall i :: 0 <= i < |members| ==> Depth(c, members[i]) < fuel
    ensures var (after, r) := LookupMembers(c, rd, memo, members, n, fuel);
      r == ExpandMembers(c, rd, members, n, FULL) && Faithful(c, rd, after)
    decreases fuel, n
  {
    hide LookupAddress, Expand, Faithful, Tame;
    if n > 0 {
      MembersAreExpansions(c, rd, memo, members, n - 1, fuel);
      var before := LookupMembers(c, rd, memo, members, n - 1, fuel).0;
      LookupIsExpansion(c, rd, before, members[n - 1], fuel);
    }
  }

  // ------------------------------------- why the nesting bound is needed

  predicate PlainName(rd: Reader, name: string) {
    !AnyAddressToken(name) && !rd.address(name).NonEmpty()
  }

  /** Seventeen distinct groups, each holding the next and one literal; the last group
      holds one literal only, and so sits one level too deep for it to be reached. */
  ghost predicate Chain(c: Catalogue, rd: Reader, groups: seq<string>, literals: seq<string>) {
    && |groups| == |literals| == FULL
    && (forall i, j :: 0 <= i < j < FULL ==> groups[i] != groups[j])
    && (forall i :: 0 <= i < FULL ==> Link(c, rd, groups, literals, i))
  }

  ghost predicate Link(c: Catalogue, rd: Reader, groups: seq<string>, literals: seq<string>, i: nat)
    requires |groups| == |literals| == FULL && i < FULL
  {
    && PlainName(rd, groups[i]) && groups[i] !in c.addresses
    && !AnyAddressToken(literals[i]) && rd.address(literals[i]).NonEmpty()
    && groups[i] in c.addressGroups
    && c.addressGroups[groups[i]] == Group("", if i + 1 < FULL then [groups[i + 1], literals[i]] else [literals[i]])
  }

  ghost predicate Untouched(memo: Memo, groups: seq<string>, literals: seq<string>, i: nat) {
    && (forall j :: i <= j < |groups| ==> groups[j] !in memo.addresses)
    && (forall j :: 0 <= j < |literals| ==> literals[j] !in memo.addresses)
  }

  function LastButOne(): nat { FULL - 2 }

  lemma EmptyUnion(a: AddressSet)
    ensures UnionAddress(EMPTY_ADDRESS, a) == a
  {
    NoInts([]);
    EqualIffSameInts(UnionOf(EMPTY, a.v4), a.v4);
    EqualIffSameInts(UnionOf(EMPTY, a.v6), a.v6);
  }

  lemma TwoMembers(c: Catalogue, rd: Reader, memo: Memo, members: seq<string>, fuel: nat)
    requires |members| == 2
    ensures var (m1, a) := LookupAddress(c, rd, memo, members[0], fuel);
      var (m2, b) := LookupAddress(c, rd, m1, members[1], fuel);
      LookupMembers(c, rd, memo, members, 2, fuel) == (m2, Join(Join(None, a), b))
  {
    hide LookupAddress, Join;
    assert LookupMembers(c, rd, memo, members, 0, fuel) == (memo, None);
    assert LookupMembers(c, rd, memo, members, 1, fuel).1 == Join(None, LookupAddress(c, rd, memo, members[0], fuel).1);
  }

  /** The last group of the chain has no readable member at that depth. */
  lemma BottomIsRefused(c: Catalogue, rd: Reader, memo: Memo, groups: seq<string>, literals: seq<string>)
    requires Chain(c, rd, groups, literals) && groups[FULL - 1] !in memo.addresses
    ensures var (after, r) := LookupAddress(c, rd, memo, groups[FULL - 1], 1);
      r.None? && after.addresses == memo.addresses
  {
    hide AnyAddressToken, IntsOf, Stored.Valid;
    var name := groups[FULL - 1];
    assert Link(c, rd, groups, literals, FULL - 1);
    var members := c.addressGroups[name].members;
    assert members == [literals[FULL - 1]];
    assert LookupMembers(c, rd, memo.Refer(name), members, 0, 0) == (memo.Refer(name), None);
    assert LookupMembers(c, rd, memo.Refer(name), members, 1, 0).1 == None;
  }

  lemma TruncatedStart(c: Catalogue, rd: Reader, memo: Memo, groups: seq<string>, literals: seq<string>)
    requires Chain(c, rd, groups, literals) && Untouched(memo, groups, literals, LastButOne())
    ensures var i := LastButOne(); var after := LookupAddress(c, rd, memo, groups[i], 2).0;
      && groups[i] in after.addresses
      && after.addresses[groups[i]] == rd.address(literals[i])
      && forall n :: n in after.addresses ==> n in memo.addresses || n in groups || n == literals[i]
  {
    hide AnyAddressToken, IntsOf, Stored.Valid, LookupMembers, UnionAddress;
    var i := LastButOne();
    assert Link(c, rd, groups, literals, i) && Link(c, rd, groups, literals, i + 1);
    assert c.addressGroups[groups[i]].members == [groups[i + 1], literals[i]];
    TwoMembers(c, rd, memo.Refer(groups[i]), [groups[i + 1], literals[i]], 1);
    BottomIsRefused(c, rd, memo.Refer(groups[i]), groups, literals);
    EmptyUnion(rd.address(literals[i]));
  }

  /** A lookup higher up in the chain walks the group below it and its own literal. */
  lemma LinkLookup(c: Catalogue, rd: Reader, memo: Memo, groups: seq<string>, literals: seq<string>, i: nat)
    requires Chain(c, rd, groups, literals) && i + 1 < FULL
    requires groups[i] !in memo.addresses
    ensures var below := LookupAddress(c, rd, memo.Refer(groups[i]), groups[i + 1], FULL - i - 1).0;
      var after := LookupAddress(c, rd, memo, groups[i], FULL - i).0;
      && (forall n :: n in below.addresses && n != groups[i] && n != literals[i] ==>
            n in after.addresses && after.addresses[n] == below.addresses[n])
      && (forall n :: n in after.addresses ==> n in below.addresses || n == groups[i] || n == literals[i])
  {
    hide AnyAddressToken, IntsOf, Stored.Valid, LookupMembers, UnionAddress;
    assert Link(c, rd, groups, literals, i);
    assert c.addressGroups[groups[i]].members == [groups[i + 1], literals[i]];
    TwoMembers(c, rd, memo.Refer(groups[i]), [groups[i + 1], literals[i]], FULL - i - 1);
  }

  lemma {:induction false} ChainRemembersTruncated(c: Catalogue, rd: Reader, memo: Memo, groups: seq<string>,
      literals: seq<string>, i: nat)
    requires Chain(c, rd, groups, literals) && Untouched(memo, groups, literals, i) && i <= LastButOne()
    ensures var after := LookupAddress(c, rd, memo, groups[i], FULL - i).0;
      && groups[LastButOne()] in after.addresses
      && after.addresses[groups[LastButOne()]] == rd.address(literals[LastButOne()])
    ensures forall n :: n in LookupAddress(c, rd, memo, groups[i], FULL - i).0.addresses ==>
      n in memo.addresses || n in groups || (exists j :: i <= j < FULL && n == literals[j])
    decreases FULL - i
  {
    hide LookupAddress, AnyAddressToken, AddressSet.NonEmpty, IntsOf, Stored.Valid;
    if i == LastButOne() {
      TruncatedStart(c, rd, memo, groups, literals);
    } else {
      assert Link(c, rd, groups, literals, i) && Link(c, rd, groups, literals, LastButOne());
      LinkLookup(c, rd, memo, groups, literals, i);
      ChainRemembersTruncated(c, rd, memo.Refer(groups[i]), groups, literals, i + 1);
    }
  }

  /** Order matters past the bound: once the top of such a chain has been resolved, the
      table answers for the group two from the bottom with its own literal alone, while a
      fresh lookup of that group also holds the literal of the group below it. */
  lemma DeepGroupsAreTruncated(c: Catalogue, rd: Reader, groups: seq<string>, literals: seq<string>, x: int)
    requires Chain(c, rd, groups, literals)
    requires forall i :: 0 <= i < FULL ==> literals[i] !in groups
    requires rd.address(literals[FULL - 1]).Holds(false, x) && !rd.address(literals[LastButOne()]).Holds(false, x)
    ensures var top := LookupAddress(c, rd, Memo(map[], map[], {}, {}, {}), groups[0], FULL).0;
      var again := LookupAddress(c, rd, top, groups[LastButOne()], FULL).1;
      && again.Some? && !again.value.Holds(false, x)
      && Expand(c, rd, groups[LastButOne()], FULL).Some? && Expand(c, rd, groups[LastButOne()],
          FULL).value.Holds(false, x)
  {
    hide LookupAddress, Expand, Link, IntsOf, Stored.Valid, AddressSet.Holds;
    var start := Memo(map[], map[], {}, {}, {});
    ChainRemembersTruncated(c, rd, start, groups, literals, 0);
    Remembered(c, rd, LookupAddress(c, rd, start, groups[0], FULL).0, groups[LastButOne()]);
    FreshIsWhole(c, rd, groups, literals, x);
  }

  lemma Remembered(c: Catalogue, rd: Reader, memo: Memo, name: string)
    requires name in memo.addresses
    ensures LookupAddress(c, rd, memo, name, FULL).1 == Some(memo.addresses[name])
  {
  }

  lemma FreshIsWhole(c: Catalogue, rd: Reader, groups: seq<string>, literals: seq<string>, x: int)
    requires Chain(c, rd, groups, literals) && rd.address(literals[FULL - 1]).Holds(false, x)
    ensures var r := Expand(c, rd, groups[LastButOne()], FULL); r.Some? && r.value.Holds(false, x)
  {
    hide AnyAddressToken, IntsOf, Stored.Valid, AddressSet.Holds;
    var name, last := groups[LastButOne()], groups[FULL - 1];
    assert Link(c, rd, groups, literals, FULL - 1) && Link(c, rd, groups, literals, LastButOne());
    var members, below := c.addressGroups[name].members, c.addressGroups[last].members;
    assert members == [last, literals[LastButOne()]] && below == [literals[FULL - 1]];
    assert ExpandMembers(c, rd, below, 0, FULL - 2) == None;
    assert ExpandMembers(c, rd, below, 1, FULL - 2) == Join(None, Some(rd.address(literals[FULL - 1])));
    assert Expand(c, rd, last, FULL - 1).value.Holds(false, x);
    assert ExpandMembers(c, rd, members, 0, FULL - 1) == None;
    assert ExpandMembers(c, rd, members, 1, FULL - 1) == Join(None, Expand(c, rd, last, FULL - 1));
    assert ExpandMembers(c, rd, members, 2, FULL - 1).value.Holds(false, x);
  }

  // ------------------------------------------------- such a chain, written out

  function GroupName(i: nat): string { seq(i + 1, _ => 'g') }

  function LiteralName(i: nat): string { seq(i + 1, _ => 'l') }

  /** Reads a literal of length n as the one IPv4 address n. */
  ghost function ChainReader(): Reader {
    Reader(text => if LiteralAddress(text) then AddressSet(Of({|text|}), EMPTY) else EMPTY_ADDRESS, text => EMPTY)
  }

  predicate LiteralAddress(text: string) { 0 < |text| <= FULL && text[0] == 'l' }

  function ChainGroup(i: nat): Group {
    Group("", if i + 1 < FULL then [GroupName(i + 1), LiteralName(i)] else [LiteralName(i)])
  }

  function ChainNames(): set<string> { set i: nat | i < FULL :: GroupName(i) }

  function ChainCatalogue(): Catalogue {
    Catalogue(map[], map name | name in ChainNames() :: ChainGroup(|name| - 1), map[], map[])
  }

  lemma NotAnyToken(name: string, c: char)
    requires name != [] && (c == 'g' || c == 'l') && forall i :: 0 <= i < |name| ==> name[i] == c
    ensures !AnyAddressToken(name)
  {
    assert Strip(name) == name;
    assert Lower(name)[0] == c;
  }

  lemma ChainReads(i: nat)
    requires i < FULL
    ensures ChainReader().address(LiteralName(i)).Holds(false, i + 1)
    ensures forall x :: ChainReader().address(LiteralName(i)).Holds(false, x) ==> x == i + 1
    ensures ChainReader().address(LiteralName(i)).NonEmpty() && !ChainReader().address(GroupName(i)).NonEmpty()
  {
    hide IntsOf, Stored.Valid;
    NonEmptyInts(Of({i + 1}).intervals);
  }

  lemma ChainReaderSound()
    ensures ChainReader().Sound()
  {
    hide IntsOf, Stored.Valid;
    NoInts([]);
  }

  /** There is such a catalogue, with a reader that keeps its promises. */
  lemma ChainExists() returns (c: Catalogue, rd: Reader, groups: seq<string>, literals: seq<string>, x: int)
    ensures rd.Sound() && Chain(c, rd, groups, literals)
    ensures forall i :: 0 <= i < FULL ==> literals[i] !in groups
    ensures rd.address(literals[FULL - 1]).Holds(false, x) && !rd.address(literals[LastButOne()]).Holds(false, x)
  {
    hide ChainReader, AnyAddressToken, IntsOf, AddressSet.Holds, AddressSet.NonEmpty, Reader.Sound;
    c, rd, x := ChainCatalogue(), ChainReader(), FULL;
    groups, literals := seq(FULL, i requires 0 <= i => GroupName(i)), seq(FULL, i requires 0 <= i => LiteralName(i));
    ChainReaderSound();
    forall i, j | 0 <= i < j < FULL ensures groups[i] != groups[j] {
      assert |groups[i]| == i + 1 && |groups[j]| == j + 1;
    }
    forall i | 0 <= i < FULL ensures Link(c, rd, groups, literals, i) && literals[i] !in groups {
      ChainLink(i);
      ChainReads(i);
      NotAnyToken(groups[i], 'g');
      NotAnyToken(literals[i], 'l');
      assert literals[i][0] == 'l' && forall g :: g in groups ==> g[0] == 'g';
    }
    ChainReads(FULL - 1);
    ChainReads(LastButOne());
  }

  lemma ChainLink(i: nat)
    requires i < FULL
    ensures GroupName(i) in ChainCatalogue().addressGroups && ChainCatalogue().addressGroups[GroupName(i)] ==
        ChainGroup(i)
  {
  }

  // -------------------------------------------------------- lists of names

  /** What the readable names of a list stand for. */
  ghost predicate SomeNameHolds(c: Catalogue, rd: Reader, names: seq<string>, n: nat, ipv6: bool, x: int)
    requires n <= |names|
  {
    exists i :: 0 <= i < n && Expand(c, rd, names[i], FULL).Some? && Expand(c, rd, names[i], FULL).value.Holds(ipv6, x)
  }

  ghost predicate SomeNameIsAny(c: Catalogue, rd: Reader, names: seq<string>, n: nat)
    requires n <= |names|
  {
    exists i :: 0 <= i < n && Expand(c, rd, names[i], FULL).Some? && Expand(c, rd, names[i], FULL).value.IsAny()
  }

  /** The names of a list that cannot be read, in order, up to the first that is `any`. */
  ghost function UnreadNames(c: Catalogue, rd: Reader, names: seq<string>, n: nat): seq<string>
    requires n <= |names|
  {
    if n == 0 then []
    else
      UnreadNames(c, rd, names, n - 1) +
      if UnreadAt(c, rd, names, n - 1) then [names[n - 1]] else []
  }

  /** This name cannot be read, and no name before it is `any`. */
  ghost predicate UnreadAt(c: Catalogue, rd: Reader, names: seq<string>, i: nat)
    requires i < |names|
  {
    Expand(c, rd, names[i], FULL).None? && !SomeNameIsAny(c, rd, names, i)
  }

  lemma {:induction false} NothingUnread(c: Catalogue, rd: Reader, names: seq<string>, n: nat)
    requires n <= |names|
    ensures UnreadNames(c, rd, names, n) == [] <==> forall i :: 0 <= i < n ==> !UnreadAt(c, rd, names, i)
  {
    hide UnreadAt;
    if n > 0 { NothingUnread(c, rd, names, n - 1); }
  }

  /** Until some name `is_any` a list resolves to exactly the union of its readable
      names; from then on to every address of both families. What is reported missing is
      exactly what could not be read before that. */
  lemma {:induction false} ListIsUnion(c: Catalogue, rd: Reader, memo: Memo, names: seq<string>, n: nat)
    requires Tame(c) && Faithful(c, rd, memo) && n <= |names|
    ensures var (after, e) := LookupAddresses(c, rd, memo, names, n);
      && Faithful(c, rd, after)
      && (e.full <==> SomeNameIsAny(c, rd, names, n))
      && (e.full ==> e.set_ == AnyAddress())
      && (!e.full ==> forall ipv6, x :: e.set_.Holds(ipv6, x) <==> SomeNameHolds(c, rd, names, n, ipv6, x))
      && e.missing == UnreadNames(c, rd, names, n)
  {
    hide LookupAddress, Expand, Faithful, AddressSet.IsAny, IntsOf, Stored.Valid, NestingDepth, Acyclic;
    if n == 0 {
      assert forall ipv6, x :: !EMPTY_ADDRESS.Holds(ipv6, x) by { NoInts([]); }
    } else {
      ListIsUnion(c, rd, memo, names, n - 1);
      var (before, soFar) := LookupAddresses(c, rd, memo, names, n - 1);
      LookupIsExpansion(c, rd, before, names[n - 1], FULL);
      ListStep(c, rd, names, n);
    }
  }

  lemma ListStep(c: Catalogue, rd: Reader, names: seq<string>, n: nat)
    requires 0 < n <= |names|
    ensures var last := Expand(c, rd, names[n - 1], FULL);
      && (SomeNameIsAny(c, rd, names, n) <==> SomeNameIsAny(c, rd, names, n - 1) || (last.Some? && last.value.IsAny()))
      && forall ipv6, x :: SomeNameHolds(c, rd, names, n, ipv6, x) <==>
           SomeNameHolds(c, rd, names, n - 1, ipv6, x) || (last.Some? && last.value.Holds(ipv6, x))
  {
    hide Expand, AddressSet.IsAny, AddressSet.Holds;
  }

  /** What a readable name expands to lies inside the address spaces. */
  lemma {:induction false} ExpandInRange(c: Catalogue, rd: Reader, name: string, fuel: nat)
    requires rd.Sound()
    ensures Expand(c, rd, name, fuel).Some? ==> Expand(c, rd, name, fuel).value.InRange()
    decreases fuel, 0
  {
    hide IntsOf, AnyAddressToken, ExternallyResolved, Stored.Valid;
    NoInts([]);
    if fuel > 0 && name in c.addressGroups {
      var members := c.addressGroups[name].members;
      MembersInRange(c, rd, members, |members|, fuel - 1);
    }
  }

  lemma {:induction false} MembersInRange(c: Catalogue, rd: Reader, members: seq<string>, n: nat, fuel: nat)
    requires rd.Sound() && n <= |members|
    ensures ExpandMembers(c, rd, members, n, fuel).Some? ==> ExpandMembers(c, rd, members, n, fuel).value.InRange()
    decreases fuel, n
  {
    hide IntsOf, Expand, Stored.Valid;
    NoInts([]);
    if n > 0 {
      MembersInRange(c, rd, members, n - 1, fuel);
      ExpandInRange(c, rd, members[n - 1], fuel);
    }
  }

  /** A resolved list never narrows: it holds every address of every readable name. */
  lemma ListNeverNarrows(c: Catalogue, rd: Reader, memo: Memo, names: seq<string>, i: nat)
    requires Tame(c) && rd.Sound() && Faithful(c, rd, memo) && i < |names|
    requires Expand(c, rd, names[i], FULL).Some?
    ensures LookupAddresses(c, rd, memo, names, |names|).1.set_.Includes(Expand(c, rd, names[i], FULL).value)
  {
    hide Expand, IntsOf, Stored.Valid, LookupAddresses, Faithful, Tame;
    ListIsUnion(c, rd, memo, names, |names|);
    ExpandInRange(c, rd, names[i], FULL);
    var part, whole := Expand(c, rd, names[i], FULL).value, LookupAddresses(c, rd, memo, names, |names|).1;
    if !whole.full {
      forall x | x in part.v4.Ints() ensures x in whole.set_.v4.Ints() {
        assert part.Holds(false, x) && SomeNameHolds(c, rd, names, |names|, false, x);
        assert whole.set_.Holds(false, x);
      }
      forall x | x in part.v6.Ints() ensures x in whole.set_.v6.Ints() {
        assert part.Holds(true, x) && SomeNameHolds(c, rd, names, |names|, true, x);
        assert whole.set_.Holds(true, x);
      }
    }
  }

  /** Widening: one name that is all of IPv4 and nothing else resolves, as a list, to all
      of IPv6 as well, so negating the list leaves nothing of the IPv6 the name excludes. */
  lemma FullFamilyWidens(c: Catalogue, rd: Reader, memo: Memo, name: string)
    requires Tame(c) && Faithful(c, rd, memo)
    requires Expand(c, rd, name, FULL) == Some(AddressSet(Universe(IPV4_MAX), EMPTY))
    ensures var r := LookupAddresses(c, rd, memo, [name], 1).1.set_;
      r.Holds(true, 0) && !Expand(c, rd, name, FULL).value.Holds(true, 0) && !Negated(r).Holds(true, 0)
  {
    hide Expand, LookupAddresses, Faithful, Tame, UnreadNames;
    assert SomeNameIsAny(c, rd, [name], 1) by { assert [name][0] == name; }
    ListIsUnion(c, rd, memo, [name], 1);
  }

  // --------------------------------------------------------------- services

  ghost predicate AllWellFormed(memo: Memo) {
    forall name :: name in memo.services ==> memo.services[name].WellFormed()
  }

  lemma MergeWellFormed(a: ServiceSet, b: ServiceSet)
    requires a.Named() && b.Named()
    ensures ServiceSet(MergePorts(a.byProtocol, b.byProtocol)).Named()
  {
    hide IntsOf, NamedProtocol;
    var m := MergePorts(a.byProtocol, b.byProtocol);
    forall p | p in m ensures !m[p].IsEmpty() {
      if p in a.byProtocol && p in b.byProtocol {
        NonEmptyInts(a.byProtocol[p].intervals);
        NonEmptyInts(m[p].intervals);
        assert Pick(a.byProtocol[p].Ints()) in m[p].Ints();
      }
    }
  }

  lemma NamedIsNotAny(s: ServiceSet)
    requires s.WellFormed()
    ensures s.IsAny() ==> s == AnyService()
    ensures !s.IsAny() <==> s.Named()
    ensures s.Named() ==> s.WellFormed()
  {
  }

  /** Every service the resolver returns or remembers is ANY alone or named, non-empty
      ports, on every catalogue, cyclic ones included. */
  lemma {:induction false} ServicesStayWellFormed(c: Catalogue, rd: Reader, memo: Memo, name: string, fuel: nat)
    requires rd.Sound() && AllWellFormed(memo)
    ensures var (after, r) := LookupService(c, rd, memo, name, fuel);
      AllWellFormed(after) && (r.Some? ==> r.value.WellFormed())
    decreases fuel, 0
  {
    hide IntsOf, ServiceSet.WellFormed, AnyServiceToken, ExternallyResolved, ServiceFromObject, ServiceFromLiteral;
    hide LookupServiceMembers, AllWellFormed;
    SameMemoWellFormed(memo);
    if fuel > 0 && name in memo.services {
      RememberedWellFormed(memo, name);
    } else if fuel > 0 && AnyServiceToken(name) {
      AnyIsWellFormed();
    } else if fuel > 0 && name in c.services {
      ObjectWellFormed(rd, c.services[name]);
      RememberWellFormed(memo.Refer(name), name, ServiceFromObject(rd, c.services[name]));
    } else if fuel > 0 && name in c.serviceGroups {
      var members := c.serviceGroups[name].members;
      ServiceMembersStayWellFormed(c, rd, memo.Refer(name), members, |members|, fuel - 1);
      var (after, s) := LookupServiceMembers(c, rd, memo.Refer(name), members, |members|, fuel - 1);
      RememberWellFormed(after, name, s);
    } else {
      LiteralWellFormed(rd, name);
      if ServiceFromLiteral(rd, name).Some? {
        RememberWellFormed(memo.Refer(name), name, ServiceFromLiteral(rd, name).value);
      }
    }
  }

  /** Only the table of services matters to it. */
  lemma SameMemoWellFormed(memo: Memo)
    requires AllWellFormed(memo)
    ensures forall other: Memo :: other.services == memo.services ==> AllWellFormed(other)
  {
  }

  lemma RememberedWellFormed(memo: Memo, name: string)
    requires AllWellFormed(memo) && name in memo.services
    ensures memo.services[name].WellFormed()
  {
  }

  lemma RememberWellFormed(memo: Memo, name: string, s: ServiceSet)
    requires AllWellFormed(memo) && s.WellFormed()
    ensures AllWellFormed(memo.(services := memo.services[name := s]))
  {
    hide ServiceSet.WellFormed;
  }

  lemma {:induction false} ServiceMembersStayWellFormed(c: Catalogue, rd: Reader, memo: Memo, members: seq<string>,
      n: nat, fuel: nat)
    requires rd.Sound() && AllWellFormed(memo) && n <= |members|
    ensures var (after, r) := LookupServiceMembers(c, rd, memo, members, n, fuel);
      AllWellFormed(after) && r.WellFormed()
    decreases fuel, n
  {
    hide IntsOf, LookupService, MergePorts, AllWellFormed, ServiceSet.WellFormed;
    AnyIsWellFormed();
    if n == 0 {
      EmptyServiceWellFormed();
    } else {
      ServiceMembersStayWellFormed(c, rd, memo, members, n - 1, fuel);
      var (before, soFar) := LookupServiceMembers(c, rd, memo, members, n - 1, fuel);
      ServicesStayWellFormed(c, rd, before, members[n - 1], fuel);
      var next := LookupService(c, rd, before, members[n - 1], fuel).1;
      NamedIsNotAny(soFar);
      if next.Some? && !soFar.IsAny() && !next.value.IsAny() {
        NamedIsNotAny(next.value);
        MergeWellFormed(soFar, next.value);
        NamedWellFormed(ServiceSet(MergePorts(soFar.byProtocol, next.value.byProtocol)));
      }
    }
  }

  lemma EmptyServiceWellFormed()
    ensures ServiceSet(map[]).WellFormed()
  {
  }

  lemma NamedWellFormed(s: ServiceSet)
    requires s.Named()
    ensures s.WellFormed()
  {
  }

  /** The services of a rule are well formed whatever was resolved before. */
  lemma {:induction false} ListServicesWellFormed(c: Catalogue, rd: Reader, memo: Memo, names: seq<string>, n: nat)
    requires rd.Sound() && AllWellFormed(memo) && n <= |names|
    ensures var (after, e) := LookupServices(c, rd, memo, names, n);
      AllWellFormed(after) && e.set_.WellFormed() && (e.full <==> e.set_.IsAny())
  {
    hide IntsOf, LookupService, MergePorts, AllWellFormed, ServiceSet.WellFormed;
    AnyIsWellFormed();
    if n == 0 {
      EmptyServiceWellFormed();
    } else {
      ListServicesWellFormed(c, rd, memo, names, n - 1);
      var (before, soFar) := LookupServices(c, rd, memo, names, n - 1);
      ServicesStayWellFormed(c, rd, before, names[n - 1], FULL);
      var next := LookupService(c, rd, before, names[n - 1], FULL).1;
      NamedIsNotAny(soFar.set_);
      if next.Some? && !soFar.full && !next.value.IsAny() {
        NamedIsNotAny(next.value);
        MergeWellFormed(soFar.set_, next.value);
        var merged := ServiceSet(MergePorts(soFar.set_.byProtocol, next.value.byProtocol));
        NamedWellFormed(merged);
        NamedIsNotAny(merged);
      }
    }
  }

  // ------------------------------------------ memo transparency for services

  /** No table, and a group stops at its first ANY. */
  ghost function ExpandService(c: Catalogue, rd: Reader, name: string, fuel: nat): Option<ServiceSet>
    decreases fuel, 0
  {
    if fuel == 0 then None
    else if AnyServiceToken(name) then Some(AnyService())
    else if name in c.services then
      if ExternallyResolved(c.services[name].kind) then None else Some(ServiceFromObject(rd, c.services[name]))
    else if name in c.serviceGroups then
      Some(ExpandServices(c, rd, c.serviceGroups[name].members, |c.serviceGroups[name].members|, fuel - 1))
    else ServiceFromLiteral(rd, name)
  }

  /** The same for services; a name that is not defined may be a literal. */
  lemma PlainServiceMeans(c: Catalogue, rd: Reader, name: string)
    requires name !in c.serviceGroups
    ensures ExpandService(c, rd, name, FULL) ==
      if Lower(Strip(name)) in {"any", "all", "*", "application-default", "ip", "ipv4"} then Some(AnyService())
      else if name !in c.services then ServiceFromLiteral(rd, name)
      else if c.services[name].kind in
        {"security-group", "prefix-list", "dynamic-group", "epg-no-subnet", "service-tag"} then None
      else Some(ServiceFromObject(rd, c.services[name]))
  {
    hide IntsOf, ServiceFromObject, ServiceFromLiteral, Strip, Lower;
  }

  ghost function ExpandServices(c: Catalogue, rd: Reader, members: seq<string>, n: nat, fuel: nat): ServiceSet
    requires n <= |members|
    decreases fuel, n
  {
    if n == 0 then ServiceSet(map[])
    else
      var soFar, next := ExpandServices(c, rd, members, n - 1, fuel), ExpandService(c, rd, members[n - 1], fuel);
      if soFar.IsAny() || next.None? then soFar
      else if next.value.IsAny() then AnyService()
      else ServiceSet(MergePorts(soFar.byProtocol, next.value.byProtocol))
  }

  /** A rank that falls along every service group membership and stays within the depth
      the resolver will follow. */
  ghost predicate ServiceRank(c: Catalogue, rank: string -> nat) {
    && (forall name :: rank(name) <= MAX_GROUP_DEPTH)
    && (forall name, i :: name in c.serviceGroups && 0 <= i < |c.serviceGroups[name].members| ==>
          rank(c.serviceGroups[name].members[i]) < rank(name))
  }

  /** The same as `_nesting_depth` would measure it if there were no address groups: those
      come first in it, and a name that is both kinds hides its service group. */
  ghost predicate TameServices(c: Catalogue) { Tame(c.(addressGroups := map[])) }

  lemma {:induction false} DepthBelowRank(c: Catalogue, rank: string -> nat, name: string, seen: set<string>)
    requires Ranked(c, rank)
    ensures NestingDepth(c, name, seen) <= rank(name)
    decreases rank(name)
  {
    var members := GroupMembers(c, name);
    forall i | 0 <= i < |members| ensures NestingDepth(c, members[i], seen + {name}) < rank(name) {
      DepthBelowRank(c, rank, members[i], seen + {name});
    }
  }

  /** That is exactly when service groups nest without a cycle and within the limit. */
  lemma TameServicesExact(c: Catalogue)
    ensures TameServices(c) <==> exists rank: string -> nat :: ServiceRank(c, rank)
  {
    hide Acyclic, NestingDepth;
    var alone := c.(addressGroups := map[]);
    if TameServices(c) {
      var rank: string -> nat := name => Depth(alone, name);
      forall name, i | name in c.serviceGroups && 0 <= i < |c.serviceGroups[name].members|
        ensures rank(c.serviceGroups[name].members[i]) < rank(name)
      {
        MemberIsShallower(alone, name, i);
      }
      assert ServiceRank(c, rank);
    }
    if rank: string -> nat :| ServiceRank(c, rank) {
      RankedAlone(c, rank);
      forall name ensures Depth(alone, name) <= MAX_GROUP_DEPTH { DepthBelowRank(alone, rank, name, {}); }
    }
  }

  lemma RankedAlone(c: Catalogue, rank: string -> nat)
    requires ServiceRank(c, rank)
    ensures Ranked(c.(addressGroups := map[]), rank) && Acyclic(c.(addressGroups := map[]))
  {
  }

  /** No name is both an address group and a service group. */
  ghost predicate SeparateGroups(c: Catalogue) { c.addressGroups.Keys * c.serviceGroups.Keys == {} }

  /** With separate names the nesting depth as it is measures service groups too. */
  lemma SeparateGroupsTame(c: Catalogue)
    requires Tame(c) && SeparateGroups(c)
    ensures TameServices(c)
  {
    hide Acyclic, NestingDepth;
    var rank: string -> nat := name => Depth(c, name);
    forall name, i | name in c.serviceGroups && 0 <= i < |c.serviceGroups[name].members|
      ensures rank(c.serviceGroups[name].members[i]) < rank(name)
    {
      assert name in c.addressGroups ==> name in c.addressGroups.Keys * c.serviceGroups.Keys;
      MemberIsShallower(c, name, i);
    }
    assert ServiceRank(c, rank);
    TameServicesExact(c);
  }

  /** Without separate names it need not: here it finds no nesting at all, and the service
      group holds itself. */
  lemma SharedNameHidesCycle()
    ensures var c := Catalogue(map[], map["g" := Group("", [])], map[], map["g" := Group("", ["g"])]);
      Tame(c) && !TameServices(c)
  {
    var c := Catalogue(map[], map["g" := Group("", [])], map[], map["g" := Group("", ["g"])]);
    assert Ranked(c, _ => 0);
    forall name ensures Depth(c, name) <= MAX_GROUP_DEPTH { DepthBelowRank(c, _ => 0, name, {}); }
    TameServicesExact(c);
    forall rank: string -> nat ensures !ServiceRank(c, rank) {
      assert c.serviceGroups["g"].members[0] == "g";
    }
  }

  lemma {:induction false} ServiceFuelIsIrrelevant(c: Catalogue, rd: Reader, rank: string -> nat, name: string,
      f: nat, g: nat)
    requires ServiceRank(c, rank) && f > rank(name) && g > rank(name)
    ensures ExpandService(c, rd, name, f) == ExpandService(c, rd, name, g)
    decreases f, 0
  {
    hide AnyServiceToken, ExternallyResolved, ServiceFromObject, ServiceFromLiteral, ExpandServices;
    if name in c.serviceGroups {
      var members := c.serviceGroups[name].members;
      ServiceMembersFuelIsIrrelevant(c, rd, rank, members, |members|, f - 1, g - 1);
    }
  }

  lemma {:induction false} ServiceMembersFuelIsIrrelevant(c: Catalogue, rd: Reader, rank: string -> nat,
      members: seq<string>, n: nat, f: nat, g: nat)
    requires ServiceRank(c, rank) && n <= |members|
    requires forall i :: 0 <= i < |members| ==> rank(members[i]) < f && rank(members[i]) < g
    ensures ExpandServices(c, rd, members, n, f) == ExpandServices(c, rd, members, n, g)
    decreases f, n
  {
    hide ServiceRank, ExpandService, MergePorts;
    if n > 0 {
      ServiceMembersFuelIsIrrelevant(c, rd, rank, members, n - 1, f, g);
      ServiceFuelIsIrrelevant(c, rd, rank, members[n - 1], f, g);
    }
  }

  ghost predicate FaithfulServices(c: Catalogue, rd: Reader, memo: Memo) {
    forall name :: name in memo.services ==> ExpandService(c, rd, name, FULL) == Some(memo.services[name])
  }

  /** The service table is transparent too. */
  lemma {:induction false} ServiceLookupIsExpansion(c: Catalogue, rd: Reader, rank: string -> nat, memo: Memo,
      name: string, fuel: nat)
    requires ServiceRank(c, rank) && FaithfulServices(c, rd, memo) && rank(name) < fuel <= FULL
    ensures var (after, r) := LookupService(c, rd, memo, name, fuel);
      r == ExpandService(c, rd, name, FULL) && FaithfulServices(c, rd, after)
    decreases fuel, 0
  {
    hide AnyServiceToken, ExternallyResolved, ServiceFromObject, ServiceFromLiteral, LookupServiceMembers,
        ExpandServices;
    ServiceFuelIsIrrelevant(c, rd, rank, name, fuel, FULL);
    if name in c.serviceGroups {
      var members := c.serviceGroups[name].members;
      ServiceMembersFuelIsIrrelevant(c, rd, rank, members, |members|, fuel - 1, FULL);
      ServiceMembersAreExpansions(c, rd, rank, memo.Refer(name), members, |members|, fuel - 1);
    }
  }

  lemma {:induction false} ServiceMembersAreExpansions(c: Catalogue, rd: Reader, rank: string -> nat, memo: Memo,
      members: seq<string>, n: nat, fuel: nat)
    requires ServiceRank(c, rank) && FaithfulServices(c, rd, memo) && n <= |members| && fuel <= FULL
    requires forall i :: 0 <= i < |members| ==> rank(members[i]) < fuel
    ensures var (after, r) := LookupServiceMembers(c, rd, memo, members, n, fuel);
      r == ExpandServices(c, rd, members, n, FULL) && FaithfulServices(c, rd, after)
    decreases fuel, n
  {
    hide LookupService, ExpandService, FaithfulServices, ServiceRank, MergePorts;
    if n > 0 {
      ServiceMembersAreExpansions(c, rd, rank, memo, members, n - 1, fuel);
      var before := LookupServiceMembers(c, rd, memo, members, n - 1, fuel).0;
      ServiceLookupIsExpansion(c, rd, rank, before, members[n - 1], fuel);
    }
  }

  // --------------------------------------------------------- lists of services

  ghost predicate SomeNameServes(c: Catalogue, rd: Reader, names: seq<string>, n: nat, protocol: int, port: int)
    requires n <= |names|
  {
    exists i :: 0 <= i < n && ExpandService(c, rd, names[i], FULL).Some?
             && ExpandService(c, rd, names[i], FULL).value.Serves(protocol, port)
  }

  ghost predicate SomeServiceIsAny(c: Catalogue, rd: Reader, names: seq<string>, n: nat)
    requires n <= |names|
  {
    exists i :: 0 <= i < n && ExpandService(c, rd, names[i], FULL).Some? &&
        ExpandService(c, rd, names[i], FULL).value.IsAny()
  }

  ghost function UnreadServices(c: Catalogue, rd: Reader, names: seq<string>, n: nat): seq<string>
    requires n <= |names|
  {
    if n == 0 then []
    else
      UnreadServices(c, rd, names, n - 1) +
      if UnreadServiceAt(c, rd, names, n - 1) then [names[n - 1]] else []
  }

  ghost predicate UnreadServiceAt(c: Catalogue, rd: Reader, names: seq<string>, i: nat)
    requires i < |names|
  {
    ExpandService(c, rd, names[i], FULL).None? && !SomeServiceIsAny(c, rd, names, i)
  }

  lemma {:induction false} NoServiceUnread(c: Catalogue, rd: Reader, names: seq<string>, n: nat)
    requires n <= |names|
    ensures UnreadServices(c, rd, names, n) == [] <==> forall i :: 0 <= i < n ==> !UnreadServiceAt(c, rd, names, i)
  {
    hide UnreadServiceAt;
    if n > 0 { NoServiceUnread(c, rd, names, n - 1); }
  }

  /** A resolved list of services is ANY once one of its readable names is, and until then
      serves exactly what some readable name serves. What is reported missing is exactly
      what could not be read before that. */
  lemma {:induction false} ServiceListIsUnion(c: Catalogue, rd: Reader, memo: Memo, names: seq<string>, n: nat)
    requires TameServices(c) && rd.Sound() && FaithfulServices(c, rd, memo) && AllWellFormed(memo) && n <= |names|
    ensures var (after, e) := LookupServices(c, rd, memo, names, n);
      && FaithfulServices(c, rd, after) && AllWellFormed(after)
      && (e.full <==> SomeServiceIsAny(c, rd, names, n))
      && (e.full ==> e.set_ == AnyService())
      && (!e.full ==> e.set_.Named())
      && (!e.full ==> forall protocol, port ::
            e.set_.Serves(protocol, port) <==> SomeNameServes(c, rd, names, n, protocol, port))
      && e.missing == UnreadServices(c, rd, names, n)
  {
    hide LookupService, ExpandService, FaithfulServices, AllWellFormed, TameServices, ServiceSet.Serves,
        ServiceSet.WellFormed,
        ServiceSet.Named, MergePorts, IntsOf, Stored.Valid, ServiceRank;
    if n == 0 {
      NoServices();
    } else {
      ServiceListIsUnion(c, rd, memo, names, n - 1);
      var (before, soFar) := LookupServices(c, rd, memo, names, n - 1);
      TameServicesExact(c);
      var rank: string -> nat :| ServiceRank(c, rank);
      assert rank(names[n - 1]) < FULL by { RankBound(c, rank, names[n - 1]); }
      ServiceLookupIsExpansion(c, rd, rank, before, names[n - 1], FULL);
      ServicesStayWellFormed(c, rd, before, names[n - 1], FULL);
      ServiceListStep(c, rd, names, n);
      var next := LookupService(c, rd, before, names[n - 1], FULL).1;
      if next.Some? && !soFar.full && !next.value.IsAny() {
        NamedIsNotAny(next.value);
        MergeWellFormed(soFar.set_, next.value);
        forall protocol, port { MergeServes(soFar.set_, next.value, protocol, port); }
      }
    }
  }

  lemma RankBound(c: Catalogue, rank: string -> nat, name: string)
    requires ServiceRank(c, rank)
    ensures rank(name) < FULL
  {
  }

  lemma NoServices()
    ensures ServiceSet(map[]).Named() && forall protocol, port :: !ServiceSet(map[]).Serves(protocol, port)
  {
  }

  lemma MergeServes(a: ServiceSet, b: ServiceSet, protocol: int, port: int)
    requires a.Named() && b.Named()
    ensures ServiceSet(MergePorts(a.byProtocol, b.byProtocol)).Serves(protocol, port) <==>
      a.Serves(protocol, port) || b.Serves(protocol, port)
  {
    hide IntsOf, Stored.Valid, NamedProtocol, ServiceSet.Serves;
    var m := ServiceSet(MergePorts(a.byProtocol, b.byProtocol));
    MergeWellFormed(a, b);
    NamedWellFormed(a);
    NamedWellFormed(b);
    NamedWellFormed(m);
    NamedIsNotAny(a);
    NamedIsNotAny(b);
    NamedIsNotAny(m);
    ServesAt(a, protocol, port);
    ServesAt(b, protocol, port);
    ServesAt(m, protocol, port);
  }

  lemma ServiceListStep(c: Catalogue, rd: Reader, names: seq<string>, n: nat)
    requires 0 < n <= |names|
    ensures var last := ExpandService(c, rd, names[n - 1], FULL);
      && (SomeServiceIsAny(c, rd, names, n) <==>
            SomeServiceIsAny(c, rd, names, n - 1) || (last.Some? && last.value.IsAny()))
      && forall protocol, port :: SomeNameServes(c, rd, names, n, protocol, port) <==>
           SomeNameServes(c, rd, names, n - 1, protocol, port) || (last.Some? && last.value.Serves(protocol, port))
  {
    hide ExpandService, ServiceSet.IsAny, ServiceSet.Serves;
  }

  /** What a service group stands for: ANY once a readable member is, and otherwise what its
      readable members serve; it can always be read. */
  lemma ServiceGroupIsUnionOfMembers(c: Catalogue, rd: Reader, rank: string -> nat, name: string)
    requires ServiceRank(c, rank) && rd.Sound()
    requires name in c.serviceGroups && name !in c.services && !AnyServiceToken(name)
    ensures var members, r := c.serviceGroups[name].members, ExpandService(c, rd, name, FULL);
      && r.Some? && r.value.WellFormed()
      && (r.value.IsAny() <==> SomeServiceIsAny(c, rd, members, |members|))
      && (!r.value.IsAny() ==> forall protocol, port ::
            r.value.Serves(protocol, port) <==> SomeNameServes(c, rd, members, |members|, protocol, port))
  {
    hide AnyServiceToken, ExternallyResolved, ServiceFromObject, ServiceFromLiteral, SomeServiceIsAny, SomeNameServes;
    hide ExpandServices, ServiceSet.WellFormed, ServiceSet.Serves, IntsOf;
    var members := c.serviceGroups[name].members;
    RankBound(c, rank, name);
    ServiceMembersFuelIsIrrelevant(c, rd, rank, members, |members|, FULL - 1, FULL);
    ServiceMembersUnion(c, rd, members, |members|);
  }

  lemma {:induction false} ServiceMembersUnion(c: Catalogue, rd: Reader, members: seq<string>, n: nat)
    requires rd.Sound() && n <= |members|
    ensures var r := ExpandServices(c, rd, members, n, FULL);
      && r.WellFormed()
      && (r.IsAny() <==> SomeServiceIsAny(c, rd, members, n))
      && (!r.IsAny() ==> forall protocol, port ::
            r.Serves(protocol, port) <==> SomeNameServes(c, rd, members, n, protocol, port))
  {
    hide ExpandService, ServiceSet.Serves, ServiceSet.WellFormed, ServiceSet.Named, MergePorts, IntsOf, Stored.Valid;
    AnyIsWellFormed();
    if n == 0 {
      NoServices();
      EmptyServiceWellFormed();
    } else {
      ServiceMembersUnion(c, rd, members, n - 1);
      ServiceListStep(c, rd, members, n);
      ExpansionWellFormed(c, rd, members[n - 1]);
      var soFar, next := ExpandServices(c, rd, members, n - 1, FULL), ExpandService(c, rd, members[n - 1], FULL);
      if next.Some? && !soFar.IsAny() && !next.value.IsAny() {
        NamedIsNotAny(soFar);
        NamedIsNotAny(next.value);
        MergeWellFormed(soFar, next.value);
        var merged := ServiceSet(MergePorts(soFar.byProtocol, next.value.byProtocol));
        NamedWellFormed(merged);
        NamedIsNotAny(merged);
        forall protocol, port { MergeServes(soFar, next.value, protocol, port); }
      }
    }
  }

  lemma ExpansionWellFormed(c: Catalogue, rd: Reader, name: string)
    requires rd.Sound()
    ensures ExpandService(c, rd, name, FULL).Some? ==> ExpandService(c, rd, name, FULL).value.WellFormed()
  {
    ExpandedServiceWellFormed(c, rd, name, FULL);
  }

  lemma {:induction false} ExpandedServiceWellFormed(c: Catalogue, rd: Reader, name: string, fuel: nat)
    requires rd.Sound()
    ensures ExpandService(c, rd, name, fuel).Some? ==> ExpandService(c, rd, name, fuel).value.WellFormed()
    decreases fuel, 0
  {
    hide IntsOf, ServiceSet.WellFormed, AnyServiceToken, ExternallyResolved, ServiceFromObject, ServiceFromLiteral;
    hide ExpandServices;
    AnyIsWellFormed();
    LiteralWellFormed(rd, name);
    if name in c.services { ObjectWellFormed(rd, c.services[name]); }
    if fuel > 0 && name in c.serviceGroups {
      var members := c.serviceGroups[name].members;
      ExpandedServicesWellFormed(c, rd, members, |members|, fuel - 1);
    }
  }

  lemma {:induction false} ExpandedServicesWellFormed(c: Catalogue, rd: Reader, members: seq<string>, n: nat, fuel: nat)
    requires rd.Sound() && n <= |members|
    ensures ExpandServices(c, rd, members, n, fuel).WellFormed()
    decreases fuel, n
  {
    hide IntsOf, ExpandService, MergePorts, ServiceSet.WellFormed;
    AnyIsWellFormed();
    if n == 0 {
      EmptyServiceWellFormed();
    } else {
      ExpandedServicesWellFormed(c, rd, members, n - 1, fuel);
      ExpandedServiceWellFormed(c, rd, members[n - 1], fuel);
      var soFar, next := ExpandServices(c, rd, members, n - 1, fuel), ExpandService(c, rd, members[n - 1], fuel);
      if next.Some? && !soFar.IsAny() && !next.value.IsAny() {
        NamedIsNotAny(soFar);
        NamedIsNotAny(next.value);
        MergeWellFormed(soFar, next.value);
        NamedWellFormed(ServiceSet(MergePorts(soFar.byProtocol, next.value.byProtocol)));
      }
    }
  }

  // ------------------------------------------------------- what is written down

  /** Nothing noted is ever forgotten. */
  ghost predicate Grows(before: Memo, after: Memo) {
    && before.unresolved <= after.unresolved && before.external <= after.external
    && before.referenced <= after.referenced
  }

  /** A name that was refused is noted, with a reason. */
  ghost predicate Noted(memo: Memo, name: string) { exists reason :: Note(name, reason) in memo.unresolved }

  /** Whatever could not be resolved is noted, a name that is kept elsewhere as such; and
      every name that was looked up in the catalogue, or remembered, counts as referenced. */
  lemma {:induction false} LookupTakesNotes(c: Catalogue, rd: Reader, memo: Memo, name: string, fuel: nat)
    ensures var (after, r) := LookupAddress(c, rd, memo, name, fuel);
      && Grows(memo, after) && (r.None? ==> Noted(after, name))
      && (fuel > 0 && r.None? && name in c.addresses && ExternallyResolved(c.addresses[name].kind) ==>
            name in after.external && Note(name, External) in after.unresolved)
      && (fuel > 0 && !AnyAddressToken(name) && !rd.address(name).NonEmpty() ==> name in after.referenced)
    decreases fuel, 0
  {
    hide AnyAddressToken, ExternallyResolved, IntsOf, Stored.Valid, LookupMembers, AddressSet.NonEmpty;
    if fuel > 0 && name in c.addressGroups {
      var members := c.addressGroups[name].members;
      MembersTakeNotes(c, rd, memo.Refer(name), members, |members|, fuel - 1);
    }
    assert fuel == 0 ==> Note(name, TooDeep) in memo.Refuse(name, TooDeep).unresolved;
  }

  lemma {:induction false} MembersTakeNotes(c: Catalogue, rd: Reader, memo: Memo, members: seq<string>, n: nat,
      fuel: nat)
    requires n <= |members|
    ensures Grows(memo, LookupMembers(c, rd, memo, members, n, fuel).0)
    decreases fuel, n
  {
    hide LookupAddress, Join;
    if n > 0 {
      MembersTakeNotes(c, rd, memo, members, n - 1, fuel);
      LookupTakesNotes(c, rd, LookupMembers(c, rd, memo, members, n - 1, fuel).0, members[n - 1], fuel);
    }
  }

  /** The same for services. */
  lemma {:induction false} ServiceTakesNotes(c: Catalogue, rd: Reader, memo: Memo, name: string, fuel: nat)
    ensures var (after, r) := LookupService(c, rd, memo, name, fuel);
      && Grows(memo, after) && (r.None? ==> Noted(after, name))
      && (fuel > 0 && r.None? && name in c.services && ExternallyResolved(c.services[name].kind) ==>
            name in after.external && Note(name, External) in after.unresolved)
      && (fuel > 0 && !AnyServiceToken(name) ==> name in after.referenced)
    decreases fuel, 0
  {
    hide AnyServiceToken, ExternallyResolved, IntsOf, Stored.Valid, LookupServiceMembers;
    hide ServiceFromObject, ServiceFromLiteral;
    if fuel > 0 && name in c.serviceGroups {
      var members := c.serviceGroups[name].members;
      ServiceMembersTakeNotes(c, rd, memo.Refer(name), members, |members|, fuel - 1);
    }
    assert fuel == 0 ==> Note(name, TooDeep) in memo.Refuse(name, TooDeep).unresolved;
  }

  lemma {:induction false} ServiceMembersTakeNotes(c: Catalogue, rd: Reader, memo: Memo, members: seq<string>,
      n: nat, fuel: nat)
    requires n <= |members|
    ensures Grows(memo, LookupServiceMembers(c, rd, memo, members, n, fuel).0)
    decreases fuel, n
  {
    hide LookupService, MergePorts;
    if n > 0 {
      ServiceMembersTakeNotes(c, rd, memo, members, n - 1, fuel);
      ServiceTakesNotes(c, rd, LookupServiceMembers(c, rd, memo, members, n - 1, fuel).0, members[n - 1], fuel);
    }
  }

  /** So every name a list reports missing, on any catalogue, has a note saying why. */
  lemma {:induction false} MissingIsNoted(c: Catalogue, rd: Reader, memo: Memo, names: seq<string>, n: nat)
    requires n <= |names|
    ensures var (after, e) := LookupAddresses(c, rd, memo, names, n);
      Grows(memo, after) && forall i :: 0 <= i < |e.missing| ==> Noted(after, e.missing[i])
  {
    hide LookupAddress, Noted, AddressSet.IsAny, UnionAddress;
    if n > 0 {
      MissingIsNoted(c, rd, memo, names, n - 1);
      var (before, soFar) := LookupAddresses(c, rd, memo, names, n - 1);
      LookupTakesNotes(c, rd, before, names[n - 1], FULL);
      StaysNoted(before, LookupAddress(c, rd, before, names[n - 1], FULL).0);
    }
  }

  lemma {:induction false} MissingServiceIsNoted(c: Catalogue, rd: Reader, memo: Memo, names: seq<string>, n: nat)
    requires n <= |names|
    ensures var (after, e) := LookupServices(c, rd, memo, names, n);
      Grows(memo, after) && forall i :: 0 <= i < |e.missing| ==> Noted(after, e.missing[i])
  {
    hide LookupService, Noted, MergePorts;
    if n > 0 {
      MissingServiceIsNoted(c, rd, memo, names, n - 1);
      var (before, soFar) := LookupServices(c, rd, memo, names, n - 1);
      ServiceTakesNotes(c, rd, before, names[n - 1], FULL);
      StaysNoted(before, LookupService(c, rd, before, names[n - 1], FULL).0);
    }
  }

  lemma StaysNoted(before: Memo, after: Memo)
    requires Grows(before, after)
    ensures forall name :: Noted(before, name) ==> Noted(after, name)
  {
  }
}
