/** Expanding names into sets with two memo tables.

    `Memo` is everything the resolver mutates. The ghost functions describe one lookup as
    a state transformer, branch by branch; the class performs it in place. */
module Resolver {
  import opened Common
  import opened Intervals
  import opened Model
  import opened Catalogue

  datatype Reason = TooDeep | External | NotUnderstood | NoMemberRead | Undefined

  datatype Note = Note(name: string, reason: Reason)

  datatype Memo = Memo(
    addresses: map<string, AddressSet>,
    services: map<string, ServiceSet>,
    unresolved: set<Note>,
    external: set<string>,
    referenced: set<string>)
  {
    function Refuse(name: string, reason: Reason): Memo {
      this.(unresolved := unresolved + {Note(name, reason)},
            external := if reason.External? then external + {name} else external)
    }

    function Refer(name: string): Memo { this.(referenced := referenced + {name}) }
  }

  /** Depths 0 to `MAX_GROUP_DEPTH` resolve, so a lookup starts with this much fuel. */
  const FULL: nat := MAX_GROUP_DEPTH + 1

  predicate AnyAddressToken(name: string) { Lower(Strip(name)) in {"any", "all", "*"} }

  predicate AnyServiceToken(name: string) {
    Lower(Strip(name)) in {"any", "all", "*", "application-default", "ip", "ipv4"}
  }

  /** What has been combined so far; `None` until some member could be read. */
  ghost function Join(soFar: Option<AddressSet>, next: Option<AddressSet>): Option<AddressSet> {
    if next.None? then soFar
    else Some(UnionAddress(if soFar.Some? then soFar.value else EMPTY_ADDRESS, next.value))
  }

  ghost function LookupAddress(c: Catalogue, rd: Reader, memo: Memo, name: string, fuel: nat): (Memo,
      Option<AddressSet>)
    decreases fuel, 0
  {
    if fuel == 0 then (memo.Refuse(name, TooDeep), None)
    else if name in memo.addresses then (memo.Refer(name), Some(memo.addresses[name]))
    else if AnyAddressToken(name) then (memo, Some(AnyAddress()))
    else if rd.address(name).NonEmpty() then
      (memo.(addresses := memo.addresses[name := rd.address(name)]), Some(rd.address(name)))
    else
      var memo := memo.Refer(name);
      if name in c.addresses then
        var obj := c.addresses[name];
        if ExternallyResolved(obj.kind) then (memo.Refuse(name, External), None)
        else if !rd.address(obj.value).NonEmpty() then (memo.Refuse(name, NotUnderstood), None)
        else (memo.(addresses := memo.addresses[name := rd.address(obj.value)]), Some(rd.address(obj.value)))
      else if name in c.addressGroups then
        var group := c.addressGroups[name];
        if ExternallyResolved(group.kind) then (memo.Refuse(name, External), None)
        else
          var (memo, combined) := LookupMembers(c, rd, memo, group.members, |group.members|, fuel - 1);
          if group.members != [] && combined.None? then (memo.Refuse(name, NoMemberRead), None)
          else
            var all := if combined.Some? then combined.value else EMPTY_ADDRESS;
            (memo.(addresses := memo.addresses[name := all]), Some(all))
      else (memo.Refuse(name, Undefined), None)
  }

  ghost function LookupMembers(c: Catalogue, rd: Reader, memo: Memo, members: seq<string>, n: nat, fuel: nat)
    : (Memo, Option<AddressSet>)
    requires n <= |members|
    decreases fuel, n
  {
    if n == 0 then (memo, None)
    else
      var (memo, soFar) := LookupMembers(c, rd, memo, members, n - 1, fuel);
      var (memo, next) := LookupAddress(c, rd, memo, members[n - 1], fuel);
      (memo, Join(soFar, next))
  }

  /** Protocol by protocol union. */
  ghost function MergePorts(a: map<int, IntervalSet>, b: map<int, IntervalSet>): map<int, IntervalSet> {
    map p | p in a.Keys + b.Keys ::
      if p in a && p in b then UnionOf(a[p], b[p]) else if p in a then a[p] else b[p]
  }

  ghost function LookupService(c: Catalogue, rd: Reader, memo: Memo, name: string, fuel: nat): (Memo,
      Option<ServiceSet>)
    decreases fuel, 0
  {
    if fuel == 0 then (memo.Refuse(name, TooDeep), None)
    else if name in memo.services then (memo.Refer(name), Some(memo.services[name]))
    else if AnyServiceToken(name) then (memo, Some(AnyService()))
    else
      var memo := memo.Refer(name);
      if name in c.services then
        var obj := c.services[name];
        if ExternallyResolved(obj.kind) then (memo.Refuse(name, External), None)
        else
          var s := ServiceFromObject(rd, obj);
          (memo.(services := memo.services[name := s]), Some(s))
      else if name in c.serviceGroups then
        var members := c.serviceGroups[name].members;
        var (memo, s) := LookupServiceMembers(c, rd, memo, members, |members|, fuel - 1);
        (memo.(services := memo.services[name := s]), Some(s))
      else if ServiceFromLiteral(rd, name).Some? then
        var s := ServiceFromLiteral(rd, name).value;
        (memo.(services := memo.services[name := s]), Some(s))
      else (memo.Refuse(name, Undefined), None)
  }

  /** The first ANY ends the walk: later members are neither looked up nor noted. */
  ghost function LookupServiceMembers(c: Catalogue, rd: Reader, memo: Memo, members: seq<string>, n: nat, fuel: nat)
    : (Memo, ServiceSet)
    requires n <= |members|
    decreases fuel, n
  {
    if n == 0 then (memo, ServiceSet(map[]))
    else
      var (memo, soFar) := LookupServiceMembers(c, rd, memo, members, n - 1, fuel);
      if soFar.IsAny() then (memo, soFar)
      else
        var (memo, next) := LookupService(c, rd, memo, members[n - 1], fuel);
        if next.None? then (memo, soFar)
        else if next.value.IsAny() then (memo, AnyService())
        else (memo, ServiceSet(MergePorts(soFar.byProtocol, next.value.byProtocol)))
  }

  // ------------------------------------------------------------- lists of names

  datatype Expansion = Expansion(set_: AddressSet, missing: seq<string>, full: bool)

  /** Resolving a list: the first name that `is_any` answers for the whole list. */
  ghost function LookupAddresses(c: Catalogue, rd: Reader, memo: Memo, names: seq<string>, n: nat): (Memo, Expansion)
    requires n <= |names|
  {
    if n == 0 then (memo, Expansion(EMPTY_ADDRESS, [], false))
    else
      var (memo, soFar) := LookupAddresses(c, rd, memo, names, n - 1);
      if soFar.full then (memo, soFar)
      else
        var (memo, next) := LookupAddress(c, rd, memo, names[n - 1], FULL);
        if next.None? then (memo, soFar.(missing := soFar.missing + [names[n - 1]]))
        else if next.value.IsAny() then (memo, Expansion(AnyAddress(), soFar.missing, true))
        else (memo, soFar.(set_ := UnionAddress(soFar.set_, next.value)))
  }

  datatype Services = Services(set_: ServiceSet, missing: seq<string>, full: bool)

  ghost function LookupServices(c: Catalogue, rd: Reader, memo: Memo, names: seq<string>, n: nat): (Memo, Services)
    requires n <= |names|
  {
    if n == 0 then (memo, Services(ServiceSet(map[]), [], false))
    else
      var (memo, soFar) := LookupServices(c, rd, memo, names, n - 1);
      if soFar.full then (memo, soFar)
      else
        var (memo, next) := LookupService(c, rd, memo, names[n - 1], FULL);
        if next.None? then (memo, soFar.(missing := soFar.missing + [names[n - 1]]))
        else if next.value.IsAny() then (memo, Services(AnyService(), soFar.missing, true))
        else (memo, soFar.(set_ := ServiceSet(MergePorts(soFar.set_.byProtocol, next.value.byProtocol))))
  }

  /** The merge once the keys in `done` have been carried over. */
  ghost function MergeUpTo(a: map<int, IntervalSet>, b: map<int, IntervalSet>, done: set<int>): map<int, IntervalSet> {
    MergePorts(a, map p | p in b && p in done :: b[p])
  }

  lemma MergeStep(a: map<int, IntervalSet>, b: map<int, IntervalSet>, done: set<int>, p: int)
    requires p in b && p !in done
    ensures MergeUpTo(a, b, done + {p}) == MergeUpTo(a, b, done)[p := if p in a then UnionOf(a[p], b[p]) else b[p]]
    ensures p in a ==> p in MergeUpTo(a, b, done) && MergeUpTo(a, b, done)[p] == a[p]
    ensures p !in a ==> p !in MergeUpTo(a, b, done)
  {
    hide UnionOf, IntsOf, Stored.Valid;
  }

  lemma MergeEnds(a: map<int, IntervalSet>, b: map<int, IntervalSet>)
    ensures MergeUpTo(a, b, {}) == a && MergeUpTo(a, b, b.Keys) == MergePorts(a, b)
  {
    hide UnionOf, IntsOf, Stored.Valid;
    assert b == map p | p in b && p in b.Keys :: b[p];
  }

  method Merge(a: map<int, IntervalSet>, b: map<int, IntervalSet>) returns (r: map<int, IntervalSet>)
    ensures r == MergePorts(a, b) && r.Keys == a.Keys + b.Keys
  {
    hide UnionOf, IntsOf, Stored.Valid, MergeUpTo;
    MergeEnds(a, b);
    r := a;
    var todo := b.Keys;
    assert b.Keys - todo == {};
    while todo != {}
      invariant todo <= b.Keys && r == MergeUpTo(a, b, b.Keys - todo)
    {
      var p := Choose(todo);
      MergeStep(a, b, b.Keys - todo, p);
      assert b.Keys - (todo - {p}) == b.Keys - todo + {p};
      if p in r {
        var joined := Union(r[p], b[p]);
        EqualIffSameInts(joined, UnionOf(a[p], b[p]));
        r := r[p := joined];
      } else {
        r := r[p := b[p]];
      }
      todo := todo - {p};
    }
    assert b.Keys - todo == b.Keys;
  }

  class ObjectResolver {
    const catalogue: Catalogue
    const reader: Reader
    var addressCache: map<string, AddressSet>
    var serviceCache: map<string, ServiceSet>
    var unresolved: set<Note>
    var externallyResolved: set<string>
    var referenced: set<string>

    constructor (catalogue: Catalogue, reader: Reader)
      ensures this.catalogue == catalogue && this.reader == reader
      ensures State() == Memo(map[], map[], {}, {}, {})
    {
      this.catalogue, this.reader := catalogue, reader;
      addressCache, serviceCache, unresolved, externallyResolved, referenced := map[], map[], {}, {}, {};
    }

    ghost function State(): Memo
      reads this
    {
      Memo(addressCache, serviceCache, unresolved, externallyResolved, referenced)
    }

    method NoteExternal(name: string)
      modifies this
      ensures State() == old(State()).Refuse(name, External)
    {
      externallyResolved := externallyResolved + {name};
      unresolved := unresolved + {Note(name, External)};
    }

    method ResolveAddress(name: string, depth: nat) returns (r: Option<AddressSet>)
      requires depth <= FULL
      modifies this
      ensures (State(), r) == LookupAddress(catalogue, reader, old(State()), name, FULL - depth)
      decreases FULL - depth
    {
      hide IntsOf, Stored.Valid, AnyAddressToken, ExternallyResolved;
      if depth > MAX_GROUP_DEPTH {
        unresolved := unresolved + {Note(name, TooDeep)};
        return None;
      }
      if name in addressCache {
        referenced := referenced + {name};
        return Some(addressCache[name]);
      }
      if AnyAddressToken(name) { return Some(AnyAddress()); }
      var literal := reader.address(name);
      if literal.NonEmpty() {
        addressCache := addressCache[name := literal];
        return Some(literal);
      }
      referenced := referenced + {name};
      if name in catalogue.addresses {
        var obj := catalogue.addresses[name];
        if ExternallyResolved(obj.kind) {
          NoteExternal(name);
          return None;
        }
        var value := reader.address(obj.value);
        if !value.NonEmpty() {
          unresolved := unresolved + {Note(name, NotUnderstood)};
          return None;
        }
        addressCache := addressCache[name := value];
        return Some(value);
      }
      if name in catalogue.addressGroups {
        var group := catalogue.addressGroups[name];
        if ExternallyResolved(group.kind) {
          NoteExternal(name);
          return None;
        }
        ghost var start := State();
        var combined: Option<AddressSet> := None;
        for i := 0 to |group.members|
          invariant (State(), combined) == LookupMembers(catalogue, reader, start, group.members, i, FULL - depth - 1)
        {
          var member := ResolveAddress(group.members[i], depth + 1);
          if member.None? { continue; }
          var joined := AddressUnion(if combined.Some? then combined.value else EMPTY_ADDRESS, member.value);
          combined := Some(joined);
        }
        if group.members != [] && combined.None? {
          unresolved := unresolved + {Note(name, NoMemberRead)};
          return None;
        }
        var all := if combined.Some? then combined.value else EMPTY_ADDRESS;
        addressCache := addressCache[name := all];
        return Some(all);
      }
      unresolved := unresolved + {Note(name, Undefined)};
      return None;
    }

    method ResolveService(name: string, depth: nat) returns (r: Option<ServiceSet>)
      requires depth <= FULL
      modifies this
      ensures (State(), r) == LookupService(catalogue, reader, old(State()), name, FULL - depth)
      decreases FULL - depth
    {
      hide IntsOf, Stored.Valid, AnyServiceToken, ExternallyResolved, ServiceFromObject, ServiceFromLiteral, MergePorts;
      if depth > MAX_GROUP_DEPTH {
        unresolved := unresolved + {Note(name, TooDeep)};
        return None;
      }
      if name in serviceCache {
        referenced := referenced + {name};
        return Some(serviceCache[name]);
      }
      if AnyServiceToken(name) { return Some(AnyService()); }
      referenced := referenced + {name};
      if name in catalogue.services {
        var obj := catalogue.services[name];
        if ExternallyResolved(obj.kind) {
          NoteExternal(name);
          return None;
        }
        var s := ServiceFromObject(reader, obj);
        serviceCache := serviceCache[name := s];
        return Some(s);
      }
      if name in catalogue.serviceGroups {
        var members := catalogue.serviceGroups[name].members;
        ghost var start := State();
        var byProtocol: map<int, IntervalSet> := map[];
        var i := 0;
        while i < |members|
          invariant i <= |members| && ANY_PROTOCOL !in byProtocol
          invariant (State(), ServiceSet(byProtocol)) ==
            LookupServiceMembers(catalogue, reader, start, members, i, FULL - depth - 1)
        {
          var member := ResolveService(members[i], depth + 1);
          i := i + 1;
          if member.None? { continue; }
          if member.value.IsAny() {
            AnyEndsMembers(catalogue, reader, start, members, i, |members|, FULL - depth - 1);
            serviceCache := serviceCache[name := AnyService()];
            return Some(AnyService());
          }
          byProtocol := Merge(byProtocol, member.value.byProtocol);
        }
        var s := ServiceSet(byProtocol);
        serviceCache := serviceCache[name := s];
        return Some(s);
      }
      var literal := ServiceFromLiteral(reader, name);
      if literal.Some? {
        serviceCache := serviceCache[name := literal.value];
        return literal;
      }
      unresolved := unresolved + {Note(name, Undefined)};
      return None;
    }

    method ResolveAddresses(names: seq<string>) returns (r: AddressSet, missing: seq<string>)
      modifies this
      ensures var (memo, e) := LookupAddresses(catalogue, reader, old(State()), names, |names|);
        State() == memo && r == e.set_ && missing == e.missing
    {
      hide LookupAddress, IntsOf, Stored.Valid, AddressSet.IsAny;
      ghost var start := State();
      r, missing := EMPTY_ADDRESS, [];
      var i := 0;
      while i < |names|
        invariant i <= |names|
        invariant (State(), Expansion(r, missing, false)) == LookupAddresses(catalogue, reader, start, names, i)
      {
        var resolved := ResolveAddress(names[i], 0);
        i := i + 1;
        if resolved.None? {
          missing := missing + [names[i - 1]];
          continue;
        }
        if resolved.value.IsAny() {
          FullStaysFull(catalogue, reader, start, names, i, |names|);
          return AnyAddress(), missing;
        }
        r := AddressUnion(r, resolved.value);
      }
    }

    method ResolveServices(names: seq<string>) returns (r: ServiceSet, missing: seq<string>)
      modifies this
      ensures var (memo, e) := LookupServices(catalogue, reader, old(State()), names, |names|);
        State() == memo && r == e.set_ && missing == e.missing
    {
      hide LookupService, IntsOf, Stored.Valid, MergePorts;
      ghost var start := State();
      var byProtocol: map<int, IntervalSet> := map[];
      missing := [];
      var i := 0;
      while i < |names|
        invariant i <= |names|
        invariant (State(), Services(ServiceSet(byProtocol), missing, false)) ==
          LookupServices(catalogue, reader, start, names, i)
      {
        var resolved := ResolveService(names[i], 0);
        i := i + 1;
        if resolved.None? {
          missing := missing + [names[i - 1]];
          continue;
        }
        if resolved.value.IsAny() {
          FullStaysFullService(catalogue, reader, start, names, i, |names|);
          return AnyService(), missing;
        }
        byProtocol := Merge(byProtocol, resolved.value.byProtocol);
      }
      r := ServiceSet(byProtocol);
    }
  }

  lemma {:induction false} AnyEndsMembers(c: Catalogue, rd: Reader, memo: Memo, members: seq<string>, i: nat, n: nat,
      fuel: nat)
    requires i <= n <= |members| && LookupServiceMembers(c, rd, memo, members, i, fuel).1.IsAny()
    ensures LookupServiceMembers(c, rd, memo, members, n, fuel) == LookupServiceMembers(c, rd, memo, members, i, fuel)
  {
    hide LookupService;
    if i < n { AnyEndsMembers(c, rd, memo, members, i, n - 1, fuel); }
  }

  lemma {:induction false} FullStaysFull(c: Catalogue, rd: Reader, memo: Memo, names: seq<string>, i: nat, n: nat)
    requires i <= n <= |names| && LookupAddresses(c, rd, memo, names, i).1.full
    ensures LookupAddresses(c, rd, memo, names, n) == LookupAddresses(c, rd, memo, names, i)
  {
    hide LookupAddress;
    if i < n { FullStaysFull(c, rd, memo, names, i, n - 1); }
  }

  lemma {:induction false} FullStaysFullService(c: Catalogue, rd: Reader, memo: Memo, names: seq<string>, i: nat,
      n: nat)
    requires i <= n <= |names| && LookupServices(c, rd, memo, names, i).1.full
    ensures LookupServices(c, rd, memo, names, n) == LookupServices(c, rd, memo, names, i)
  {
    hide LookupService;
    if i < n { FullStaysFullService(c, rd, memo, names, i, n - 1); }
  }
}
