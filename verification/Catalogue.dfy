/** The named objects and groups behind a rulebase, and how deeply they nest. */
module Catalogue {
  import opened Common
  import opened Intervals
  import opened Model

  /** Objects and groups carry a type; some types live outside any configuration. */
  datatype AddressObject = AddressObject(kind: string, value: string)
  datatype ServiceObject = ServiceObject(kind: string, value: string)
  datatype Group = Group(kind: string, members: seq<string>)

  datatype Catalogue = Catalogue(
    addresses: map<string, AddressObject>,
    addressGroups: map<string, Group>,
    services: map<string, ServiceObject>,
    serviceGroups: map<string, Group>)

  // -------------------------------------------------------- reading the lists

  /** The firewall's own lists, in order; a name may be blank or defined again. */
  datatype Firewall = Firewall(
    addresses: seq<(string, AddressObject)>,
    addressGroups: seq<(string, Group)>,
    services: seq<(string, ServiceObject)>,
    serviceGroups: seq<(string, Group)>)

  function Table<T>(entries: seq<(string, T)>): map<string, T> {
    if entries == [] then map[]
    else
      var (name, value) := entries[|entries| - 1];
      var before := Table(entries[..|entries| - 1]);
      if name == "" then before else before[name := value]
  }

  /** Entry `i` is the last of its name. */
  ghost predicate LastOfName<T>(entries: seq<(string, T)>, name: string, i: nat) {
    i < |entries| && entries[i].0 == name && forall j :: i < j < |entries| ==> entries[j].0 != name
  }

  /** A table holds exactly the names that are defined and not blank, each as it was last
      defined. */
  lemma {:induction false} TableExact<T>(entries: seq<(string, T)>, name: string)
    ensures name in Table(entries) <==> name != "" && exists i: nat :: LastOfName(entries, name, i)
    ensures forall i: nat :: LastOfName(entries, name, i) && name != "" ==> Table(entries)[name] == entries[i].1
  {
    if entries != [] {
      var n := |entries| - 1;
      TableExact(entries[..n], name);
      if entries[n].0 == name {
        assert LastOfName(entries, name, n);
      } else {
        forall i: nat ensures LastOfName(entries, name, i) <==> LastOfName(entries[..n], name, i) { }
      }
    }
  }

  method BuildTable<T>(entries: seq<(string, T)>) returns (table: map<string, T>)
    ensures table == Table(entries)
  {
    table := map[];
    for i := 0 to |entries|
      invariant table == Table(entries[..i])
    {
      assert entries[..i + 1][..i] == entries[..i];
      var (name, value) := entries[i];
      if name != "" { table := table[name := value]; }
    }
    assert entries[..|entries|] == entries;
  }

  function CatalogueOf(f: Firewall): Catalogue {
    Catalogue(Table(f.addresses), Table(f.addressGroups), Table(f.services), Table(f.serviceGroups))
  }

  method ReadCatalogue(f: Firewall) returns (c: Catalogue)
    ensures c == CatalogueOf(f)
  {
    var addresses := BuildTable(f.addresses);
    var addressGroups := BuildTable(f.addressGroups);
    var services := BuildTable(f.services);
    var serviceGroups := BuildTable(f.serviceGroups);
    c := Catalogue(addresses, addressGroups, services, serviceGroups);
  }

  predicate ExternallyResolved(kind: string) {
    kind in {"security-group", "prefix-list", "dynamic-group", "epg-no-subnet", "service-tag"}
  }

  /** The text readers, given: an address token, and a non-blank port expression. */
  datatype Reader = Reader(address: string -> AddressSet, ports: string -> IntervalSet) {
    ghost predicate Sound() {
      && (forall text :: address(text).InRange())
      && (forall text :: ports(text).Ints() <= Range(0, PORT_MAX))
    }
  }

  /** Any group, address groups first. */
  function GroupMembers(c: Catalogue, name: string): seq<string> {
    if name in c.addressGroups then c.addressGroups[name].members
    else if name in c.serviceGroups then c.serviceGroups[name].members
    else []
  }

  ghost function GroupNames(c: Catalogue): set<string> { c.addressGroups.Keys + c.serviceGroups.Keys }

  lemma Fewer(names: set<string>, seen: set<string>, name: string)
    requires name in names && name !in seen
    ensures |names - (seen + {name})| < |names - seen|
  {
    assert names - (seen + {name}) == (names - seen) - {name};
  }

  /** How deep a group nests. Meeting a name again on the way down counts for nothing, so
      this is defined for cyclic catalogues too. */
  ghost function NestingDepth(c: Catalogue, name: string, seen: set<string>): nat
    decreases |GroupNames(c) - seen|, 0
  {
    if name in seen || GroupMembers(c, name) == [] then 0
    else
      Fewer(GroupNames(c), seen, name);
      1 + DeepestMember(c, GroupMembers(c, name), |GroupMembers(c, name)|, seen + {name})
  }

  ghost function DeepestMember(c: Catalogue, members: seq<string>, n: nat, seen: set<string>): (d: nat)
    requires n <= |members|
    ensures forall i :: 0 <= i < n ==> NestingDepth(c, members[i], seen) <= d
    ensures n > 0 ==> exists i :: 0 <= i < n && NestingDepth(c, members[i], seen) == d
    decreases |GroupNames(c) - seen|, n
  {
    if n == 0 then 0
    else
      var before := DeepestMember(c, members, n - 1, seen);
      var last := NestingDepth(c, members[n - 1], seen);
      if n == 1 || last > before then last else before
  }

  /** A rank that falls along every membership: the catalogue has no cycle. */
  ghost predicate Ranked(c: Catalogue, rank: string -> nat) {
    forall name, i :: 0 <= i < |GroupMembers(c, name)| ==> rank(GroupMembers(c, name)[i]) < rank(name)
  }

  ghost predicate Acyclic(c: Catalogue) { exists rank: string -> nat :: Ranked(c, rank) }

  /** Without cycles the path walked so far does not change the depth. */
  lemma {:induction false} SeenIsIrrelevant(c: Catalogue, rank: string -> nat, name: string, seen: set<string>)
    requires Ranked(c, rank) && forall s :: s in seen ==> rank(name) < rank(s)
    ensures NestingDepth(c, name, seen) == NestingDepth(c, name, {})
    decreases rank(name)
  {
    var members := GroupMembers(c, name);
    if members != [] {
      forall i | 0 <= i < |members|
        ensures NestingDepth(c, members[i], seen + {name}) == NestingDepth(c, members[i], {} + {name})
      {
        SeenIsIrrelevant(c, rank, members[i], seen + {name});
        SeenIsIrrelevant(c, rank, members[i], {} + {name});
      }
    }
  }

  /** In an acyclic catalogue a member nests strictly less deeply than its group. */
  lemma MemberIsShallower(c: Catalogue, name: string, i: nat)
    requires Acyclic(c) && i < |GroupMembers(c, name)|
    ensures NestingDepth(c, GroupMembers(c, name)[i], {}) < NestingDepth(c, name, {})
  {
    var rank: string -> nat :| Ranked(c, rank);
    SeenIsIrrelevant(c, rank, GroupMembers(c, name)[i], {} + {name});
  }

  // --------------------------------------------------------- reading a service

  function ProtocolNumber(name: string): Option<int> {
    match name
    case "icmp" => Some(1)
    case "igmp" => Some(2)
    case "tcp" => Some(6)
    case "udp" => Some(17)
    case "gre" => Some(47)
    case "esp" => Some(50)
    case "ah" => Some(51)
    case "icmpv6" => Some(58)
    case "sctp" => Some(132)
    case _ => None
  }

  predicate BlankPorts(text: string) { Lower(Strip(text)) in {"", "any", "all", "*", "0-65535"} }

  /** A port expression; anything unreadable comes back empty. */
  function ReadPorts(rd: Reader, text: string): IntervalSet {
    if BlankPorts(text) then Universe(PORT_MAX) else rd.ports(text)
  }

  function OneService(protocol: int, ports: IntervalSet): ServiceSet {
    if ports.IsEmpty() then ServiceSet(map[]) else ServiceSet(map[protocol := ports])
  }

  function ServiceFromObject(rd: Reader, obj: ServiceObject): ServiceSet {
    var value, declared := Lower(Strip(obj.value)), ProtocolNumber(Lower(Strip(obj.kind)));
    if value == "any" || value == "all" then AnyService()
    else
      var slash := Partition(value, '/');
      var (protocol, ports) :=
        if slash.Some? then
          if ProtocolNumber(slash.value.0).Some? then (ProtocolNumber(slash.value.0), slash.value.1)
          else (declared, value)
        else if "tcp-" <= value || "udp-" <= value then (ProtocolNumber(value[..3]), value[4..])
        else (declared, value);
      if ports == "" then
        OneService(if protocol.Some? then protocol.value else ANY_PROTOCOL, Universe(PORT_MAX))
      else OneService(if protocol.Some? then protocol.value else 6, ReadPorts(rd, ports))
  }

  function LiteralAt(rd: Reader, token: string, separator: char): Option<Option<ServiceSet>> {
    var halves := Partition(token, separator);
    if halves.Some? && ProtocolNumber(halves.value.0).Some? then
      var ports := ReadPorts(rd, halves.value.1);
      Some(if ports.IsEmpty() then None else Some(OneService(ProtocolNumber(halves.value.0).value, ports)))
    else None
  }

  /** A literal such as `tcp/443`: the first separator that follows a protocol decides. */
  function ServiceFromLiteral(rd: Reader, name: string): Option<ServiceSet> {
    var token := Lower(Strip(name));
    if LiteralAt(rd, token, '/').Some? then LiteralAt(rd, token, '/').value
    else if LiteralAt(rd, token, '-').Some? then LiteralAt(rd, token, '-').value
    else if LiteralAt(rd, token, ':').Some? then LiteralAt(rd, token, ':').value
    else if ProtocolNumber(token).Some? then Some(OneService(ProtocolNumber(token).value, Universe(PORT_MAX)))
    else None
  }

  lemma NamedNumber(name: string)
    ensures ProtocolNumber(name).Some? ==> NamedProtocol(ProtocolNumber(name).value)
  {
  }

  lemma OneServiceWellFormed(protocol: int, ports: IntervalSet)
    requires ports.Ints() <= Range(0, PORT_MAX)
    requires NamedProtocol(protocol) || (protocol == ANY_PROTOCOL && ports == Universe(PORT_MAX))
    ensures OneService(protocol, ports).WellFormed()
  {
    hide IntsOf, NamedProtocol, Canonical, BucketsOf, SizeOf, Universe;
  }

  /** Whatever the text says, a service object reads as ANY or as named, non-empty ports. */
  lemma ObjectWellFormed(rd: Reader, obj: ServiceObject)
    requires rd.Sound()
    ensures ServiceFromObject(rd, obj).WellFormed()
  {
    hide IntsOf, ServiceSet.WellFormed, OneService, NamedProtocol, Universe, ProtocolNumber;
    forall name { NamedNumber(name); }
    forall protocol, ports: IntervalSet
      | ports.Ints() <= Range(0, PORT_MAX) && (NamedProtocol(protocol) || (protocol == ANY_PROTOCOL &&
          ports == Universe(PORT_MAX)))
      ensures OneService(protocol, ports).WellFormed()
    {
      OneServiceWellFormed(protocol, ports);
    }
    TcpIsNamed();
    AnyIsWellFormed();
  }

  lemma TcpIsNamed()
    ensures NamedProtocol(6)
  {
  }

  lemma AnyIsWellFormed()
    ensures AnyService().WellFormed() && AnyService() == OneService(ANY_PROTOCOL, Universe(PORT_MAX))
  {
  }

  lemma LiteralWellFormed(rd: Reader, name: string)
    requires rd.Sound()
    ensures ServiceFromLiteral(rd, name).Some? ==> ServiceFromLiteral(rd, name).value.WellFormed()
  {
    hide IntsOf, ServiceSet.WellFormed, OneService, NamedProtocol, Universe, ProtocolNumber;
    forall name { NamedNumber(name); }
    forall protocol, ports: IntervalSet | ports.Ints() <= Range(0, PORT_MAX) && NamedProtocol(protocol)
      ensures OneService(protocol, ports).WellFormed()
    {
      OneServiceWellFormed(protocol, ports);
    }
  }

  // ---------------------------------------------- what the written shapes mean

  /** The protocols by name, and no others. */
  lemma ProtocolsByName(name: string, number: int)
    ensures ProtocolNumber(name) == Some(number) <==> (name, number) in {
      ("icmp", 1), ("igmp", 2), ("tcp", 6), ("udp", 17), ("gre", 47), ("esp", 50), ("ah", 51),
      ("icmpv6", 58), ("sctp", 132)}
  {
  }

  /** The ports an expression stands for: all of them if it is blank or says so, and
      otherwise those the reader finds in it. */
  ghost predicate PortIn(rd: Reader, ports: string, port: int) {
    if Lower(Strip(ports)) in {"", "any", "all", "*", "0-65535"} then 0 <= port <= PORT_MAX
    else port in rd.ports(ports).Ints()
  }

  lemma {:induction false} SplitAtFirst(head: string, separator: char, tail: string)
    requires separator !in head
    ensures Partition(head + [separator] + tail, separator) == Some((head, tail))
  {
    var s := head + [separator] + tail;
    if head == [] {
      assert s[1..] == tail;
    } else {
      SplitAtFirst(head[1..], separator, tail);
      assert s[1..] == head[1..] + [separator] + tail;
      assert [head[0]] + head[1..] == head;
    }
  }

  lemma {:induction false} NoSeparator(s: string, separator: char)
    requires separator !in s
    ensures Partition(s, separator).None?
  {
    if s != [] { NoSeparator(s[1..], separator); }
  }

  lemma OneServes(rd: Reader, number: int, ports: string, protocol: int, port: int)
    requires number != ANY_PROTOCOL
    ensures OneService(number, ReadPorts(rd, ports)).Serves(protocol, port) <==>
      protocol == number && PortIn(rd, ports, port)
    ensures OneService(number, Universe(PORT_MAX)).Serves(protocol, port) <==>
      protocol == number && 0 <= port <= PORT_MAX
  {
    hide IntsOf, Canonical, BucketsOf, SizeOf;
    NonEmptyInts(ReadPorts(rd, ports).intervals);
  }

  lemma BlankIsAllPorts(rd: Reader, port: int)
    ensures PortIn(rd, "", port) <==> 0 <= port <= PORT_MAX
  {
  }

  /** `tcp/443`: the protocol before the slash, whatever the declared type. */
  lemma SlashedObject(rd: Reader, obj: ServiceObject, head: string, tail: string, number: int, protocol: int, port: int)
    requires Lower(Strip(obj.value)) == head + ['/'] + tail && '/' !in head && ProtocolNumber(head) == Some(number)
    ensures ServiceFromObject(rd, obj).Serves(protocol, port) <==> protocol == number && PortIn(rd, tail, port)
  {
    hide ServiceSet.Serves, OneService, ReadPorts, ProtocolNumber, Partition, PortIn, Strip, Lower, IntsOf;
    var value := head + ['/'] + tail;
    SplitAtFirst(head, '/', tail);
    assert value[|head|] == '/';
    assert "any"[0] == 'a' && "any"[1] == 'n' && "any"[2] == 'y';
    assert "all"[0] == 'a' && "all"[1] == 'l' && "all"[2] == 'l';
    NamedNumber(head);
    NumberIsNotAny(number);
    OneServes(rd, number, tail, protocol, port);
    BlankIsAllPorts(rd, port);
  }

  lemma NumberIsNotAny(number: int)
    ensures NamedProtocol(number) ==> number != ANY_PROTOCOL
  {
  }

  /** `tcp-8080` and `udp-53`, if there is no slash. */
  lemma DashedObject(rd: Reader, obj: ServiceObject, ports: string, udp: bool, protocol: int, port: int)
    requires Lower(Strip(obj.value)) == (if udp then "udp-" else "tcp-") + ports && '/' !in ports
    ensures ServiceFromObject(rd, obj).Serves(protocol, port) <==>
      protocol == (if udp then 17 else 6) && PortIn(rd, ports, port)
  {
    hide ServiceSet.Serves, OneService, ReadPorts, Partition, PortIn, Strip, Lower, IntsOf;
    var value := (if udp then "udp-" else "tcp-") + ports;
    assert value[..3] == (if udp then "udp" else "tcp") && value[4..] == ports;
    assert value[3] == '-';
    NoSeparator(value, '/');
    OneServes(rd, if udp then 17 else 6, ports, protocol, port);
    BlankIsAllPorts(rd, port);
  }

  /** A bare port expression goes with the declared protocol, or TCP if none is declared. */
  lemma BareObject(rd: Reader, obj: ServiceObject, protocol: int, port: int)
    requires var value := Lower(Strip(obj.value));
      '/' !in value && !("tcp-" <= value) && !("udp-" <= value) && value != "any" && value != "all"
    ensures var value, declared := Lower(Strip(obj.value)), ProtocolNumber(Lower(Strip(obj.kind)));
      var s := ServiceFromObject(rd, obj);
      && (declared.Some? ==> (s.Serves(protocol, port) <==> protocol == declared.value && PortIn(rd, value, port)))
      && (declared.None? && value != "" ==> (s.Serves(protocol, port) <==> protocol == 6 && PortIn(rd, value, port)))
      && (declared.None? && value == "" ==> s == AnyService())
  {
    hide ServiceSet.Serves, OneService, ReadPorts, ProtocolNumber, Partition, PortIn, Strip, Lower, IntsOf;
    var value, declared := Lower(Strip(obj.value)), ProtocolNumber(Lower(Strip(obj.kind)));
    NoSeparator(value, '/');
    BlankIsAllPorts(rd, port);
    AnyIsWellFormed();
    if declared.Some? {
      NamedNumber(Lower(Strip(obj.kind)));
      NumberIsNotAny(declared.value);
      OneServes(rd, declared.value, value, protocol, port);
    } else {
      OneServes(rd, 6, value, protocol, port);
    }
  }

  lemma AnyObject(rd: Reader, obj: ServiceObject)
    requires Lower(Strip(obj.value)) == "any" || Lower(Strip(obj.value)) == "all"
    ensures ServiceFromObject(rd, obj) == AnyService()
  {
  }

  /** `tcp/443`, `tcp-443` and `tcp:443` written in a rule, unless no port can be read in it;
      a separator counts only where no earlier kind occurs. */
  lemma SeparatedLiteral(rd: Reader, name: string, head: string, separator: char, tail: string, number: int,
      protocol: int, port: int)
    requires Lower(Strip(name)) == head + [separator] + tail && ProtocolNumber(head) == Some(number)
    requires separator !in head && (separator == '/' || separator == '-' || separator == ':')
    requires separator != '/' ==> '/' !in head + tail
    requires separator == ':' ==> '-' !in head + tail
    ensures var s := ServiceFromLiteral(rd, name);
      && (s.Some? <==> exists n :: PortIn(rd, tail, n))
      && (s.Some? ==> (s.value.Serves(protocol, port) <==> protocol == number && PortIn(rd, tail, port)))
  {
    hide ServiceSet.Serves, OneService, ReadPorts, ProtocolNumber, Partition, PortIn, Strip, Lower, IntsOf;
    var token := head + [separator] + tail;
    SplitAtFirst(head, separator, tail);
    if separator != '/' { NoSeparator(token, '/'); }
    if separator == ':' { NoSeparator(token, '-'); }
    NamedNumber(head);
    NumberIsNotAny(number);
    OneServes(rd, number, tail, protocol, port);
    PortsAreIn(rd, tail);
    assert LiteralAt(rd, token, separator).Some?;
  }

  lemma PortsAreIn(rd: Reader, ports: string)
    ensures !ReadPorts(rd, ports).IsEmpty() <==> exists n :: PortIn(rd, ports, n)
  {
    hide IntsOf, Canonical, BucketsOf, SizeOf, Strip, Lower;
    NonEmptyInts(ReadPorts(rd, ports).intervals);
    if BlankPorts(ports) {
      assert PortIn(rd, ports, 0);
    } else if !ReadPorts(rd, ports).IsEmpty() {
      assert PortIn(rd, ports, Pick(rd.ports(ports).Ints()));
    }
  }

  /** A protocol alone means all its ports; anything else is no literal. */
  lemma BareLiteral(rd: Reader, name: string, protocol: int, port: int)
    requires var token := Lower(Strip(name)); '/' !in token && '-' !in token && ':' !in token
    ensures var number, s := ProtocolNumber(Lower(Strip(name))), ServiceFromLiteral(rd, name);
      && (s.Some? <==> number.Some?)
      && (s.Some? ==> (s.value.Serves(protocol, port) <==> protocol == number.value && 0 <= port <= PORT_MAX))
  {
    hide ServiceSet.Serves, OneService, ReadPorts, ProtocolNumber, Partition, Strip, Lower, IntsOf;
    var token := Lower(Strip(name));
    NoSeparator(token, '/');
    NoSeparator(token, '-');
    NoSeparator(token, ':');
    if ProtocolNumber(token).Some? {
      NamedNumber(token);
      NumberIsNotAny(ProtocolNumber(token).value);
      OneServes(rd, ProtocolNumber(token).value, "", protocol, port);
    }
  }
}
