# NetSecOps decision core, modelled and proved

This project models the parts of NetSecOps whose answers an operator acts on, and proves what those
answers mean. Its centre is the firewall rulebase engine: canonical interval sets, the memoising
expander of nested object groups, and the three decision procedures built on them (pairwise
relationship analysis, the one-packet query, and the address-range query). Around it stand seven
smaller cores: CIDR scope subtraction, the host pacer, the sliding-window rate limiter, the
read-only command allow-list, the CEF formatter, the ICMP checksum and the paged rulebase read.

Loops, caches and counters of the source are methods and classes here, each proved equal to a
specification function or to the property itself; the laws are lemmas about those functions.

- `Common`: options, results, ASCII text helpers.
- `Intervals`: `IntervalSet` and its operations. `Ints` is the set of integers a value stands for and
  `Of` its inverse.
- `Model`, `Packets`: services, addresses, rules; what the coverage test and the filters say about packets.
- `Catalogue`, `Resolver`, `ResolverLaws`, `Rulebase`: object groups, the memo tables, what expansion
  promises, and resolved rulebases.
- `Query`, `RangeQuery`, `Analysis`, `Removal`, `Assessment`: the decision procedures and the theorems
  that relate them to one another.
- `Scopes`, `Pacing`, `RateLimit`, `ReadOnly`, `Cef`, `Transport`, `Paging`: the smaller cores.

## What the proofs found

- `AddressSet.is_any` is true when either family is full, so a list that names all of IPv4 alone
  resolves to all of IPv6 too, and a negated list then loses the IPv6 it should keep
  (`ResolverLaws.FullFamilyWidens`).
- `AddressSet.intersects` tests the families separately, so a rule with only IPv4 sources and only IPv6
  destinations passes every filter, and covers itself, while matching no packet
  (`Packets.MixedFamiliesFoolTheFilters`). `Packets.FiltersExact` says which pairs are let through in vain.
- `_covers` asks for addresses no packet uses: a rule from `any` to IPv4 addresses is not found covered
  by the same rule from all of IPv4 (`Packets.AnySourceEscapesCoverage`). It keeps its promise against
  every other rule exactly for rules that can match and have each family on both sides or on neither
  (`Packets.CoverAlwaysExact`).
- Past `MAX_GROUP_DEPTH` the memo keeps truncated groups, so answers depend on the order of lookups
  (`ResolverLaws.DeepGroupsAreTruncated`, with `ResolverLaws.ChainExists` for the catalogue). With
  acyclic groups within the limit they do not.
- `group_members` looks at address groups before service groups, so for a name that is both
  `_nesting_depth` measures the wrong members and can miss a cycle (`ResolverLaws.SharedNameHidesCycle`).
  Taken without the address groups it is the exact measure for services
  (`ResolverLaws.TameServicesExact`), on which the service laws rest.
- A rule with an unreadable side can be reported shadowed, because the part that was read is covered,
  and still decide packets (`Analysis.ShadowedMayWin`; exactly when, `Analysis.UnreadShadowedExact`). A
  shadowed rule is dead under every meaning of the unreadable names when it and its cause are both
  readable (`Analysis.ShadowedCanWinExact`).
- A redundant rule whose cause is below it cannot always go (`Removal.DeletionOpens`), and the answers of
  the query alone do not tell: an unreadable rule in between may take over what was surely denied
  (`Removal.UnreadRuleBetween`). For a readable redundant rule `Removal.RemovalExact` says exactly when
  it can, counting unreadable rules, in any rulebase; `Removal.RemovalAdviceExact` says when a check of
  pairs of rules decides it, and `Removal.DeletionExact` covers the deletion of any rule at all.
- Over a range with a MIXED verdict, a rule listed as undecidable need not leave anything open, since a
  splitter above it may hold all it could touch (`RangeQuery.SplitterHidesUnread`);
  `RangeQuery.RangeUndecidableExact` has the exact condition.
- The comment on `_signature_for` says a port set sets every bit. The code sets bucket 0 only, which is
  equally sound; the model follows the code.
- An allow-list entry whose first token is optional can never match a command
  (`ReadOnly.OptionalFirstMatchesNothing`); every other entry matches exactly what its tokens say
  (`ReadOnly.MeaningPreservedExactly`).
- CEF headers are escaped but not folded, so a line end in a title or signature id ends the record there
  (`Cef.RecordIsOneLine`).
- For IPv6 the size of a scope is one less, for every network wider than a /127, than the number of
  addresses it yields (`Scopes.SizeIsHostCount`).

## Model

| member | source | states |
|---|---|---|
| `Intervals.SignatureFor` | backend/netsecops/firewall/intervals.py:243-264 | the loop sets exactly the touched buckets, or every bucket once an interval passes 32 bits |
| `Intervals.SignatureNeverMisses` | backend/netsecops/firewall/intervals.py:246-249 | two sets with a common integer always have a common signature bit, whatever their size |
| `Intervals.SizeIsCardinality` | backend/netsecops/firewall/intervals.py:45-48 | the stored size is the number of integers in the set |
| `Intervals.Extensional` | backend/netsecops/firewall/intervals.py:70-72 | two canonical interval lists holding the same integers are the same list |
| `Intervals.EqualIffSameInts` | backend/netsecops/firewall/intervals.py:109-110 | equality of interval sets is equality of the sets of integers, both ways |
| `Intervals.OfInts` | backend/netsecops/firewall/intervals.py:36-48 | canonical form is a bijection with finite sets of integers |
| `Intervals.FromPairs` | backend/netsecops/firewall/intervals.py:60-82 | arbitrary pairs normalise to a canonical set of exactly the integers some pair spans |
| `Intervals.MergeSorted` | backend/netsecops/firewall/intervals.py:63-81 | the merging walk yields sorted, disjoint, non-adjacent intervals and loses no integer |
| `Intervals.Intersects` | backend/netsecops/firewall/intervals.py:120-144 | true exactly when a common integer exists, although the signature may reject first |
| `Intervals.ContainsSet` | backend/netsecops/firewall/intervals.py:146-165 | true exactly when the other set is a subset, although the size comparison may reject first |
| `Intervals.Intersection` | backend/netsecops/firewall/intervals.py:167-187 | the result is canonical and holds exactly the common integers |
| `Intervals.Union` | backend/netsecops/firewall/intervals.py:189-194 | the result is canonical and holds exactly the integers of either set |
| `Intervals.Complement` | backend/netsecops/firewall/intervals.py:196-226 | the result is canonical without normalising and holds exactly the rest of the universe |
| `Intervals.CoversValue` | backend/netsecops/firewall/intervals.py:228-240 | binary search decides membership |
| `Intervals.DoubleComplement` | backend/netsecops/firewall/intervals.py:196-226 | complementing twice keeps the part inside the universe, and is the identity exactly on sets inside it |
| `Intervals.DeMorgan` | backend/netsecops/firewall/intervals.py:167-226 | both De Morgan laws between complement, union and intersection |
| `Model.ServicesIntersect` | backend/netsecops/firewall/model.py:78-93 | the loop over the smaller map decides overlap of two service sets |
| `Model.ServicesContain` | backend/netsecops/firewall/model.py:95-108 | the loop decides inclusion of service sets |
| `Model.OverlapIsSharedService` | backend/netsecops/firewall/model.py:78-93 | on resolved sets, overlap holds exactly when some real protocol and port is served by both |
| `Model.IncludeIsSubservice` | backend/netsecops/firewall/model.py:95-108 | on resolved sets, inclusion holds exactly when everything the other serves is served |
| `Model.AddressesIntersect` | backend/netsecops/firewall/model.py:155-156 | true exactly when some family overlaps |
| `Model.AddressesContain` | backend/netsecops/firewall/model.py:158-159 | true exactly when both families are included |
| `Model.AddressUnion` | backend/netsecops/firewall/model.py:161-162 | the canonical union, family by family |
| `Model.Negate` | backend/netsecops/firewall/model.py:164-174 | the complement of each family in its own address space |
| `Model.NegatedTwice` | backend/netsecops/firewall/model.py:164-174 | negation is an involution exactly on sets inside both address spaces |
| `Packets.TestCovers` | backend/netsecops/firewall/analysis.py:260-268 | the chain of containment tests decides the coverage relation |
| `Packets.TestFilters` | backend/netsecops/firewall/analysis.py:401-417 | the chain of filters decides the filter relation |
| `Packets.CoverSound` | backend/netsecops/firewall/analysis.py:260-268 | a covering rule matches every packet the covered rule matches, identity included |
| `Packets.AllMatchedExact` | backend/netsecops/firewall/analysis.py:260-268 | every packet of a rule is a packet of another exactly when it has none, or zones, identity, services and the addresses of each family it has on both sides are included |
| `Packets.CoverExact` | backend/netsecops/firewall/analysis.py:260-268 | for a pair of rules: the test agrees with its promise exactly when the addresses of a family on one side only are included too, once the rest is; for a rule without packets, when it succeeds |
| `Packets.CoverAlwaysExact` | backend/netsecops/firewall/analysis.py:260-268 | for one rule: the test keeps its promise against every other rule exactly when the rule can match and has each family on both sides or on neither |
| `Packets.AnySourceEscapesCoverage` | backend/netsecops/firewall/analysis.py:260-268 | for a rule from `any` to IPv4 the promise fails: a rule from all of IPv4 matches all its packets and does not pass the test |
| `Packets.SharedPacketExact` | backend/netsecops/firewall/analysis.py:401-417 | exactly which pairs of rules share a packet |
| `Packets.FiltersExact` | backend/netsecops/firewall/analysis.py:401-417 | two rules share a packet exactly when the filters pass and both sides overlap in one family; if either rule is of one family the filters alone decide it |
| `Packets.FiltersKeepCovered` | backend/netsecops/firewall/analysis.py:401-421 | the filters never drop a pair the coverage test would accept, unless the covered rule is empty |
| `Packets.MixedFamiliesFoolTheFilters` | backend/netsecops/firewall/model.py:155-156 | a rule with different families on its two sides passes the filters yet shares no packet |
| `Catalogue.TableExact` | backend/netsecops/firewall/model.py:370-381 | a table holds exactly the names defined and not blank, each as last defined |
| `Catalogue.ReadCatalogue` | backend/netsecops/firewall/model.py:370-381 | the four tables are read from the four lists by that rule |
| `Catalogue.SeenIsIrrelevant` | backend/netsecops/firewall/hygiene.py:75-82 | without cycles the path already walked does not change the nesting depth |
| `Catalogue.MemberIsShallower` | backend/netsecops/firewall/hygiene.py:75-82 | in an acyclic catalogue a member nests strictly less deeply than its group |
| `Catalogue.ObjectWellFormed` | backend/netsecops/firewall/model.py:600-626 | whatever its text, a service object reads as ANY alone or as named, non-empty, in-range ports |
| `Catalogue.LiteralWellFormed` | backend/netsecops/firewall/model.py:629-638 | the same for an inline service literal |
| `Catalogue.ProtocolsByName` | backend/netsecops/firewall/model.py:600-638 | the protocols that can be named, and their numbers |
| `Catalogue.SlashedObject` | backend/netsecops/firewall/model.py:614-617 | `tcp/443` serves the ports after the slash of the protocol before it |
| `Catalogue.DashedObject` | backend/netsecops/firewall/model.py:618-619 | `tcp-8080` and `udp-53` likewise, without a slash |
| `Catalogue.BareObject` | backend/netsecops/firewall/model.py:611-626 | bare ports go with the declared protocol, or TCP; nothing at all means that protocol whole, or everything |
| `Catalogue.AnyObject` | backend/netsecops/firewall/model.py:608-609 | `any` and `all` serve everything |
| `Catalogue.SeparatedLiteral` | backend/netsecops/firewall/model.py:629-635 | a literal such as `tcp/443`, `tcp-443` or `tcp:443` serves just those ports, and is no literal if none can be read |
| `Catalogue.BareLiteral` | backend/netsecops/firewall/model.py:636-638 | a protocol alone serves all its ports; no other word is a literal |
| `Resolver.ObjectResolver.constructor` | backend/netsecops/firewall/model.py:383-391 | a new resolver remembers nothing |
| `Resolver.ObjectResolver.NoteExternal` | backend/netsecops/firewall/model.py:393-399 | records the name as unresolved and as external, and nothing else |
| `Resolver.ObjectResolver.ResolveAddress` | backend/netsecops/firewall/model.py:420-494 | the whole new state and the answer are those of the lookup function, on every catalogue; it terminates on cyclic ones |
| `Resolver.ObjectResolver.ResolveService` | backend/netsecops/firewall/model.py:515-575 | the same for services, including the early exit at ANY |
| `Resolver.ObjectResolver.ResolveAddresses` | backend/netsecops/firewall/model.py:403-418 | the new state, the set and the missing names of a list, with the early answer for `any` |
| `Resolver.ObjectResolver.ResolveServices` | backend/netsecops/firewall/model.py:498-513 | the same for a list of services |
| `ResolverLaws.FuelIsIrrelevant` | backend/netsecops/firewall/model.py:420-423 | in an acyclic catalogue the depth limit plays no part above the nesting depth |
| `ResolverLaws.PlainNameMeans` | backend/netsecops/firewall/model.py:431-461 | a name that is no group is everything, a literal, the value of its object, or nothing known, the first that applies |
| `ResolverLaws.GroupIsUnionOfMembers` | backend/netsecops/firewall/model.py:463-488 | a group is exactly the union of its readable members, and unreadable exactly when it is kept elsewhere or has members of which none can be read |
| `ResolverLaws.LookupIsExpansion` | backend/netsecops/firewall/model.py:420-494 | memoisation is transparent: whatever was resolved before, a lookup returns the plain recursive expansion |
| `ResolverLaws.ServiceLookupIsExpansion` | backend/netsecops/firewall/model.py:515-575 | the service memo is transparent too, under any rank of the service groups within the depth limit |
| `ResolverLaws.PlainServiceMeans` | backend/netsecops/firewall/model.py:526-573 | a service name that is no group is everything, its object, a literal, or nothing known |
| `ResolverLaws.ServiceGroupIsUnionOfMembers` | backend/netsecops/firewall/model.py:549-567 | a service group is ANY once a readable member is, and otherwise exactly what its readable members serve |
| `ResolverLaws.TameServicesExact` | backend/netsecops/firewall/hygiene.py:75-82 | such a rank exists exactly when the nesting depth, taken with no address groups, is that of an acyclic catalogue within the limit |
| `ResolverLaws.SeparateGroupsTame` | backend/netsecops/firewall/model.py:587-589 | the depth as it is suffices when no name is both an address and a service group |
| `ResolverLaws.SharedNameHidesCycle` | backend/netsecops/firewall/model.py:587-589 | with one name for both, the depth sees no nesting although the service group holds itself |
| `ResolverLaws.DeepGroupsAreTruncated` | backend/netsecops/firewall/model.py:420-423 | past the depth limit the memo answers with a truncated group that a fresh lookup would not give |
| `ResolverLaws.ChainExists` | backend/netsecops/firewall/model.py:420-423 | a catalogue and a reader for which that happens |
| `ResolverLaws.ListIsUnion` | backend/netsecops/firewall/model.py:403-418 | a list is exactly the union of its readable names, or every address once one of them is `any`, and reports missing exactly the unreadable names before that, in order |
| `ResolverLaws.ListNeverNarrows` | backend/netsecops/firewall/model.py:403-418 | a resolved list includes every readable name |
| `ResolverLaws.FullFamilyWidens` | backend/netsecops/firewall/model.py:147-149 | a list naming all of IPv4 alone also holds IPv6, which its negation then loses |
| `ResolverLaws.ServicesStayWellFormed` | backend/netsecops/firewall/model.py:515-575 | every service returned or remembered is well formed, on every catalogue |
| `ResolverLaws.ListServicesWellFormed` | backend/netsecops/firewall/model.py:498-513 | so is every resolved list of services |
| `ResolverLaws.ServiceListIsUnion` | backend/netsecops/firewall/model.py:498-513 | on a catalogue whose service groups nest sanely by that measure, a list of services is ANY once a readable name is, otherwise serves exactly what some readable name serves, and reports missing exactly the unreadable names before that |
| `ResolverLaws.LookupTakesNotes` | backend/netsecops/firewall/model.py:393-494 | on every catalogue nothing noted is forgotten, a refused name is noted, one kept elsewhere as such, and a name looked up counts as referenced |
| `ResolverLaws.ServiceTakesNotes` | backend/netsecops/firewall/model.py:515-575 | the same for services |
| `ResolverLaws.MissingIsNoted` | backend/netsecops/firewall/model.py:403-418 | every name a list reports missing is noted |
| `ResolverLaws.MissingServiceIsNoted` | backend/netsecops/firewall/model.py:498-513 | the same for services |
| `Rulebase.ResolveRulebase` | backend/netsecops/firewall/model.py:641-697 | the rules and the final state are those of resolving one raw rule after another |
| `Rulebase.RulesMeanWhatTheySay` | backend/netsecops/firewall/model.py:641-697 | each side holds exactly what its names say, or exactly the opposite when negated, its services are exactly those its names say, what it misses is exactly what could not be read, and all else is as written, wherever the rule stands |
| `Rulebase.RuleMatchesExact` | backend/netsecops/firewall/model.py:641-697 | a resolved rule, if enabled, matches exactly the packets its written rule says, zones, applications, users, addresses and services alike; its action, blank meaning allow, and rulebase are the written ones; it is readable exactly when no unreadable name stands ahead of one that is any |
| `Rulebase.LeftOutIsAny` | backend/netsecops/firewall/model.py:647-649 | a side or service list left out takes in everything |
| `Query.FirstMatch` | backend/netsecops/firewall/analysis.py:517-596 | the loop returns the first hit, the later hits and the open rules ahead of the answer |
| `Query.HitIsMatch` | backend/netsecops/firewall/analysis.py:557-585 | a readable enabled rule hits a query exactly when it matches some packet the query asks about, an absent zone leaving the zone open |
| `Query.ZonedHitIsMatch` | backend/netsecops/firewall/analysis.py:557-585 | between named zones, exactly when it matches the packet from the one to the other for some application and user |
| `Query.DisabledOrReadable` | backend/netsecops/firewall/analysis.py:557-558 | a disabled rule matches no query and a readable one leaves none open |
| `Query.AnswerExact` | backend/netsecops/firewall/analysis.py:587-596 | the match is the first rule that hits, the shadowed ones are the later rules that hit, the undecidable ones the rules left open before it, each in order |
| `Query.WinnerIsFirst` | backend/netsecops/firewall/analysis.py:534-536 | a rule is the answer exactly when it hits and none before it does |
| `Query.PossibleWinners` | backend/netsecops/firewall/analysis.py:556-596 | letting unresolved sides be any sets at all, the rules that can win are exactly the match and the undecidable rules |
| `Query.CanWinMeans` | backend/netsecops/firewall/analysis.py:556-596 | the same rule by rule: it does not miss, and nothing above it hits |
| `Query.PossiblyNoWinner` | backend/netsecops/firewall/analysis.py:556-596 | nothing may win under some choice exactly when no match is reported |
| `Query.DecidedIsCertain` | backend/netsecops/firewall/analysis.py:511-514 | an answer is decided exactly when it is the answer under every choice |
| `Query.DecidedIsTheOnlyWinner` | backend/netsecops/firewall/analysis.py:511-514 | that is, exactly when the first rule to match is the same under every choice |
| `RangeQuery.TestReach` | backend/netsecops/firewall/analysis.py:674-724 | how one rule relates to the rectangle: misses, unreadable, decides or splits it |
| `RangeQuery.FirstMatchOverRange` | backend/netsecops/firewall/analysis.py:638-745 | the walk stops at the first rule holding the rectangle and reports the splitters and unreadable rules before it |
| `RangeQuery.ReachIsStates` | backend/netsecops/firewall/analysis.py:674-724 | what each relation means for the single packets of the rectangle |
| `RangeQuery.RangeVerdictExact` | backend/netsecops/firewall/analysis.py:638-745 | a rule is named exactly when it wins every packet; ALLOWED exactly when the action of such a rule is allow, permit or accept, BLOCKED when it is another; NO_MATCH exactly when nothing is won, MIXED exactly when the winner is not constant |
| `RangeQuery.RangeReportExact` | backend/netsecops/firewall/analysis.py:699-731 | the splitters are the rules that hit some packets and not all, the undecidable ones those left open for some, up to the first rule that hits all; splitters are listed exactly under MIXED |
| `RangeQuery.RangeUndecidableExact` | backend/netsecops/firewall/analysis.py:699-701 | for every verdict, a rule leaves some packet open exactly when it is reported and may touch a packet that no splitter above it holds |
| `RangeQuery.SplitterHidesUnread` | backend/netsecops/firewall/analysis.py:699-724 | under MIXED a reported rule may leave nothing open: a splitter above it takes every packet it could touch |
| `RangeQuery.RangeDecidedExact` | backend/netsecops/firewall/analysis.py:628-635 | the winner of every packet is the same under every choice exactly when no reported rule may touch an unclaimed packet; outside MIXED, exactly when nothing is reported, and it is then the rule named |
| `Analysis.ClassifyPair` | backend/netsecops/firewall/analysis.py:383-446 | the branches decide the relationship of one ordered pair |
| `Analysis.ClassifyExact` | backend/netsecops/firewall/analysis.py:383-446 | each of the four kinds, which rule it is about, and none at all, hold exactly under conditions on rulebase, deciding action, coverage each way, actions and the closing deny |
| `Analysis.CleanupExact` | backend/netsecops/firewall/analysis.py:271-283 | the cleanup rule is the last one exactly when it refuses every service and all of some family on both sides |
| `Analysis.RedundantIsCovered` | backend/netsecops/firewall/analysis.py:425-440 | of a redundant pair the cause covers the subject with the same action, whichever is above |
| `Analysis.Analyse` | backend/netsecops/firewall/analysis.py:346-469 | totals count everything the scan finds per kind, the list is its first part, and truncation is flagged exactly when something is left out |
| `Analysis.FoundExact` | backend/netsecops/firewall/analysis.py:369-469 | a relationship is found exactly when it holds of its pair and no rule further up shadows the later one |
| `Analysis.FoundInOrder` | backend/netsecops/firewall/analysis.py:369-381 | findings come by later and then by earlier rule, no pair twice |
| `Analysis.CountIsNumber` | backend/netsecops/firewall/analysis.py:448-451 | so each total is the number of findings of its kind |
| `Analysis.ListIsFirstPart` | backend/netsecops/firewall/analysis.py:453-463 | the list is the first part up to the limit, flagged exactly when something is missing |
| `Analysis.AllAreActive` | backend/netsecops/firewall/analysis.py:360-360 | with disabled rules included the list is the whole rulebase |
| `Analysis.ShadowedPairExact` | backend/netsecops/firewall/analysis.py:401-428 | a pair is classified as shadowing exactly by the pairwise definition; no filter hides one |
| `Analysis.ShadowedTotalExact` | backend/netsecops/firewall/analysis.py:448-469 | the shadowed total is the number of rules that some earlier deciding rule of the rulebase covers with another action, each once |
| `Analysis.CoveringRuleHits` | backend/netsecops/firewall/analysis.py:260-268 | a readable covering rule hits every query the covered rule hits, zoned or not |
| `Analysis.ShadowedNeverWins` | backend/netsecops/firewall/analysis.py:427-428 | a rule shadowed by a readable enabled rule is never the answer to a query |
| `Analysis.ShadowedCanWinExact` | backend/netsecops/firewall/analysis.py:427-428 | and if it is readable itself it can win under no choice for the unreadable sides; otherwise exactly when the query leaves it open |
| `Analysis.ShadowedMayWin` | backend/netsecops/firewall/analysis.py:427-428 | a rule with an unreadable side is reported shadowed by a readable one although it may decide a packet |
| `Analysis.UnreadShadowedExact` | backend/netsecops/firewall/analysis.py:260-268 | for the two rules alone, exactly when it may: its read sides hold something, and on an unread side the other rule leaves room |
| `Analysis.ActiveKeepsWinner` | backend/netsecops/firewall/analysis.py:360-360 | dropping disabled rules first does not change the winner |
| `Assessment.ResolvedServicesWellFormed` | backend/netsecops/firewall/model.py:641-697 | every resolved rulebase meets the precondition of the analysis theorems |
| `Assessment.ShadowingReportSound` | backend/netsecops/firewall/analysis.py:346-469 | over a resolved rulebase no listed shadowed rule with a readable cause is ever the answer, none that is readable itself can win at all, and the total is exact however short the list |
| `Assessment.RedundancyReportSound` | backend/netsecops/firewall/analysis.py:425-440 | over a resolved rulebase, deleting a listed redundant rule whose readable cause is above it keeps every answer; with the cause below, every action exactly when no heir in between has another |
| `Removal.OtherWinnersStay` | backend/netsecops/firewall/analysis.py:556-596 | deleting a rule changes no packet it did not decide |
| `Removal.RemoveBelowCause` | backend/netsecops/firewall/analysis.py:427-428 | deleting a redundant rule whose cause is above it keeps the winner of every packet, and every other rule can win as before |
| `Removal.DeletionExact` | backend/netsecops/firewall/analysis.py:556-596 | for any rule of any rulebase, deletion keeps every action under every choice for the unread sides exactly when some other rule surely matches each packet it may decide, and each rule that may be next has its action |
| `Removal.AnswersKeptExact` | backend/netsecops/firewall/analysis.py:556-596 | the same for the reported answers alone |
| `Removal.OverlapIsCommonPacket` | backend/netsecops/firewall/analysis.py:559-585 | a readable rule may overlap another, unread sides overlapping anything, exactly when some zoned packet hits the first and is not surely missed by the second |
| `Removal.RemovalExact` | backend/netsecops/firewall/analysis.py:435-440 | for any rulebase, deleting a readable redundant rule whose cause is below it keeps every action, whatever unread sides stand for, exactly when each rule in between that may inherit a packet of it has its action |
| `Removal.RemoveAboveCause` | backend/netsecops/firewall/analysis.py:435-440 | enough for that, and for the answers: nothing in between may overlap it on IPv4 with another action |
| `Removal.RemovalAdviceExact` | backend/netsecops/firewall/analysis.py:286-295 | and needed, pair by pair, when no readable rule above overlaps it and none of its own action that overlaps it stands above one of another |
| `Removal.DeletionOpens` | backend/netsecops/firewall/analysis.py:286-295 | three rules of which the first is reported redundant, nothing else but general rules below specific ones is reported, and deleting the first lets the second permit its packets |
| `Removal.UnreadRuleBetween` | backend/netsecops/firewall/analysis.py:506-514 | three rules where deleting the redundant first changes no answer, yet a packet surely denied may then be permitted by an unread rule |
| `Scopes.NestedOrDisjoint` | backend/netsecops/discovery/scopes.py:209-222 | two overlapping CIDR blocks are nested |
| `Scopes.ExcludeExact` | backend/netsecops/discovery/scopes.py:225-231 | halving towards a block inside another leaves exactly the rest |
| `Scopes.ComputeIncluded` | backend/netsecops/discovery/scopes.py:105-126 | the nested loops compute the remaining networks |
| `Scopes.IncludedExact` | backend/netsecops/discovery/scopes.py:105-126 | an address is in scope exactly when some target holds it and no exclusion does |
| `Scopes.Covers` | backend/netsecops/discovery/scopes.py:143-146 | decides just that |
| `Scopes.Hosts` | backend/netsecops/discovery/scopes.py:133-141 | yields the hosts of every remaining network in order |
| `Scopes.BlockHostsExact` | backend/netsecops/discovery/scopes.py:133-141 | each usable address of a network is yielded once, in order: all but the first and, for IPv4, the last, unless it is a host or a pair |
| `Scopes.AllHostsExact` | backend/netsecops/discovery/scopes.py:133-141 | a run probes exactly the usable addresses of the remaining networks |
| `Scopes.OrderAscends` | backend/netsecops/discovery/scopes.py:126-126 | the remaining networks come IPv4 first, then by first address |
| `Scopes.NoHostExcluded` | backend/netsecops/discovery/scopes.py:18-22 | no address yielded lies in an exclusion, and each lies in a target |
| `Scopes.SizeIsHostCount` | backend/netsecops/discovery/scopes.py:128-141 | the size counted without enumerating is the number of addresses yielded, short by one per wide IPv6 network |
| `Scopes.V4SizeExact` | backend/netsecops/discovery/scopes.py:128-141 | for IPv4 targets it is exactly that number |
| `Scopes.BuildScope` | backend/netsecops/discovery/scopes.py:149-198 | refuses exactly an empty target list or a size over the ceiling, and otherwise bounds the addresses yielded |
| `Scopes.FlattenHolds` | backend/netsecops/discovery/scopes.py:168-174 | the blocks of all entries are taken, and no others |
| `Pacing.NewPacer` | backend/netsecops/discovery/pacing.py:84-107 | a pacer exists exactly for settings within the limits, and otherwise the refusal says which limit |
| `Pacing.HostPacer.Claim` | backend/netsecops/discovery/pacing.py:117-120 | the claimed slot and the advanced cursor |
| `Pacing.HostPacer.Acquire` | backend/netsecops/discovery/pacing.py:109-126 | a caller leaves at its slot, or at once if the slot has passed |
| `Pacing.RunIsExplained` | backend/netsecops/discovery/pacing.py:22-29 | every schedule of concurrent callers hands out slots an interval apart, and each caller leaves within its tolerance of its slot |
| `Pacing.SlotsApart` | backend/netsecops/discovery/pacing.py:26-29 | claimed slots are pairwise at least one interval apart |
| `Pacing.WindowBound` | backend/netsecops/discovery/pacing.py:98-126 | any closed window of length W sees at most burst + floor((W + lag) * rate) departures |
| `Pacing.SmoothByDefault` | backend/netsecops/discovery/pacing.py:31-34 | without burst or stall any two departures are a full interval apart |
| `Pacing.RunIsTraced` | backend/netsecops/discovery/pacing.py:109-126 | in every run each caller leaves at the slot its claim was given, or at its second reading of the clock if the slot has passed |
| `Pacing.SlotIsLatestDemand` | backend/netsecops/discovery/pacing.py:117-120 | a slot is as late as some claim so far demands and no later, so nobody waits longer than the claims before require |
| `Pacing.BurstAfterIdle` | backend/netsecops/discovery/pacing.py:98-101 | after an idle spell the next `burst` callers hold slots that have come, and go at once |
| `RateLimit.RateLimiter.Dispatch` | backend/netsecops/api/middleware.py:141-170 | the outcome and the whole new table, or no change for an unguarded path |
| `RateLimit.RateLimiter.Prune` | backend/netsecops/api/middleware.py:177-182 | exactly the expired buckets go, once there are enough of them |
| `RateLimit.BucketsAreTails` | backend/netsecops/api/middleware.py:145-170 | over every run a bucket is a tail of the admissions on its key, and what it lacks is out of the window |
| `RateLimit.WindowLimit` | backend/netsecops/api/middleware.py:145-170 | any closed interval of the window length holds at most the allowed number of admissions per key, over every run |
| `RateLimit.AdmittedExact` | backend/netsecops/api/middleware.py:145-170 | over every run, a request is admitted exactly when fewer than the allowed number on its key were within the window before it, and otherwise limited |
| `RateLimit.GuardedMeans` | backend/netsecops/api/middleware.py:142-142 | guarded paths are those that begin with a listed one |
| `RateLimit.RetryAfterExact` | backend/netsecops/api/middleware.py:152-158 | waiting the advertised time is enough, whatever other keys do, and no smaller whole number of seconds is |
| `ReadOnly.NormaliseIsWords` | backend/netsecops/adapters/readonly.py:247-249 | normalising leaves the words of a command one space apart |
| `ReadOnly.Compile` | backend/netsecops/adapters/readonly.py:133-156 | the loop builds the pieces of the entry's tokens, without leading white space |
| `ReadOnly.PiecesExact` | backend/netsecops/adapters/readonly.py:133-156 | the pieces accept the spaced words of a command exactly when the tokens match |
| `ReadOnly.CompileExact` | backend/netsecops/adapters/readonly.py:133-156 | the anchored pattern matches a normalised command exactly when entry and command match token by token |
| `ReadOnly.OptionalFirstMatchesNothing` | backend/netsecops/adapters/readonly.py:152-156 | an entry whose first token is optional matches no command |
| `ReadOnly.MeaningPreservedExactly` | backend/netsecops/adapters/readonly.py:133-156 | compiling an entry preserves its meaning on every command that is not blank exactly when its first token is not optional |
| `ReadOnly.Match` | backend/netsecops/adapters/readonly.py:221-225 | the first listed rule that permits a normalised command, or none |
| `ReadOnly.CheckCommand` | backend/netsecops/adapters/readonly.py:321-370 | each refusal and each permission, exactly when it happens |
| `ReadOnly.PermittedMeansTokens` | backend/netsecops/adapters/readonly.py:139-140 | a permitted command is its entry's tokens one by one and has no more words, so nothing rides behind a prefix |
| `ReadOnly.TokenShapes` | backend/netsecops/adapters/readonly.py:115-116 | what makes a token of an entry a placeholder or an optional word |
| `ReadOnly.NothingIsChained` | backend/netsecops/adapters/readonly.py:49-60 | a command past the first check holds none of the characters that chain, redirect or substitute |
| `ReadOnly.SafeTokensAreWords` | backend/netsecops/adapters/readonly.py:133-156 | what stands for a placeholder holds no white space, pipe, quote or other such character |
| `Cef.UnescapeEscape` | backend/netsecops/integrations/cef.py:40-57 | unescaping undoes the two-step escaping of headers and values |
| `Cef.HeaderRoundTrip` | backend/netsecops/integrations/cef.py:68-78 | splitting at unescaped pipes and unescaping recovers any list of fields |
| `Cef.FoldCommutes` | backend/netsecops/integrations/cef.py:53-54 | escaping and newline folding do not interfere |
| `Cef.FoldIsOneLine` | backend/netsecops/integrations/cef.py:54-54 | folded text is one line, and folding changes exactly the text that is not |
| `Cef.QuietValueHasNoNewline` | backend/netsecops/integrations/cef.py:14-15 | no extension value, cut or not, can end a record |
| `Cef.ValueRoundTrip` | backend/netsecops/integrations/cef.py:47-57 | a value under the limit is read back exactly up to folding |
| `Cef.ExtensionsRoundTrip` | backend/netsecops/integrations/cef.py:104-105 | taking the last token before each unescaped equals sign recovers every key in order, even after truncated values |
| `Cef.FormatEvent` | backend/netsecops/integrations/cef.py:60-105 | the record of an event, its dictionary filled step by step |
| `Cef.AttributesKeepKeys` | backend/netsecops/integrations/cef.py:97-102 | custom attributes never replace or repeat a key, and their keys are safe |
| `Cef.EventRoundTrip` | backend/netsecops/integrations/cef.py:60-105 | all seven header fields and all extension keys of any event can be read back |
| `Cef.EventFieldsRead` | backend/netsecops/integrations/cef.py:60-105 | reading a record back gives each field of the event in its place: signature id, title and severity in the header, and under its own key each value the event has |
| `Cef.AttributeIsAdded` | backend/netsecops/integrations/cef.py:97-102 | a custom attribute is written under its cleaned key unless that is empty or taken |
| `Cef.SeverityFalls` | backend/netsecops/integrations/cef.py:76-76 | the severity number falls with the severity, from 10 |
| `Cef.ValuesAreBounded` | backend/netsecops/integrations/cef.py:55-57 | no value passes the limit, and a cut one ends in the mark |
| `Cef.RecordIsOneLine` | backend/netsecops/integrations/cef.py:40-57 | a record is one line exactly when the signature id and the title are |
| `Transport.Checksum` | backend/netsecops/discovery/transport.py:169-178 | the loop and folds compute the complement of the word sum, odd lengths padded |
| `Transport.TwoFoldsSuffice` | backend/netsecops/discovery/transport.py:176-178 | below 2^32 two folds give the one's complement sum |
| `Transport.CheckPasses` | backend/netsecops/discovery/transport.py:169-178 | the check gives zero exactly for positive multiples of 65535 |
| `Transport.BuildEchoRequest` | backend/netsecops/discovery/transport.py:181-196 | the message as assembled |
| `Transport.EchoFieldsRead` | backend/netsecops/discovery/transport.py:190-196 | a receiver reads type 8, code 0, the identifier, the sequence and the payload in their places |
| `Transport.MagicIsText` | backend/netsecops/discovery/transport.py:84-84 | the payload by which a reply is recognised |
| `Transport.EchoChecksOut` | backend/netsecops/discovery/transport.py:181-196 | for every identifier, sequence and fitting payload the message checks out |
| `Transport.CorruptionShows` | backend/netsecops/discovery/transport.py:169-178 | against a message that checks out, another checks out exactly when the word sums differ by a multiple of 65535 |
| `Transport.WrongByteShows` | backend/netsecops/discovery/transport.py:169-178 | a single wrong byte is always noticed |
| `Paging.FetchAllPages` | backend/netsecops/adapters/paging.py:63-128 | the loop is the walk: its result or error, and the offsets it asked for |
| `Paging.WalkIsBounded` | backend/netsecops/adapters/paging.py:78-119 | against any server, at most the page limit of requests, at strictly increasing offsets |
| `Paging.WalkGathers` | backend/netsecops/adapters/paging.py:82-93 | a returned collection is exactly what the requests returned, in order |
| `Paging.HonestResult` | backend/netsecops/adapters/paging.py:63-128 | an honest server's list comes back exactly, and is never called stalled |
| `Paging.FullPagesFinish` | backend/netsecops/adapters/paging.py:115-119 | a list of at most the page limit of full pages never runs out of attempts |
| `Paging.HonestIsReadToTheEnd` | backend/netsecops/adapters/paging.py:63-128 | an honest, page-filling server with lists or nothing under every collection is read to the end, its list whole |
| `Paging.NotAListExact` | backend/netsecops/adapters/paging.py:82-86 | a collection is refused exactly when the first reply has something else in its place |
| `Paging.OthersFromFirstPage` | backend/netsecops/adapters/paging.py:82-86 | everything but the collections is as the first reply has it |
| `Paging.CollectionsByOperation` | backend/netsecops/adapters/paging.py:41-50 | which lists are gathered for which operation |

## Left out

- Intervals.FromPairs: bounds are non-negative, as every caller's are; a negative bound makes the source's signature shift raise.
- ResolverLaws.LookupIsExpansion: asks for an acyclic catalogue within the depth limit, because past it the claim is false (`ResolverLaws.DeepGroupsAreTruncated`).
- Pacing.WindowBound: real numbers instead of floats, and exact sleeps; `lag` bounds the stall between the two clock readings.
- RateLimit.WindowLimit: real numbers instead of floats, a clock that does not run backwards, and an allowance of at least one; with none the source reads an empty window.
- ReadOnly.CompileExact: ASCII commands; Unicode case folding and white space are not modelled.
- Analysis.Analyse: the two pair counters, the elapsed time and the load-bearing flag on redundancies.
- ReadOnly.Match: takes normalised text; on any other the source's pattern would also accept one line feed at the end.
- Paging.FetchAllPages: a truthy value that is neither a list nor a number under a collection key is an error here; Python would spell a text or a mapping out into items.
- Address and port text: `parse_address` and the digits of `parse_port_range` are given functions.
- Rule fields that decide nothing modelled here: order, name, logging, profiles, schedule, counters, comment.
- The wording of unresolved notes; each is a name and a reason.
- Rules are told apart by position, so one rule object listed twice counts as two.
- `first_match` ignores `terminates`: a MONITOR rule can be its answer although a device would carry on. The model follows the code.
- Reading scope entries from text, and ports and flags of a scope.
- The client key of a request, the response body of a refusal.
- HTTP rules of the read-only guard; the write-verb pattern is a given predicate.
- Scrubbing of events; a scrubbed event is the input, and its time comes as digits.
- Sockets, transports, databases, the API, NAT, permissiveness scores and the rest of object hygiene.
