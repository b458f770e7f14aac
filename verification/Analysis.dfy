/** Pairwise relationships between rules, in evaluation order. */
module Analysis {
  import opened Common
  import opened Intervals
  import opened Model
  import opened Packets
  import opened Query

  datatype Kind = Shadowed | Redundant | Correlated | Generalisation

  /** Positions are in the list of active rules. */
  datatype Relationship = Relationship(kind: Kind, earlier: nat, later: nat, subjectIsLater: bool) {
    function Subject(): nat { if subjectIsLater then later else earlier }
    function Cause(): nat { if subjectIsLater then earlier else later }
  }

  datatype AnalysisResult = AnalysisResult(
    rulesAnalysed: nat,
    relationships: seq<Relationship>,
    totals: map<Kind, nat>,
    truncated: bool)

  function Total(totals: map<Kind, nat>, kind: Kind): nat {
    if kind in totals then totals[kind] else 0
  }

  function Active(rules: seq<ResolvedRule>, includeDisabled: bool): seq<ResolvedRule> {
    if rules == [] then [] else
      var last := rules[|rules| - 1];
      Active(rules[..|rules| - 1], includeDisabled) + (if includeDisabled || last.enabled then [last] else [])
  }

  predicate IsCleanup(r: ResolvedRule) {
    !r.Permits() && r.source.IsAny() && r.destination.IsAny() && r.services.IsAny()
  }

  /** A closing rule that denies everything, when the active list ends in one. */
  function CleanupRule(active: seq<ResolvedRule>): Option<nat> {
    if active != [] && IsCleanup(active[|active| - 1]) then Some(|active| - 1) else None
  }

  /** The relationship of one ordered pair, or none. */
  ghost function Classify(active: seq<ResolvedRule>, e: nat, l: nat): Option<Relationship>
    requires e < l < |active|
  {
    var earlier, later := active[e], active[l];
    if earlier.rulebase != later.rulebase || !earlier.Terminates() || !PassesFilters(earlier, later) then None
    else if Covers(earlier, later) then
      Some(Relationship(if earlier.SameAction(later) then Redundant else Shadowed, e, l, true))
    else if Covers(later, earlier) then
      if earlier.SameAction(later) then Some(Relationship(Redundant, e, l, false))
      else if CleanupRule(active) == Some(l) then None
      else Some(Relationship(Generalisation, e, l, true))
    else if earlier.SameAction(later) then None
    else Some(Relationship(Correlated, e, l, true))
  }

  method ClassifyPair(active: seq<ResolvedRule>, cleanup: Option<nat>, e: nat, l: nat) returns (r: Option<Relationship>)
    requires e < l < |active| && cleanup == CleanupRule(active)
    ensures r == Classify(active, e, l)
  {
    hide PassesFilters, Covers;
    var earlier, later := active[e], active[l];
    if earlier.rulebase != later.rulebase { return None; }
    if !earlier.Terminates() { return None; }
    var passes := TestFilters(earlier, later);
    if !passes { return None; }
    var earlierCovers := TestCovers(earlier, later);
    var laterCovers := TestCovers(later, earlier);
    var sameAction := earlier.SameAction(later);
    if earlierCovers {
      return Some(Relationship(if sameAction then Redundant else Shadowed, e, l, true));
    } else if laterCovers && !sameAction {
      if cleanup == Some(l) { return None; }
      return Some(Relationship(Generalisation, e, l, true));
    } else if laterCovers {
      return Some(Relationship(Redundant, e, l, false));
    } else if sameAction {
      return None;
    }
    return Some(Relationship(Correlated, e, l, true));
  }

  /** What scanning the rules above `l` reports: it stops at the first shadowing rule. */
  ghost function Scan(active: seq<ResolvedRule>, l: nat, e: nat): (found: seq<Relationship>)
    requires e <= l < |active|
  {
    if e == 0 then []
    else
      var before := Scan(active, l, e - 1);
      if Ended(before) || Classify(active, e - 1, l).None? then before
      else before + [Classify(active, e - 1, l).value]
  }

  predicate Ended(found: seq<Relationship>) { found != [] && found[|found| - 1].kind == Shadowed }

  ghost function AllFound(active: seq<ResolvedRule>, n: nat): seq<Relationship>
    requires n <= |active|
  {
    if n == 0 then [] else AllFound(active, n - 1) + Scan(active, n - 1, n - 1)
  }

  function Count(found: seq<Relationship>, kind: Kind): nat {
    if found == [] then 0
    else Count(found[..|found| - 1], kind) + if found[|found| - 1].kind == kind then 1 else 0
  }

  function Shown(found: seq<Relationship>, limit: int): seq<Relationship> {
    if |found| <= limit then found else found[..Cap(limit)]
  }

  function Cap(limit: int): nat { if limit < 0 then 0 else limit }

  /** Counts are of everything found; the list shows the first `limit` of it. */
  ghost predicate Reports(result: AnalysisResult, found: seq<Relationship>, limit: int) {
    && result.relationships == Shown(found, limit)
    && result.truncated == (|found| > Cap(limit))
    && forall kind :: Total(result.totals, kind) == Count(found, kind)
  }

  function Record(result: AnalysisResult, r: Relationship, limit: int): AnalysisResult {
    var counted := result.(totals := result.totals[r.kind := Total(result.totals, r.kind) + 1]);
    if |result.relationships| < limit then counted.(relationships := result.relationships + [r])
    else counted.(truncated := true)
  }

  lemma RecordStep(result: AnalysisResult, found: seq<Relationship>, r: Relationship, limit: int)
    requires Reports(result, found, limit)
    ensures Reports(Record(result, r, limit), found + [r], limit)
  {
    assert (found + [r])[..|found|] == found;
  }

  method Analyse(rules: seq<ResolvedRule>, includeDisabled: bool, limit: int) returns (result: AnalysisResult)
    ensures result.rulesAnalysed == |Active(rules, includeDisabled)|
    ensures Reports(result, AllFound(Active(rules, includeDisabled), result.rulesAnalysed), limit)
  {
    hide Classify, Scan, Ended, Record, Count, Shown, Reports, Covers, PassesFilters, AllFound, Active, CleanupRule;
    var active := Active(rules, includeDisabled);
    result := AnalysisResult(|active|, [], map[], false);
    var cleanup := CleanupRule(active);
    NothingReported(active, result, limit);
    var l := 0;
    while l < |active|
      invariant l <= |active| == result.rulesAnalysed
      invariant Reports(result, AllFound(active, l), limit)
    {
      ghost var above := AllFound(active, l);
      var ended := false;
      var e := 0;
      ScanStarts(active, l, above);
      while e < l && !ended
        invariant e <= l && |active| == result.rulesAnalysed
        invariant Reports(result, above + Scan(active, l, e), limit)
        invariant ended == Ended(Scan(active, l, e))
      {
        var found := ClassifyPair(active, cleanup, e, l);
        ScanStep(active, l, e, result, above, limit);
        if found.Some? {
          result := Record(result, found.value, limit);
          ended := found.value.kind == Shadowed;
        }
        e := e + 1;
      }
      ScanStaysEnded(active, l, e, l);
      FoundStep(active, l);
      l := l + 1;
    }
  }

  lemma ScanStarts(active: seq<ResolvedRule>, l: nat, above: seq<Relationship>)
    requires l < |active|
    ensures above + Scan(active, l, 0) == above && !Ended(Scan(active, l, 0))
  {
  }

  /** What recording the next pair of a scan that has not ended leaves reported. */
  lemma ScanStep(active: seq<ResolvedRule>, l: nat, e: nat, result: AnalysisResult, above: seq<Relationship>,
      limit: int)
    requires e < l < |active| && !Ended(Scan(active, l, e)) && Reports(result, above + Scan(active, l, e), limit)
    ensures var found := Classify(active, e, l);
      if found.None? then Scan(active, l, e + 1) == Scan(active, l, e)
      else
        && Reports(Record(result, found.value, limit), above + Scan(active, l, e + 1), limit)
        && Record(result, found.value, limit).rulesAnalysed == result.rulesAnalysed
        && (Ended(Scan(active, l, e + 1)) <==> found.value.kind == Shadowed)
  {
    hide Classify, Reports;
    var found := Classify(active, e, l);
    if found.Some? {
      RecordStep(result, above + Scan(active, l, e), found.value, limit);
      assert above + Scan(active, l, e) + [found.value] == above + Scan(active, l, e + 1);
    }
  }

  lemma FoundStep(active: seq<ResolvedRule>, l: nat)
    requires l < |active|
    ensures AllFound(active, l + 1) == AllFound(active, l) + Scan(active, l, l)
  {
    hide Scan;
  }

  lemma NothingReported(active: seq<ResolvedRule>, result: AnalysisResult, limit: int)
    requires result.relationships == [] && result.totals == map[] && !result.truncated
    ensures Reports(result, AllFound(active, 0), limit)
  {
  }

  lemma {:induction false} ScanStaysEnded(active: seq<ResolvedRule>, l: nat, e: nat, k: nat)
    requires e <= k <= l < |active| && (e == k || Ended(Scan(active, l, e)))
    ensures Scan(active, l, k) == Scan(active, l, e)
  {
    hide Classify;
    if e < k { ScanStaysEnded(active, l, e, k - 1); }
  }

  // ------------------------------------------------------------------ counting

  /** The pairwise definition of shadowing. */
  ghost predicate Shadows(active: seq<ResolvedRule>, e: nat, l: nat)
    requires e < l < |active|
  {
    && active[e].rulebase == active[l].rulebase
    && active[e].Terminates()
    && !active[e].SameAction(active[l])
    && active[l].CanMatch()
    && Covers(active[e], active[l])
  }

  ghost predicate IsShadowed(active: seq<ResolvedRule>, l: nat, e: nat)
    requires e <= l < |active|
  {
    exists i :: 0 <= i < e && Shadows(active, i, l)
  }

  ghost predicate WellFormedServices(active: seq<ResolvedRule>) {
    forall i :: 0 <= i < |active| ==> active[i].services.WellFormed()
  }

  /** A pair is classified as shadowing exactly when it meets the definition: no filter
      hides one, and the filters demand that the covered rule can match. */
  lemma ShadowedPairExact(active: seq<ResolvedRule>, e: nat, l: nat)
    requires e < l < |active| && WellFormedServices(active)
    ensures (exists r :: Classify(active, e, l) == Some(r) && r.kind == Shadowed) <==> Shadows(active, e, l)
    ensures Classify(active, e, l).Some? ==>
      var r := Classify(active, e, l).value; r.earlier == e && r.later == l
  {
    hide ServiceSet.WellFormed, Covers;
    if Covers(active[e], active[l]) {
      if active[l].CanMatch() { FiltersKeepCovered(active[e], active[l]); }
      if PassesFilters(active[e], active[l]) { FiltersNeedMatch(active[e], active[l]); }
    }
    if Shadows(active, e, l) {
      assert Classify(active, e, l) == Some(Relationship(Shadowed, e, l, true));
    }
  }

  /** Every address of some family. */
  ghost predicate HoldsAFamily(a: AddressSet) {
    a.v4.Ints() == Range(0, IPV4_MAX) || a.v6.Ints() == Range(0, IPV6_MAX)
  }

  lemma IsAnyMeans(a: AddressSet)
    ensures a.IsAny() <==> HoldsAFamily(a)
  {
    hide IntsOf;
    EqualIffSameInts(a.v4, Universe(IPV4_MAX));
    EqualIffSameInts(a.v6, Universe(IPV6_MAX));
  }

  /** The last rule of the list, refusing every service between all of some family on each side. */
  ghost predicate ClosingDeny(active: seq<ResolvedRule>, l: nat)
    requires l < |active|
  {
    && l == |active| - 1 && Lower(active[l].action) !in {"allow", "permit", "accept"}
    && HoldsAFamily(active[l].source) && HoldsAFamily(active[l].destination)
    && forall protocol, port :: RealService(protocol, port) ==> active[l].services.Serves(protocol, port)
  }

  lemma CleanupExact(active: seq<ResolvedRule>, l: nat)
    requires l < |active| && active[l].services.WellFormed()
    ensures CleanupRule(active) == Some(l) <==> ClosingDeny(active, l)
  {
    hide IntsOf, ServiceSet.Serves, ServiceSet.WellFormed, HoldsAFamily, AddressSet.IsAny;
    IsAnyMeans(active[l].source);
    IsAnyMeans(active[l].destination);
    ServesMeans(active[l].services);
    assert RealService(0, 0);
  }

  /** What each relationship says of its two rules, and which of the two it is about. Only
      rules of one rulebase are compared, and only below a rule that decides. Nothing else
      is ever reported of a pair. */
  lemma ClassifyExact(active: seq<ResolvedRule>, e: nat, l: nat)
    requires e < l < |active| && WellFormedServices(active)
    ensures var (above, below, r) := (active[e], active[l], Classify(active, e, l));
      var compared := above.rulebase == below.rulebase && Lower(above.action) != "monitor";
      var same := Lower(above.action) == Lower(below.action);
      && (r == Some(Relationship(Shadowed, e, l, true)) <==>
            compared && !same && below.CanMatch() && Covers(above, below))
      && (r == Some(Relationship(Redundant, e, l, true)) <==>
            compared && same && below.CanMatch() && Covers(above, below))
      && (r == Some(Relationship(Redundant, e, l, false)) <==>
            compared && same && above.CanMatch() && Covers(below, above) && !Covers(above, below))
      && (r == Some(Relationship(Generalisation, e, l, true)) <==>
            && compared && !same && above.CanMatch() && Covers(below, above) && !Covers(above, below)
            && !ClosingDeny(active, l))
      && (r == Some(Relationship(Correlated, e, l, true)) <==>
            compared && !same && PassesFilters(above, below) && !Covers(below, above) && !Covers(above, below))
      && (r.Some? ==> r.value.earlier == e && r.value.later == l)
      && (r.Some? && r.value.kind != Redundant ==> r.value.subjectIsLater)
  {
    hide ServiceSet.WellFormed, Covers, PassesFilters, CleanupRule, ClosingDeny, ResolvedRule.CanMatch;
    var above, below := active[e], active[l];
    CleanupExact(active, l);
    if Covers(above, below) && below.CanMatch() { FiltersKeepCovered(above, below); }
    if Covers(below, above) && above.CanMatch() { FiltersKeepCovered(below, above); }
    if PassesFilters(above, below) { FiltersNeedMatch(above, below); }
  }

  /** Whichever way round, the cause of a redundancy covers its subject with its action. */
  lemma RedundantIsCovered(active: seq<ResolvedRule>, r: Relationship)
    requires WellFormedServices(active) && r.earlier < r.later < |active|
    requires Classify(active, r.earlier, r.later) == Some(r) && r.kind == Redundant
    ensures Covers(active[r.Cause()], active[r.Subject()])
    ensures Lower(active[r.Cause()].action) == Lower(active[r.Subject()].action)
    ensures {r.Cause(), r.Subject()} == {r.earlier, r.later}
  {
    hide ServiceSet.WellFormed, Covers, PassesFilters, Classify, ClosingDeny, ResolvedRule.CanMatch;
    ClassifyExact(active, r.earlier, r.later);
  }

  lemma FiltersNeedMatch(a: ResolvedRule, b: ResolvedRule)
    requires PassesFilters(a, b)
    ensures a.CanMatch() && b.CanMatch()
  {
    hide ServiceSet.WellFormed, IntsOf, AddressSet.Holds, AddressSet.Overlaps;
    var f, x := OverlapWitness(a.source, b.source);
    HoldsNonEmpty(a.source, f, x);
    HoldsNonEmpty(b.source, f, x);
    var g, y := OverlapWitness(a.destination, b.destination);
    HoldsNonEmpty(a.destination, g, y);
    HoldsNonEmpty(b.destination, g, y);
  }

  lemma {:induction false} ScanCountsOnce(active: seq<ResolvedRule>, l: nat, e: nat)
    requires e <= l < |active| && WellFormedServices(active)
    ensures Count(Scan(active, l, e), Shadowed) == if IsShadowed(active, l, e) then 1 else 0
    ensures Ended(Scan(active, l, e)) <==> IsShadowed(active, l, e)
  {
    hide Classify, Shadows, WellFormedServices;
    if e > 0 {
      ScanCountsOnce(active, l, e - 1);
      ShadowedPairExact(active, e - 1, l);
      var before := Scan(active, l, e - 1);
      var c := Classify(active, e - 1, l);
      assert IsShadowed(active, l, e) <==> IsShadowed(active, l, e - 1) || Shadows(active, e - 1, l);
      if c.Some? { assert (before + [c.value])[..|before|] == before; }
    }
  }

  lemma {:induction false} InScan(active: seq<ResolvedRule>, l: nat, e: nat, r: Relationship)
    requires e <= l < |active| && WellFormedServices(active)
    ensures r in Scan(active, l, e) <==>
      r.earlier < e && r.later == l && Classify(active, r.earlier, l) == Some(r) && !IsShadowed(active, l, r.earlier)
  {
    hide Classify, Shadows, WellFormedServices;
    if e > 0 {
      InScan(active, l, e - 1, r);
      ScanCountsOnce(active, l, e - 1);
      ShadowedPairExact(active, e - 1, l);
    }
  }

  /** The scan reports a relationship exactly when it holds of its pair and no rule above the
      earlier one already shadows the later one. */
  lemma {:induction false} FoundExact(active: seq<ResolvedRule>, n: nat, r: Relationship)
    requires n <= |active| && WellFormedServices(active)
    ensures r in AllFound(active, n) <==>
      r.earlier < r.later < n && Classify(active, r.earlier, r.later) == Some(r) &&
      !IsShadowed(active, r.later, r.earlier)
  {
    hide Classify, IsShadowed, WellFormedServices, Scan;
    if n > 0 {
      FoundExact(active, n - 1, r);
      InScan(active, n - 1, n - 1, r);
    }
  }

  /** By later rule, then by earlier rule, and no pair twice. */
  predicate InOrder(found: seq<Relationship>) {
    forall i, j :: 0 <= i < j < |found| ==>
      found[i].later < found[j].later || (found[i].later == found[j].later && found[i].earlier < found[j].earlier)
  }

  lemma {:induction false} ScanInOrder(active: seq<ResolvedRule>, l: nat, e: nat)
    requires e <= l < |active| && WellFormedServices(active)
    ensures InOrder(Scan(active, l, e))
  {
    hide Classify, WellFormedServices;
    if e > 0 {
      ScanInOrder(active, l, e - 1);
      ShadowedPairExact(active, e - 1, l);
      var before := Scan(active, l, e - 1);
      forall i | 0 <= i < |before| ensures before[i].earlier < e - 1 && before[i].later == l {
        InScan(active, l, e - 1, before[i]);
      }
    }
  }

  lemma {:induction false} FoundInOrder(active: seq<ResolvedRule>, n: nat)
    requires n <= |active| && WellFormedServices(active)
    ensures InOrder(AllFound(active, n))
  {
    hide Scan, WellFormedServices;
    if n > 0 {
      FoundInOrder(active, n - 1);
      ScanInOrder(active, n - 1, n - 1);
      var before, last := AllFound(active, n - 1), Scan(active, n - 1, n - 1);
      forall i | 0 <= i < |before| ensures before[i].later < n - 1 { FoundExact(active, n - 1, before[i]); }
      forall i | 0 <= i < |last| ensures last[i].later == n - 1 { InScan(active, n - 1, n - 1, last[i]); }
    }
  }

  ghost function OfKind(found: seq<Relationship>, kind: Kind): set<Relationship> {
    set r | r in found && r.kind == kind
  }

  lemma LastIsNew(found: seq<Relationship>)
    requires InOrder(found) && found != []
    ensures InOrder(found[..|found| - 1]) && found[|found| - 1] !in found[..|found| - 1]
  {
  }

  lemma OneMoreOfKind(found: seq<Relationship>, last: Relationship, kind: Kind)
    ensures OfKind(found + [last], kind) == OfKind(found, kind) + if last.kind == kind then {last} else {}
  {
  }

  /** So each total is the number of relationships of its kind. */
  lemma {:induction false} CountIsNumber(found: seq<Relationship>, kind: Kind)
    requires InOrder(found)
    ensures Count(found, kind) == |OfKind(found, kind)|
  {
    hide InOrder, OfKind;
    if found == [] {
      NoneOfKind(kind);
    } else {
      var before, last := found[..|found| - 1], found[|found| - 1];
      LastIsNew(found);
      CountIsNumber(before, kind);
      OneMoreOfKind(before, last, kind);
      OnlyFound(before, kind);
      assert found == before + [last];
    }
  }

  lemma NoneOfKind(kind: Kind)
    ensures OfKind([], kind) == {}
  {
  }

  lemma OnlyFound(found: seq<Relationship>, kind: Kind)
    ensures forall r :: r in OfKind(found, kind) ==> r in found
  {
  }

  /** The list is the first part of what was found, cut at the limit and nowhere else, and
      flagged exactly when something is missing. */
  lemma ListIsFirstPart(result: AnalysisResult, found: seq<Relationship>, limit: int)
    requires Reports(result, found, limit)
    ensures result.relationships <= found
    ensures |result.relationships| == if |found| <= limit then |found| else if limit < 0 then 0 else limit
    ensures result.truncated <==> result.relationships != found
  {
  }

  ghost function ShadowedRules(active: seq<ResolvedRule>, n: nat): set<nat>
    requires n <= |active|
  {
    set l | 0 <= l < n && IsShadowed(active, l, l)
  }

  lemma {:induction false} CountConcat(a: seq<Relationship>, b: seq<Relationship>, kind: Kind)
    ensures Count(a + b, kind) == Count(a, kind) + Count(b, kind)
  {
    if b == [] {
      assert a + b == a;
    } else {
      CountConcat(a, b[..|b| - 1], kind);
      assert (a + b)[..|a + b| - 1] == a + b[..|b| - 1];
    }
  }

  /** The shadowed total is the number of rules that can match and that some earlier
      deciding rule of the same rulebase covers with another action: each is counted
      once, whatever the early exit skips and whatever the list leaves out. */
  lemma {:induction false} ShadowedTotalExact(active: seq<ResolvedRule>, n: nat)
    requires n <= |active| && WellFormedServices(active)
    ensures Count(AllFound(active, n), Shadowed) == |ShadowedRules(active, n)|
  {
    hide IsShadowed, WellFormedServices, Count, Scan;
    if n == 0 {
      assert ShadowedRules(active, 0) == {};
      CountEmpty(Shadowed);
    } else {
      ShadowedTotalExact(active, n - 1);
      ScanCountsOnce(active, n - 1, n - 1);
      CountConcat(AllFound(active, n - 1), Scan(active, n - 1, n - 1), Shadowed);
      OneMoreRule(active, n);
    }
  }

  lemma OneMoreRule(active: seq<ResolvedRule>, n: nat)
    requires 0 < n <= |active|
    ensures |ShadowedRules(active, n)| == |ShadowedRules(active, n - 1)| +
        if IsShadowed(active, n - 1, n - 1) then 1 else 0
  {
    hide IsShadowed;
    var before := ShadowedRules(active, n - 1);
    if IsShadowed(active, n - 1, n - 1) {
      assert ShadowedRules(active, n) == before + {n - 1};
    } else {
      assert ShadowedRules(active, n) == before;
    }
  }

  lemma CountEmpty(kind: Kind)
    ensures Count([], kind) == 0
  {
  }

  // ----------------------------------------------------------------- soundness

  /** If a rule covers another, it also hits every query the other hits, zoned or not. */
  lemma CoveringRuleHits(outer: ResolvedRule, inner: ResolvedRule, q: Query)
    requires outer.services.WellFormed() && inner.services.WellFormed()
    requires RealService(q.protocol, q.port)
    requires Covers(outer, inner) && outer.enabled && outer.Resolved()
    requires StateOf(inner, q).Hit?
    ensures StateOf(outer, q).Hit?
  {
    hide ServiceSet.WellFormed, ServiceSet.Includes, ServiceSet.Serves;
    IncludeIsSubservice(outer.services, inner.services);
  }

  /** A rule reported as shadowed by a readable, enabled rule is never the answer. */
  lemma ShadowedNeverWins(active: seq<ResolvedRule>, r: Relationship, q: Query)
    requires WellFormedServices(active) && RealService(q.protocol, q.port)
    requires r.earlier < r.later < |active| && Classify(active, r.earlier, r.later) == Some(r) && r.kind == Shadowed
    requires active[r.Cause()].Resolved() && active[r.Cause()].enabled
    ensures Winner(active, q) != Some(r.Subject())
  {
    hide ServiceSet.WellFormed, StateOf, PassesFilters;
    var cause, subject := active[r.earlier], active[r.later];
    if StateOf(subject, q).Hit? { CoveringRuleHits(cause, subject, q); }
  }

  /** Nor can it be, whatever the unreadable names of other rules stand for, if it can be
      read itself; if it cannot, it can win just when the query leaves it open. */
  lemma ShadowedCanWinExact(active: seq<ResolvedRule>, r: Relationship, q: Query)
    requires WellFormedServices(active) && RealService(q.protocol, q.port)
    requires r.earlier < r.later < |active| && Classify(active, r.earlier, r.later) == Some(r) && r.kind == Shadowed
    requires active[r.Cause()].Resolved() && active[r.Cause()].enabled
    ensures CanWin(active, q, r.Subject()) <==> r.Subject() in Answer(active, q, |active|).undecidable
    ensures active[r.Subject()].Resolved() ==> !CanWin(active, q, r.Subject())
  {
    hide Classify, StateOf, CanWin, WellFormedServices, Winner;
    ShadowedNeverWins(active, r, q);
    PossibleWinners(active, q, r.Subject());
    if active[r.Subject()].Resolved() { ReadableIsNeverOpen(active, q, r.Subject()); }
    MatchedIsWinner(active, q);
  }

  lemma ReadableIsNeverOpen(rules: seq<ResolvedRule>, q: Query, k: nat)
    requires k < |rules| && rules[k].Resolved()
    ensures k !in Answer(rules, q, |rules|).undecidable
  {
    hide IntsOf, ServiceSet.Serves;
    var w := Winner(rules, q);
    InPositions(rules, q, Open, 0, if w.Some? then w.value else |rules|);
  }

  ghost predicate RealPacket(q: Query) {
    0 <= q.source <= IPV4_MAX && 0 <= q.destination <= IPV4_MAX && RealService(q.protocol, q.port)
  }

  /** Every side of the rule that could be read holds something. */
  predicate ReadPartsMatch(r: ResolvedRule) {
    && (r.unresolvedSrc == [] ==> !r.source.v4.IsEmpty())
    && (r.unresolvedDst == [] ==> !r.destination.v4.IsEmpty())
    && (r.unresolvedSvc == [] ==> r.services.NonEmpty())
  }

  /** On some unread side of the subject the cause leaves something out. */
  ghost predicate LeavesRoom(cause: ResolvedRule, subject: ResolvedRule) {
    || (subject.unresolvedSrc != [] && !(Range(0, IPV4_MAX) <= cause.source.v4.Ints()))
    || (subject.unresolvedDst != [] && !(Range(0, IPV4_MAX) <= cause.destination.v4.Ints()))
    || (subject.unresolvedSvc != [] && !cause.services.IsAny())
  }

  /** For a readable rule and one below it that it covers, exactly when the second is not
      dead: its read sides hold something, and on an unread one the first leaves room. */
  lemma UnreadShadowedExact(cause: ResolvedRule, subject: ResolvedRule)
    requires cause.services.WellFormed() && subject.services.WellFormed() && Covers(cause, subject)
    requires cause.enabled && subject.enabled && cause.Resolved()
    requires subject.source.InRange() && subject.destination.InRange()
    ensures (exists q :: RealPacket(q) && CanWin([cause, subject], q, 1)) <==>
      ReadPartsMatch(subject) && LeavesRoom(cause, subject)
  {
    hide IntsOf, ServiceSet.WellFormed, ServiceSet.Serves, ServiceSet.Includes, StateOf, CanWin, Covers, LeavesRoom;
    var rules := [cause, subject];
    forall q | RealPacket(q) && CanWin(rules, q, 1) ensures ReadPartsMatch(subject) && LeavesRoom(cause, subject) {
      CanWinMeans(rules, q, 1);
      assert rules[0] == cause && rules[1] == subject;
      EscapeLeavesRoom(cause, subject, q);
    }
    if ReadPartsMatch(subject) && LeavesRoom(cause, subject) {
      var q := RoomToEscape(cause, subject);
      CanWinMeans(rules, q, 1);
    }
  }

  lemma EscapeLeavesRoom(cause: ResolvedRule, subject: ResolvedRule, q: Query)
    requires cause.services.WellFormed() && subject.services.WellFormed() && Covers(cause, subject)
    requires cause.enabled && cause.Resolved() && RealPacket(q)
    requires !StateOf(subject, q).Miss? && !StateOf(cause, q).Hit?
    ensures ReadPartsMatch(subject) && LeavesRoom(cause, subject)
  {
    hide IntsOf, ServiceSet.WellFormed, ServiceSet.Serves, ServiceSet.Includes;
    IncludeIsSubservice(cause.services, subject.services);
    ServesMeans(cause.services);
    NonEmptyInts(subject.source.v4.intervals);
    NonEmptyInts(subject.destination.v4.intervals);
    if subject.unresolvedSvc == [] { ServesNothing(subject.services, q.protocol, q.port); }
    assert q.source in Range(0, IPV4_MAX) && q.destination in Range(0, IPV4_MAX);
  }

  lemma SomeSide(side: IntervalSet, unread: seq<string>, taken: IntervalSet) returns (x: int)
    requires side.Ints() <= Range(0, IPV4_MAX) && (unread == [] ==> !side.IsEmpty())
    ensures 0 <= x <= IPV4_MAX && (unread == [] ==> x in side.Ints())
    ensures unread != [] && !(Range(0, IPV4_MAX) <= taken.Ints()) ==> x !in taken.Ints()
  {
    hide IntsOf;
    NonEmptyInts(side.intervals);
    if unread == [] { x := Pick(side.Ints()); }
    else if Range(0, IPV4_MAX) <= taken.Ints() { x := 0; }
    else { x := NotSubset(Range(0, IPV4_MAX), taken.Ints()); }
    assert x in Range(0, IPV4_MAX) || x == 0;
  }

  lemma SomeServiceSide(services: ServiceSet, unread: seq<string>, taken: ServiceSet) returns (protocol: int, port: int)
    requires services.WellFormed() && taken.WellFormed() && (unread == [] ==> services.NonEmpty())
    ensures RealService(protocol, port) && (unread == [] ==> services.Serves(protocol, port))
    ensures unread != [] && !taken.IsAny() ==> !taken.Serves(protocol, port)
  {
    hide IntsOf, ServiceSet.WellFormed, ServiceSet.Serves;
    ServesMeans(taken);
    if unread == [] { protocol, port := SomeService(services); } else { protocol, port := 0, 0; }
  }

  lemma RoomToEscape(cause: ResolvedRule, subject: ResolvedRule) returns (q: Query)
    requires cause.services.WellFormed() && subject.services.WellFormed()
    requires cause.Resolved() && subject.enabled && subject.source.InRange() && subject.destination.InRange()
    requires ReadPartsMatch(subject) && LeavesRoom(cause, subject)
    ensures RealPacket(q) && !StateOf(subject, q).Miss? && !StateOf(cause, q).Hit?
  {
    hide IntsOf, ServiceSet.WellFormed, ServiceSet.Serves;
    var s := SomeSide(subject.source.v4, subject.unresolvedSrc, cause.source.v4);
    var d := SomeSide(subject.destination.v4, subject.unresolvedDst, cause.destination.v4);
    var protocol, port := SomeServiceSide(subject.services, subject.unresolvedSvc, cause.services);
    q := Query(s, d, protocol, port, None, None);
  }

  /** A shadowed rule with an unreadable side is not dead: the report compares the part
      that was read. Here the cause is readable, and a packet from host 1 may be decided
      by the shadowed rule. */
  lemma ShadowedMayWin(q: Query)
    requires q.source == 1 && q.destination == 0 && RealService(q.protocol, q.port)
    ensures var rules := [HostRule("deny", {0}, []), HostRule("allow", {0}, ["tag"])];
      && Classify(rules, 0, 1) == Some(Relationship(Shadowed, 0, 1, true))
      && rules[0].Resolved() && CanWin(rules, q, 1)
  {
    hide Covers, PassesFilters, StateOf, CanWin, IntsOf, Of, Universe, Lower;
    var rules := [HostRule("deny", {0}, []), HostRule("allow", {0}, ["tag"])];
    HostRulesCompare("deny", {0}, [], "allow", {0}, ["tag"]);
    assert 0 in {0} * {0};
    DifferentActions();
    HostState("deny", {0}, [], q);
    HostState("allow", {0}, ["tag"], q);
    CanWinMeans(rules, q, 1);
  }

  lemma DifferentActions()
    ensures Lower("deny") == "deny" && Lower("allow") == "allow"
  {
    assert forall i :: 0 <= i < 4 ==> Lower("deny")[i] == "deny"[i];
    assert forall i :: 0 <= i < 5 ==> Lower("allow")[i] == "allow"[i];
  }

  lemma {:induction false} AllAreActive(rules: seq<ResolvedRule>)
    ensures Active(rules, true) == rules
  {
    if rules != [] {
      AllAreActive(rules[..|rules| - 1]);
      assert rules == rules[..|rules| - 1] + [rules[|rules| - 1]];
    }
  }

  /** Where rule `k` of the list sits among the active ones. */
  function ActivePosition(rules: seq<ResolvedRule>, k: nat): nat
    requires k <= |rules|
  {
    |Active(rules[..k], false)|
  }

  lemma {:induction false} ActiveAt(rules: seq<ResolvedRule>, k: nat)
    requires k < |rules| && rules[k].enabled
    ensures ActivePosition(rules, k) < |Active(rules, false)| &&
        Active(rules, false)[ActivePosition(rules, k)] == rules[k]
  {
    var n := |rules| - 1;
    if k < n {
      assert rules[..n][..k] == rules[..k];
      ActiveAt(rules[..n], k);
    }
  }

  lemma AppendedRule(rules: seq<ResolvedRule>, r: ResolvedRule, q: Query)
    ensures Winner(rules + [r], q) ==
      if Winner(rules, q).Some? then Winner(rules, q)
      else if StateOf(r, q).Hit? then Some(|rules|) else None
  {
    hide StateOf;
    WinnerOfPrefix(rules + [r], rules, q, |rules|);
  }

  /** Dropping disabled rules first, as the analysis does, does not change the winner. */
  lemma {:induction false} ActiveKeepsWinner(rules: seq<ResolvedRule>, q: Query)
    ensures var w := Winner(rules, q);
      Winner(Active(rules, false), q) == if w.Some? then Some(ActivePosition(rules, w.value)) else None
  {
    hide StateOf, Winner;
    if rules == [] {
      NoWinner(rules, q);
      NoWinner(Active(rules, false), q);
    } else {
      var n := |rules| - 1;
      var init, last := rules[..n], rules[n];
      var w := Winner(init, q);
      assert rules == init + [last];
      ActiveKeepsWinner(init, q);
      AppendedRule(init, last, q);
      assert Active(rules, false) == if last.enabled then Active(init, false) + [last] else Active(init, false);
      if last.enabled { AppendedRule(Active(init, false), last, q); } else { DisabledMisses(last, q); }
      SamePosition(rules, q);
    }
  }

  lemma SamePosition(rules: seq<ResolvedRule>, q: Query)
    requires rules != []
    ensures var init := rules[..|rules| - 1];
      Winner(init, q).Some? ==>
        ActivePosition(init, Winner(init, q).value) == ActivePosition(rules, Winner(init, q).value)
  {
    hide StateOf;
    var init := rules[..|rules| - 1];
    var w := Winner(init, q);
    if w.Some? { assert init[..w.value] == rules[..w.value]; }
  }

  lemma DisabledMisses(r: ResolvedRule, q: Query)
    requires !r.enabled
    ensures StateOf(r, q).Miss?
  {
  }

  lemma {:induction false} WinnerOfPrefix(a: seq<ResolvedRule>, b: seq<ResolvedRule>, q: Query, n: nat)
    requires n <= |a| && n <= |b| && a[..n] == b[..n]
    ensures WinnerUpTo(a, q, n) == WinnerUpTo(b, q, n)
  {
    hide StateOf;
    if n > 0 {
      assert a[n - 1] == a[..n][n - 1] == b[..n][n - 1] == b[n - 1];
      assert a[..n - 1] == a[..n][..n - 1] == b[..n][..n - 1] == b[..n - 1];
      WinnerOfPrefix(a, b, q, n - 1);
    }
  }
}
