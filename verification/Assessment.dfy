/** The two halves joined: rules resolved from a configuration are rules the analysis is
    exact about. */
module Assessment {
  import opened Common
  import opened Model
  import opened Packets
  import opened Query
  import opened Catalogue
  import opened Resolver
  import opened ResolverLaws
  import opened Rulebase
  import opened Analysis
  import opened Removal

  /** On every catalogue, cyclic or deep ones included, resolved services are well formed. */
  lemma {:induction false} ResolvedServicesWellFormed(c: Catalogue, rd: Reader, raws: seq<RawRule>, n: nat)
    requires rd.Sound() && n <= |raws|
    ensures var (memo, rules) := ResolveRules(c, rd, raws, n);
      AllWellFormed(memo) && WellFormedServices(rules)
  {
    hide LookupAddresses, LookupServices, ServiceSet.WellFormed, AllWellFormed, Side;
    if n == 0 {
      NothingRemembered(c, rd);
    } else {
      ResolvedServicesWellFormed(c, rd, raws, n - 1);
      var (memo, raw) := (ResolveRules(c, rd, raws, n - 1).0, raws[n - 1]);
      AddressesKeepServices(c, rd, memo, OrAny(raw.src), |OrAny(raw.src)|);
      var memo1 := LookupAddresses(c, rd, memo, OrAny(raw.src), |OrAny(raw.src)|).0;
      AddressesKeepServices(c, rd, memo1, OrAny(raw.dst), |OrAny(raw.dst)|);
      var memo2 := LookupAddresses(c, rd, memo1, OrAny(raw.dst), |OrAny(raw.dst)|).0;
      SameServices(memo, memo1);
      SameServices(memo1, memo2);
      ListServicesWellFormed(c, rd, memo2, OrAny(raw.services), |OrAny(raw.services)|);
    }
  }

  lemma {:induction false} ActiveWellFormed(rules: seq<ResolvedRule>, includeDisabled: bool)
    requires WellFormedServices(rules)
    ensures WellFormedServices(Active(rules, includeDisabled))
  {
    hide ServiceSet.WellFormed;
    if rules != [] { ActiveWellFormed(rules[..|rules| - 1], includeDisabled); }
  }

  lemma {:induction false} FoundIsClassified(active: seq<ResolvedRule>, n: nat, r: Relationship)
    requires n <= |active| && r in AllFound(active, n)
    ensures r.earlier < r.later < |active| && Classify(active, r.earlier, r.later) == Some(r)
  {
    hide Classify, Scan;
    if n > 0 {
      if r in AllFound(active, n - 1) {
        FoundIsClassified(active, n - 1, r);
      } else {
        ScannedIsClassified(active, n - 1, n - 1, r);
      }
    }
  }

  lemma {:induction false} ScannedIsClassified(active: seq<ResolvedRule>, l: nat, e: nat, r: Relationship)
    requires e <= l < |active| && r in Scan(active, l, e)
    ensures r.earlier < r.later < |active| && Classify(active, r.earlier, r.later) == Some(r)
  {
    hide PassesFilters, Covers;
    if e > 0 {
      if r in Scan(active, l, e - 1) { ScannedIsClassified(active, l, e - 1, r); }
    }
  }

  /** Rule `k` of the rulebase is the subject of a finding whose cause could be read. */
  ghost predicate DeadByReport(rules: seq<ResolvedRule>, found: seq<Relationship>, r: Relationship, k: nat) {
    var active := Active(rules, false);
    && r in found && r.kind == Shadowed
    && r.earlier < |active| && active[r.earlier].Resolved()
    && k < |rules| && rules[k].enabled && ActivePosition(rules, k) == r.later
  }

  lemma ShadowedIsDead(rules: seq<ResolvedRule>, r: Relationship, k: nat, q: Query)
    requires WellFormedServices(rules) && RealService(q.protocol, q.port)
    requires DeadByReport(rules, AllFound(Active(rules, false), |Active(rules, false)|), r, k)
    ensures r.later < |Active(rules, false)| && Active(rules, false)[r.later] == rules[k]
    ensures Winner(rules, q) != Some(k)
    ensures rules[k].Resolved() ==> !CanWin(rules, q, k)
  {
    hide Classify, ServiceSet.WellFormed, StateOf, Winner, ActivePosition, WellFormedServices, AllFound, CanWin;
    var active := Active(rules, false);
    ActiveWellFormed(rules, false);
    ActiveEnabled(rules, r.earlier);
    FoundIsClassified(active, |active|, r);
    ShadowedIsLater(active, r);
    ShadowedNeverWins(active, r, q);
    ActiveKeepsWinner(rules, q);
    ActiveAt(rules, k);
    PossibleWinners(rules, q, k);
    MatchedIsWinner(rules, q);
    if rules[k].Resolved() { ReadableIsNeverOpen(rules, q, k); }
  }

  lemma ShownIsFound(found: seq<Relationship>, limit: int, r: Relationship)
    requires r in Shown(found, limit)
    ensures r in found
  {
  }

  /** Of everything an analysis of a resolved rulebase lists as shadowed by a readable
      rule, nothing is ever the answer to a query over that rulebase, and what can be read
      itself cannot win under any meaning of the unreadable names; and the shadowed total
      is exact however short the list is cut. */
  lemma ShadowingReportSound(c: Catalogue, rd: Reader, raws: seq<RawRule>, limit: int, result: AnalysisResult,
      r: Relationship, k: nat, q: Query)
    requires rd.Sound() && RealService(q.protocol, q.port)
    requires var active := Active(ResolveRules(c, rd, raws, |raws|).1, false);
      Reports(result, AllFound(active, |active|), limit)
    ensures var rules := ResolveRules(c, rd, raws, |raws|).1;
      var active := Active(rules, false);
      && (DeadByReport(rules, result.relationships, r, k) ==>
            Winner(rules, q) != Some(k) && (rules[k].Resolved() ==> !CanWin(rules, q, k)))
      && Total(result.totals, Shadowed) == |ShadowedRules(active, |active|)|
  {
    hide ServiceSet.WellFormed, IsShadowed, Winner, CanWin, Count, AllFound, Shown, ResolveRules, ActivePosition;
    var rules := ResolveRules(c, rd, raws, |raws|).1;
    var active := Active(rules, false);
    ResolvedServicesWellFormed(c, rd, raws, |raws|);
    ActiveWellFormed(rules, false);
    ShadowedTotalExact(active, |active|);
    if DeadByReport(rules, result.relationships, r, k) {
      ShownIsFound(AllFound(active, |active|), limit, r);
      ShadowedIsDead(rules, r, k, q);
    }
  }

  lemma ShadowedIsLater(active: seq<ResolvedRule>, r: Relationship)
    requires r.earlier < r.later < |active| && Classify(active, r.earlier, r.later) == Some(r) && r.kind == Shadowed
    ensures r.subjectIsLater
  {
    hide PassesFilters, Covers;
  }

  lemma {:induction false} ActiveEnabled(rules: seq<ResolvedRule>, i: nat)
    requires i < |Active(rules, false)|
    ensures Active(rules, false)[i].enabled
  {
    if i < |Active(rules[..|rules| - 1], false)| { ActiveEnabled(rules[..|rules| - 1], i); }
  }

  // ------------------------------------------------------- redundant findings

  /** Every position among the active rules is that of some rule of the rulebase. */
  lemma {:induction false} Origin(rules: seq<ResolvedRule>, i: nat) returns (k: nat)
    requires i < |Active(rules, false)|
    ensures k < |rules| && rules[k].enabled && ActivePosition(rules, k) == i && Active(rules, false)[i] == rules[k]
  {
    var n := |rules| - 1;
    if i < |Active(rules[..n], false)| {
      k := Origin(rules[..n], i);
      assert rules[..n][..k] == rules[..k];
    } else {
      k := n;
    }
  }

  lemma {:induction false} PositionsGrow(rules: seq<ResolvedRule>, a: nat, b: nat)
    requires a <= b <= |rules|
    ensures ActivePosition(rules, a) <= ActivePosition(rules, b)
    decreases b
  {
    if a < b {
      PositionsGrow(rules, a, b - 1);
      assert rules[..b][..b - 1] == rules[..b - 1];
    }
  }

  /** Rule `k` is listed as redundant because of rule `e`, which could be read. */
  ghost predicate RedundantByReport(rules: seq<ResolvedRule>, found: seq<Relationship>, r: Relationship, e: nat,
      k: nat) {
    && r in found && r.kind == Redundant
    && e < |rules| && rules[e].enabled && rules[e].Resolved() && ActivePosition(rules, e) == r.Cause()
    && k < |rules| && rules[k].enabled && ActivePosition(rules, k) == r.Subject()
  }

  lemma ListedIsCovered(rules: seq<ResolvedRule>, r: Relationship, e: nat, k: nat)
    requires WellFormedServices(rules)
    requires RedundantByReport(rules, AllFound(Active(rules, false), |Active(rules, false)|), r, e, k)
    ensures Covers(rules[e], rules[k]) && rules[e].SameAction(rules[k])
    ensures if r.subjectIsLater then e < k else k < e
  {
    hide Classify, Covers, ServiceSet.WellFormed, ActivePosition, WellFormedServices, AllFound;
    var active := Active(rules, false);
    ActiveWellFormed(rules, false);
    FoundIsClassified(active, |active|, r);
    RedundantIsCovered(active, r);
    ActiveAt(rules, e);
    ActiveAt(rules, k);
    if e <= k { PositionsGrow(rules, e, k); } else { PositionsGrow(rules, k, e); }
  }

  /** Of what an analysis of a resolved rulebase lists as redundant: with its readable cause
      above it the rule can go, and every query keeps its answer; with the cause below it,
      every action stays the same exactly when each rule in between that may inherit one of
      its packets has its action. */
  lemma RedundancyReportSound(c: Catalogue, rd: Reader, raws: seq<RawRule>, limit: int, result: AnalysisResult,
      r: Relationship, e: nat, k: nat, q: Query)
    requires rd.Sound() && RealService(q.protocol, q.port)
    requires var rules := ResolveRules(c, rd, raws, |raws|).1;
      var active := Active(rules, false);
      Reports(result, AllFound(active, |active|), limit) && RedundantByReport(rules, result.relationships, r, e, k)
    ensures var rules := ResolveRules(c, rd, raws, |raws|).1;
      && (r.subjectIsLater ==>
            e < k && Winner(rules, q) != Some(k) && Winner(Without(rules, k), q) == Shift(Winner(rules, q), k))
      && (!r.subjectIsLater && rules[k].Resolved() ==> k < e && (KeepsActions(rules, k) <==>
            forall i, p :: k < i < e && MayInherit(rules, k, i, p) ==> rules[i].SameAction(rules[k])))
  {
    hide ServiceSet.WellFormed, Winner, CanWin, AllFound, Shown, ResolveRules, ActivePosition, Covers, MayInherit;
    var rules := ResolveRules(c, rd, raws, |raws|).1;
    var active := Active(rules, false);
    ResolvedServicesWellFormed(c, rd, raws, |raws|);
    ShownIsFound(AllFound(active, |active|), limit, r);
    ListedIsCovered(rules, r, e, k);
    if r.subjectIsLater {
      RemoveBelowCause(rules, e, k, q);
    } else if rules[k].Resolved() {
      RemovalExact(rules, k, e);
    }
  }
}
