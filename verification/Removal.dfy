/** What deleting a rule reported as redundant does to the rulebase. */
module Removal {
  import opened Common
  import opened Intervals
  import opened Model
  import opened Packets
  import opened Query
  import opened Analysis

  function Without<T>(s: seq<T>, k: nat): seq<T>
    requires k < |s|
  {
    s[..k] + s[k + 1..]
  }

  /** Where the rule at `w` sits once the rule at `k` is gone. */
  function Shift(w: Option<nat>, k: nat): Option<nat>
    requires w != Some(k)
  {
    if w.Some? && w.value > k then Some(w.value - 1) else w
  }

  /** Deleting a rule moves every other winner with its rule; only packets the deleted
      rule decided can change hands. */
  lemma OtherWinnersStay(rules: seq<ResolvedRule>, k: nat, q: Query)
    requires k < |rules| && Winner(rules, q) != Some(k)
    ensures Winner(Without(rules, k), q) == Shift(Winner(rules, q), k)
  {
    hide StateOf;
    var rest := Without(rules, k);
    var w, v := Winner(rules, q), Winner(rest, q);
    assert forall i :: 0 <= i < |rest| ==> rest[i] == if i < k then rules[i] else rules[i + 1];
    if w.Some? {
      assert rest[Shift(w, k).value] == rules[w.value];
      assert v.Some?;
    }
    if v.Some? { assert rest[v.value] == rules[if v.value < k then v.value else v.value + 1]; }
  }

  /** A redundant rule whose cause is above it can go: every packet keeps its winner, and
      whatever the unreadable names stand for, every other rule can win just as before. The
      deleted rule itself could win only through an unreadable side of its own. */
  lemma RemoveBelowCause(rules: seq<ResolvedRule>, e: nat, k: nat, q: Query)
    requires e < k < |rules| && WellFormedServices(rules) && RealService(q.protocol, q.port)
    requires Covers(rules[e], rules[k]) && rules[e].enabled && rules[e].Resolved()
    ensures Winner(rules, q) != Some(k)
    ensures Winner(Without(rules, k), q) == Shift(Winner(rules, q), k)
    ensures forall j: nat :: j < |rules| && j != k ==>
      (CanWin(Without(rules, k), q, Shift(Some(j), k).value) <==> CanWin(rules, q, j))
    ensures CanWin(rules, q, k) ==> !rules[k].Resolved()
  {
    hide StateOf, Covers, ServiceSet.WellFormed, CanWin;
    if StateOf(rules[k], q).Hit? { CoveringRuleHits(rules[e], rules[k], q); }
    OtherWinnersStay(rules, k, q);
    forall j: nat | j < |rules| && j != k
      ensures CanWin(Without(rules, k), q, Shift(Some(j), k).value) <==> CanWin(rules, q, j)
    {
      OthersWinAsBefore(rules, e, k, j, q);
    }
    CanWinMeans(rules, q, k);
    ReadableIsHitOrMiss(rules[k], q);
  }

  lemma ReadableIsHitOrMiss(r: ResolvedRule, q: Query)
    ensures r.Resolved() ==> !StateOf(r, q).Open?
  {
  }

  lemma OthersWinAsBefore(rules: seq<ResolvedRule>, e: nat, k: nat, j: nat, q: Query)
    requires e < k < |rules| && j < |rules| && j != k
    requires StateOf(rules[k], q).Hit? ==> StateOf(rules[e], q).Hit?
    ensures CanWin(Without(rules, k), q, Shift(Some(j), k).value) <==> CanWin(rules, q, j)
  {
    hide StateOf, CanWin;
    var rest := Without(rules, k);
    var at := Shift(Some(j), k).value;
    CanWinMeans(rules, q, j);
    CanWinMeans(rest, q, at);
    assert forall i :: 0 <= i < |rest| ==> rest[i] == if i < k then rules[i] else rules[i + 1];
    if forall i :: 0 <= i < at ==> !StateOf(rest[i], q).Hit? {
      forall i | 0 <= i < j && i != k ensures !StateOf(rules[i], q).Hit? {
        assert rest[Shift(Some(i), k).value] == rules[i];
      }
    }
  }

  ghost function Verdict(rules: seq<ResolvedRule>, q: Query): Option<string> {
    var w := Winner(rules, q);
    if w.Some? then Some(Lower(rules[w.value].action)) else None
  }

  // ------------------------------------------------- deleting any one rule

  /** The action of the first rule that matches under one choice for the unread sides. */
  ghost function VerdictIn(rules: seq<ResolvedRule>, w: World, q: Query): Option<string>
    requires |w| == |rules|
  {
    var first := WinnerIn(rules, w, q);
    if first.Some? then Some(Lower(rules[first.value].action)) else None
  }

  /** Deleting rule `k` changes the action of no zoned packet, whatever the unread sides of
      any rule stand for. */
  ghost predicate KeepsActions(rules: seq<ResolvedRule>, k: nat)
    requires k < |rules|
  {
    forall w: World, q ::
      |w| == |rules| && Concrete(q) ==> VerdictIn(Without(rules, k), Without(w, k), q) == VerdictIn(rules, w, q)
  }

  /** Deleting rule `k` changes the action of no answer to a zoned query. */
  ghost predicate KeepsAnswers(rules: seq<ResolvedRule>, k: nat)
    requires k < |rules|
  {
    forall q :: Concrete(q) ==> Verdict(Without(rules, k), q) == Verdict(rules, q)
  }

  /** No rule above position `i` surely matches, rule `k` aside. */
  ghost predicate Unopposed(rules: seq<ResolvedRule>, k: nat, i: nat, q: Query)
    requires i <= |rules|
  {
    forall j :: 0 <= j < i && j != k ==> !StateOf(rules[j], q).Hit?
  }

  /** Rule `i` may be the next one to match a packet that rule `k` may decide. */
  ghost predicate MayInherit(rules: seq<ResolvedRule>, k: nat, i: nat, q: Query)
    requires k < i < |rules|
  {
    Concrete(q) && !StateOf(rules[k], q).Miss? && !StateOf(rules[i], q).Miss? && Unopposed(rules, k, i, q)
  }

  /** No other rule surely matches a packet that rule `k` may decide. */
  ghost predicate MayLoseAll(rules: seq<ResolvedRule>, k: nat, q: Query)
    requires k < |rules|
  {
    Concrete(q) && !StateOf(rules[k], q).Miss? && Unopposed(rules, k, |rules|, q)
  }

  lemma WithoutAt<T>(s: seq<T>, k: nat)
    requires k < |s|
    ensures |Without(s, k)| == |s| - 1
    ensures forall j :: 0 <= j < |s| - 1 ==> Without(s, k)[j] == if j < k then s[j] else s[j + 1]
  {
  }

  /** The rule that decides once rule `k` is gone: the first other one that matches, if any. */
  lemma NextInLine(rules: seq<ResolvedRule>, k: nat, w: World, q: Query) returns (i: nat)
    requires k < |rules| == |w|
    ensures i <= |rules| && i != k && (i < |rules| ==> MatchesIn(rules[i], w[i], q))
    ensures forall j :: 0 <= j < i && j != k ==> !MatchesIn(rules[j], w[j], q)
    ensures VerdictIn(Without(rules, k), Without(w, k), q) == if i < |rules| then Some(Lower(rules[i].action)) else None
  {
    hide MatchesIn;
    var rest, left := Without(rules, k), Without(w, k);
    WithoutAt(rules, k);
    WithoutAt(w, k);
    var next := WinnerIn(rest, left, q);
    i := if next.None? then |rules| else if next.value < k then next.value else next.value + 1;
    forall j | 0 <= j < i && j != k ensures !MatchesIn(rules[j], w[j], q) {
      var at := if j < k then j else j - 1;
      assert rest[at] == rules[j] && left[at] == w[j];
    }
  }

  /** Under this choice rule `k` decides the packet, and rule `i` once it is gone. */
  ghost predicate PassesOn(rules: seq<ResolvedRule>, k: nat, i: nat, w: World, q: Query)
    requires k < |rules|
  {
    && |w| == |rules| && VerdictIn(rules, w, q) == Some(Lower(rules[k].action))
    && VerdictIn(Without(rules, k), Without(w, k), q) == if i < |rules| then Some(Lower(rules[i].action)) else None
  }

  /** Granted to rule `k`, and to rule `i` below it if there is one, the packet goes from
      the first to the second. */
  lemma HandsOver(rules: seq<ResolvedRule>, k: nat, i: nat, q: Query)
    requires k < i <= |rules| && !StateOf(rules[k], q).Miss? && Unopposed(rules, k, i, q)
    requires i < |rules| ==> !StateOf(rules[i], q).Miss?
    ensures exists w: World :: PassesOn(rules, k, i, w, q)
  {
    hide StateOf, MatchesIn;
    var w := Granting(|rules|, q, {k, i});
    forall j | 0 <= j < i ensures MatchesIn(rules[j], w[j], q) <==> j == k {
      StateDecidesWorlds(rules[j], q, w[j]);
    }
    if i < |rules| { StateDecidesWorlds(rules[i], q, w[i]); }
    var next := NextInLine(rules, k, w, q);
    assert next == i;
    assert WinnerIn(rules, w, q) == Some(k);
    assert PassesOn(rules, k, i, w, q);
  }

  /** When rule `k` decides a packet under some choice, deleting it hands the packet to the
      rule that may inherit it; when it does not, nothing changes. */
  lemma HandedOver(rules: seq<ResolvedRule>, k: nat, w: World, q: Query) returns (i: nat)
    requires k < |rules| == |w| && Concrete(q)
    ensures VerdictIn(Without(rules, k), Without(w, k), q) == if i < |rules| then Some(Lower(rules[i].action)) else None
    ensures WinnerIn(rules, w, q) != Some(k) ==>
      VerdictIn(Without(rules, k), Without(w, k), q) == VerdictIn(rules, w, q)
    ensures WinnerIn(rules, w, q) == Some(k) ==>
      k < i <= |rules| && if i < |rules| then MayInherit(rules, k, i, q) else MayLoseAll(rules, k, q)
  {
    hide StateOf, MatchesIn;
    i := NextInLine(rules, k, w, q);
    forall j | 0 <= j < |rules|
      ensures MatchesIn(rules[j], w[j], q) ==> !StateOf(rules[j], q).Miss?
      ensures !MatchesIn(rules[j], w[j], q) ==> !StateOf(rules[j], q).Hit?
    {
      StateDecidesWorlds(rules[j], q, w[j]);
    }
    var first := WinnerIn(rules, w, q);
    if first != Some(k) { assert first == if i < |rules| then Some(i) else None; }
  }

  /** Exactly when any one rule can go: when some other rule surely matches each packet it
      may decide, and each rule that may be the next to match such a packet has its action. */
  lemma DeletionExact(rules: seq<ResolvedRule>, k: nat)
    requires k < |rules|
    ensures KeepsActions(rules, k) <==>
      && (forall q :: !MayLoseAll(rules, k, q))
      && (forall i, q :: k < i < |rules| && MayInherit(rules, k, i, q) ==> rules[i].SameAction(rules[k]))
  {
    hide StateOf, MatchesIn, Unopposed, FirstIn;
    if KeepsActions(rules, k) {
      forall q ensures !MayLoseAll(rules, k, q) {
        if MayLoseAll(rules, k, q) { HandsOver(rules, k, |rules|, q); }
      }
      forall i, q | k < i < |rules| && MayInherit(rules, k, i, q) ensures rules[i].SameAction(rules[k]) {
        HandsOver(rules, k, i, q);
      }
    }
    if (forall q :: !MayLoseAll(rules, k, q))
      && (forall i, q :: k < i < |rules| && MayInherit(rules, k, i, q) ==> rules[i].SameAction(rules[k]))
    {
      forall w: World, q | |w| == |rules| && Concrete(q)
        ensures VerdictIn(Without(rules, k), Without(w, k), q) == VerdictIn(rules, w, q)
      {
        var i := HandedOver(rules, k, w, q);
      }
    }
  }

  lemma AnswerIsWorld(rules: seq<ResolvedRule>, w: World, q: Query)
    requires |w| == |rules| && forall i :: 0 <= i < |w| ==> w[i] == Unknown(iset{}, iset{}, iset{})
    ensures WinnerIn(rules, w, q) == Winner(rules, q)
  {
    hide StateOf, MatchesIn;
    forall i | 0 <= i < |rules| ensures MatchesIn(rules[i], w[i], q) <==> StateOf(rules[i], q).Hit? {
      StateDecidesWorlds(rules[i], q, w[i]);
    }
  }

  /** Rule `i` is the next one to hit a packet that rule `k` hits. */
  ghost predicate Inherits(rules: seq<ResolvedRule>, k: nat, i: nat, q: Query)
    requires k < i < |rules|
  {
    Concrete(q) && StateOf(rules[k], q).Hit? && StateOf(rules[i], q).Hit? && Unopposed(rules, k, i, q)
  }

  ghost predicate LosesAll(rules: seq<ResolvedRule>, k: nat, q: Query)
    requires k < |rules|
  {
    Concrete(q) && StateOf(rules[k], q).Hit? && Unopposed(rules, k, |rules|, q)
  }

  /** The answer once rule `k` is gone is that of the first other rule to hit, if any. */
  lemma NextAnswer(rules: seq<ResolvedRule>, k: nat, q: Query) returns (i: nat)
    requires k < |rules|
    ensures i <= |rules| && i != k && (i < |rules| ==> StateOf(rules[i], q).Hit?) && Unopposed(rules, k, i, q)
    ensures Verdict(Without(rules, k), q) == if i < |rules| then Some(Lower(rules[i].action)) else None
    ensures Winner(rules, q) != Some(k) ==> Verdict(rules, q) == Verdict(Without(rules, k), q)
    ensures Winner(rules, q) == Some(k) <==> k < i && StateOf(rules[k], q).Hit?
  {
    hide StateOf, MatchesIn, FirstIn;
    var w := Granting(|rules|, q, {});
    AnswerIsWorld(rules, w, q);
    AnswerIsWorld(Without(rules, k), Without(w, k), q);
    i := NextInLine(rules, k, w, q);
    forall j | 0 <= j < |rules| ensures MatchesIn(rules[j], w[j], q) <==> StateOf(rules[j], q).Hit? {
      StateDecidesWorlds(rules[j], q, w[j]);
    }
    var first := Winner(rules, q);
    if first != Some(k) && !(k < i && StateOf(rules[k], q).Hit?) {
      assert first == if i < |rules| then Some(i) else None;
    }
  }

  /** The same for the answers of the query alone, which pass over unread rules. */
  lemma AnswersKeptExact(rules: seq<ResolvedRule>, k: nat)
    requires k < |rules|
    ensures KeepsAnswers(rules, k) <==>
      && (forall q :: !LosesAll(rules, k, q))
      && (forall i, q :: k < i < |rules| && Inherits(rules, k, i, q) ==> rules[i].SameAction(rules[k]))
  {
    hide StateOf, Winner;
    forall q ensures LosesAll(rules, k, q) ==> !KeepsAnswers(rules, k) {
      var i := NextAnswer(rules, k, q);
      if LosesAll(rules, k, q) { assert i == |rules|; }
    }
    forall i, q | k < i < |rules| && Inherits(rules, k, i, q) && KeepsAnswers(rules, k)
      ensures rules[i].SameAction(rules[k])
    {
      var next := NextAnswer(rules, k, q);
      assert next == i;
    }
    if (forall q :: !LosesAll(rules, k, q))
      && (forall i, q :: k < i < |rules| && Inherits(rules, k, i, q) ==> rules[i].SameAction(rules[k]))
    {
      forall q | Concrete(q) ensures Verdict(Without(rules, k), q) == Verdict(rules, q) {
        var i := NextAnswer(rules, k, q);
        assert !LosesAll(rules, k, q);
        if Winner(rules, q) == Some(k) && i < |rules| { assert Inherits(rules, k, i, q); }
      }
    }
  }

  /** A deletion that keeps every action keeps the answers of the query. */
  lemma ActionsKeepAnswers(rules: seq<ResolvedRule>, k: nat)
    requires k < |rules| && KeepsActions(rules, k)
    ensures KeepsAnswers(rules, k)
  {
    hide StateOf, Winner, WinnerIn;
    forall q | Concrete(q) ensures Verdict(Without(rules, k), q) == Verdict(rules, q) {
      var w := Granting(|rules|, q, {});
      AnswerIsWorld(rules, w, q);
      AnswerIsWorld(Without(rules, k), Without(w, k), q);
    }
  }

  // --------------------------------- packets one rule hits and another may match

  ghost predicate MayMeet(a: ResolvedRule, b: ResolvedRule, q: Query) {
    Concrete(q) && StateOf(a, q).Hit? && !StateOf(b, q).Miss?
  }

  /** Some zone that has a name lies in both. */
  predicate ShareZone(a: set<string>, b: set<string>) {
    if a == {} then b == {} || b - {""} != {}
    else if b == {} then a - {""} != {}
    else a * b - {""} != {}
  }

  /** What can be checked before asking: both rules are enabled, and on zones, services and
      the IPv4 addresses the query reads they overlap; an unread side overlaps anything. */
  ghost predicate MayOverlap(a: ResolvedRule, b: ResolvedRule) {
    && a.enabled && b.enabled
    && ShareZone(a.srcZones, b.srcZones) && ShareZone(a.dstZones, b.dstZones)
    && SideMayOverlap(a.source.v4, b.source.v4, b.unresolvedSrc)
    && SideMayOverlap(a.destination.v4, b.destination.v4, b.unresolvedDst)
    && (if b.unresolvedSvc == [] then a.services.Overlaps(b.services) else a.services.NonEmpty())
  }

  ghost predicate SideMayOverlap(a: IntervalSet, b: IntervalSet, unread: seq<string>) {
    if unread == [] then a.Ints() * b.Ints() != {} else !a.IsEmpty()
  }

  lemma SharedZone(a: set<string>, b: set<string>) returns (z: string)
    requires ShareZone(a, b)
    ensures InZones(a, z) && InZones(b, z) && z != ""
  {
    if a == {} && b == {} { z := "z"; }
    else if a == {} { z := Pick(b - {""}); }
    else if b == {} { z := Pick(a - {""}); }
    else { z := Pick(a * b - {""}); }
  }

  lemma ZoneIsShared(a: set<string>, b: set<string>, z: string)
    requires InZones(a, z) && InZones(b, z) && z != ""
    ensures ShareZone(a, b)
  {
    assert a != {} ==> z in a - {""};
    assert b != {} ==> z in b - {""};
    assert a != {} && b != {} ==> z in a * b - {""};
  }

  lemma SharedAddress(a: IntervalSet, b: IntervalSet, unread: seq<string>) returns (x: int)
    requires SideMayOverlap(a, b, unread)
    ensures x in a.Ints() && (unread == [] ==> x in b.Ints())
  {
    NonEmptyInts(a.intervals);
    if unread == [] { x := Pick(a.Ints() * b.Ints()); } else { x := Pick(a.Ints()); }
  }

  lemma AddressIsShared(a: IntervalSet, b: IntervalSet, unread: seq<string>, x: int)
    requires x in a.Ints() && (unread == [] ==> x in b.Ints())
    ensures SideMayOverlap(a, b, unread)
  {
    NonEmptyInts(a.intervals);
    assert unread == [] ==> x in a.Ints() * b.Ints();
  }

  lemma SharedPort(a: ServiceSet, b: ServiceSet, unread: seq<string>) returns (protocol: int, port: int)
    requires a.WellFormed() && b.WellFormed()
    requires if unread == [] then a.Overlaps(b) else a.NonEmpty()
    ensures RealService(protocol, port) && a.Serves(protocol, port) && (unread == [] ==> b.Serves(protocol, port))
  {
    hide ServiceSet.WellFormed, ServiceSet.Serves, ServiceSet.Overlaps;
    OverlapIsSharedService(a, b);
    if unread == [] {
      protocol, port :| RealService(protocol, port) && a.Serves(protocol, port) && b.Serves(protocol, port);
    } else {
      protocol, port := SomeService(a);
    }
  }

  lemma PortIsShared(a: ServiceSet, b: ServiceSet, unread: seq<string>, protocol: int, port: int)
    requires a.WellFormed() && b.WellFormed() && RealService(protocol, port)
    requires a.Serves(protocol, port) && (unread == [] ==> b.Serves(protocol, port))
    ensures if unread == [] then a.Overlaps(b) else a.NonEmpty()
  {
    hide ServiceSet.WellFormed, ServiceSet.Serves, ServiceSet.Overlaps;
    OverlapIsSharedService(a, b);
    ServesNothing(a, protocol, port);
  }

  lemma OverlapMeets(a: ResolvedRule, b: ResolvedRule) returns (q: Query)
    requires a.services.WellFormed() && b.services.WellFormed() && a.Resolved() && MayOverlap(a, b)
    ensures MayMeet(a, b, q)
  {
    hide ServiceSet.WellFormed, ServiceSet.Serves, ServiceSet.Overlaps, ServiceSet.NonEmpty, IntsOf, ShareZone;
    hide SideMayOverlap;
    var x := SharedAddress(a.source.v4, b.source.v4, b.unresolvedSrc);
    var y := SharedAddress(a.destination.v4, b.destination.v4, b.unresolvedDst);
    var protocol, port := SharedPort(a.services, b.services, b.unresolvedSvc);
    var s := SharedZone(a.srcZones, b.srcZones);
    var d := SharedZone(a.dstZones, b.dstZones);
    q := Query(x, y, protocol, port, Some(s), Some(d));
  }

  lemma MeetingOverlaps(a: ResolvedRule, b: ResolvedRule, q: Query)
    requires a.services.WellFormed() && b.services.WellFormed() && MayMeet(a, b, q)
    ensures MayOverlap(a, b)
  {
    hide ServiceSet.WellFormed, ServiceSet.Serves, ServiceSet.Overlaps, ServiceSet.NonEmpty, IntsOf, ShareZone;
    hide SideMayOverlap;
    AddressIsShared(a.source.v4, b.source.v4, b.unresolvedSrc, q.source);
    AddressIsShared(a.destination.v4, b.destination.v4, b.unresolvedDst, q.destination);
    PortIsShared(a.services, b.services, b.unresolvedSvc, q.protocol, q.port);
    ZoneIsShared(a.srcZones, b.srcZones, q.srcZone.value);
    ZoneIsShared(a.dstZones, b.dstZones, q.dstZone.value);
  }

  /** A readable rule may overlap another exactly when some zoned packet hits the first and
      is not surely missed by the second. */
  lemma OverlapIsCommonPacket(a: ResolvedRule, b: ResolvedRule)
    requires a.services.WellFormed() && b.services.WellFormed() && a.Resolved()
    ensures MayOverlap(a, b) <==> exists q :: MayMeet(a, b, q)
  {
    hide ServiceSet.WellFormed, MayOverlap, MayMeet;
    if MayOverlap(a, b) { var q := OverlapMeets(a, b); }
    forall q | MayMeet(a, b, q) ensures MayOverlap(a, b) { MeetingOverlaps(a, b, q); }
  }

  // ------------------------------------------- a cause below the deleted rule

  /** Rule `m` covers the readable rule `k` above it with the same action, and can be read. */
  ghost predicate RedundantAbove(rules: seq<ResolvedRule>, k: nat, m: nat) {
    && k < m < |rules| && WellFormedServices(rules)
    && Covers(rules[m], rules[k]) && rules[m].SameAction(rules[k])
    && rules[m].enabled && rules[m].Resolved() && rules[k].Resolved()
  }

  /** Exactly when a redundant rule whose cause is below it can go: when every rule in
      between that may be the next to match a packet it decides has its action. */
  lemma RemovalExact(rules: seq<ResolvedRule>, k: nat, m: nat)
    requires RedundantAbove(rules, k, m)
    ensures KeepsActions(rules, k) <==>
      forall i, q :: k < i < m && MayInherit(rules, k, i, q) ==> rules[i].SameAction(rules[k])
  {
    hide StateOf, Covers, KeepsActions, WellFormedServices;
    DeletionExact(rules, k);
    forall q | Concrete(q) && !StateOf(rules[k], q).Miss? ensures StateOf(rules[m], q).Hit? {
      CauseHits(rules, k, m, q);
    }
    assert forall i, q :: m < i < |rules| ==> !MayInherit(rules, k, i, q);
    assert forall q :: !MayLoseAll(rules, k, q);
  }

  lemma CauseHits(rules: seq<ResolvedRule>, k: nat, m: nat, q: Query)
    requires RedundantAbove(rules, k, m) && Concrete(q) && !StateOf(rules[k], q).Miss?
    ensures StateOf(rules[k], q).Hit? && StateOf(rules[m], q).Hit?
  {
    hide StateOf, Covers, ServiceSet.WellFormed;
    ReadableIsHitOrMiss(rules[k], q);
    CoveringRuleHits(rules[m], rules[k], q);
  }

  /** No rule strictly in between may overlap rule `k` with another action. */
  ghost predicate NothingBetween(rules: seq<ResolvedRule>, k: nat, m: nat)
    requires k < m < |rules|
  {
    forall i :: k < i < m && MayOverlap(rules[k], rules[i]) ==> rules[i].SameAction(rules[k])
  }

  /** Enough for any rulebase: nothing in between may overlap it with another action. */
  lemma RemoveAboveCause(rules: seq<ResolvedRule>, k: nat, m: nat)
    requires RedundantAbove(rules, k, m) && NothingBetween(rules, k, m)
    ensures KeepsActions(rules, k) && KeepsAnswers(rules, k)
  {
    hide StateOf, Covers, KeepsActions, KeepsAnswers, MayOverlap, ServiceSet.WellFormed;
    forall i, q | k < i < m && MayInherit(rules, k, i, q) ensures rules[i].SameAction(rules[k]) {
      CauseHits(rules, k, m, q);
      OverlapIsCommonPacket(rules[k], rules[i]);
      assert MayMeet(rules[k], rules[i], q);
    }
    RemovalExact(rules, k, m);
    ActionsKeepAnswers(rules, k);
  }

  /** A readable rule surely takes the packets it shares with rule `k`. */
  ghost predicate Screens(rules: seq<ResolvedRule>, k: nat, j: nat)
    requires k < |rules| && j < |rules|
  {
    rules[j].Resolved() && MayOverlap(rules[k], rules[j])
  }

  /** No readable rule above overlaps rule `k`, and in between none of its own action that
      overlaps it stands above one of another action that may. */
  ghost predicate Unscreened(rules: seq<ResolvedRule>, k: nat, m: nat)
    requires k < m < |rules|
  {
    && (forall j :: 0 <= j < k ==> !Screens(rules, k, j))
    && (forall i, j :: k < j < i < m && Clashes(rules, k, i) && Screens(rules, k, j) ==> !rules[j].SameAction(rules[k]))
  }

  ghost predicate Clashes(rules: seq<ResolvedRule>, k: nat, i: nat)
    requires k < |rules| && i < |rules|
  {
    MayOverlap(rules[k], rules[i]) && !rules[i].SameAction(rules[k])
  }

  /** The first rule in between that may overlap rule `k` with another action, if any does. */
  lemma FirstClash(rules: seq<ResolvedRule>, k: nat, m: nat, l: nat) returns (i: nat)
    requires k < l < m < |rules| && Clashes(rules, k, l)
    ensures k < i <= l && Clashes(rules, k, i) && forall j :: k < j < i ==> !Clashes(rules, k, j)
  {
    hide Clashes;
    i := k + 1;
    while !Clashes(rules, k, i)
      invariant k < i <= l && forall j :: k < j < i ==> !Clashes(rules, k, j)
      decreases l - i
    {
      i := i + 1;
    }
  }

  lemma Screened(rules: seq<ResolvedRule>, k: nat, j: nat, q: Query)
    requires k < |rules| && j < |rules| && WellFormedServices(rules) && rules[k].Resolved() && Concrete(q)
    requires StateOf(rules[k], q).Hit? && StateOf(rules[j], q).Hit?
    ensures Screens(rules, k, j)
  {
    hide StateOf, MayOverlap, ServiceSet.WellFormed;
    OverlapIsCommonPacket(rules[k], rules[j]);
    assert MayMeet(rules[k], rules[j], q);
    HitIsReadable(rules[j], q);
  }

  lemma HitIsReadable(r: ResolvedRule, q: Query)
    requires StateOf(r, q).Hit?
    ensures r.Resolved()
  {
  }

  /** And needed, rule by rule, where no third rule screens the packets two rules share:
      deleting the redundant rule is then safe exactly when nothing in between may overlap
      it with another action. */
  lemma RemovalAdviceExact(rules: seq<ResolvedRule>, k: nat, m: nat)
    requires RedundantAbove(rules, k, m) && Unscreened(rules, k, m)
    ensures KeepsActions(rules, k) <==> NothingBetween(rules, k, m)
  {
    hide StateOf, Covers, KeepsActions, MayOverlap, Screens, ServiceSet.WellFormed;
    if NothingBetween(rules, k, m) {
      RemoveAboveCause(rules, k, m);
    } else {
      var l: nat :| k < l < m && MayOverlap(rules[k], rules[l]) && !rules[l].SameAction(rules[k]);
      var i := FirstClash(rules, k, m, l);
      OverlapIsCommonPacket(rules[k], rules[i]);
      var q :| MayMeet(rules[k], rules[i], q);
      forall j | 0 <= j < i && j != k ensures !StateOf(rules[j], q).Hit? {
        if StateOf(rules[j], q).Hit? {
          Screened(rules, k, j, q);
          assert j > k ==> Clashes(rules, k, j) by { ScreenOverlaps(rules, k, j); }
        }
      }
      assert MayInherit(rules, k, i, q);
      RemovalExact(rules, k, m);
    }
  }

  lemma ScreenOverlaps(rules: seq<ResolvedRule>, k: nat, j: nat)
    requires k < |rules| && j < |rules| && Screens(rules, k, j)
    ensures MayOverlap(rules[k], rules[j])
  {
  }

  // ------------------------------------------------------------- two examples

  ghost function Nested(): seq<ResolvedRule> {
    [HostRule("deny", {0}, []), HostRule("allow", {0, 1}, []), HostRule("deny", {0, 1, 2}, [])]
  }

  ghost function Tagged(): seq<ResolvedRule> {
    [HostRule("deny", {0}, []), HostRule("allow", {0}, ["tag"]), HostRule("deny", {0, 1}, [])]
  }

  const FROM_ZERO: Query := Query(0, 0, 6, 80, Some("z"), Some("z"))

  lemma NestedRules()
    ensures RedundantAbove(Nested(), 0, 2)
    ensures MayInherit(Nested(), 0, 1, FROM_ZERO) && Inherits(Nested(), 0, 1, FROM_ZERO)
  {
    hide Covers, PassesFilters, StateOf, IntsOf, ServiceSet.WellFormed, Of, Universe, Canonical, BucketsOf, SizeOf,
        Lower;
    HostRulesCompare("deny", {0, 1, 2}, [], "deny", {0}, []);
    HostRulesCompare("deny", {0}, [], "allow", {0, 1}, []);
    HostState("deny", {0}, [], FROM_ZERO);
    HostState("allow", {0, 1}, [], FROM_ZERO);
  }

  lemma NestedReport()
    ensures Classify(Nested(), 0, 2) == Some(Relationship(Redundant, 0, 2, false))
    ensures Classify(Nested(), 0, 1) == Some(Relationship(Generalisation, 0, 1, true))
    ensures Classify(Nested(), 1, 2) == Some(Relationship(Generalisation, 1, 2, true))
  {
    hide Covers, PassesFilters, IntsOf, ServiceSet.WellFormed, CleanupRule, Of, Universe, Canonical, BucketsOf,
        SizeOf, Lower;
    DifferentActions();
    HostRulesCompare("deny", {0}, [], "deny", {0, 1, 2}, []);
    HostRulesCompare("deny", {0, 1, 2}, [], "deny", {0}, []);
    HostRulesCompare("deny", {0}, [], "allow", {0, 1}, []);
    HostRulesCompare("allow", {0, 1}, [], "deny", {0}, []);
    HostRulesCompare("allow", {0, 1}, [], "deny", {0, 1, 2}, []);
    HostRulesCompare("deny", {0, 1, 2}, [], "allow", {0, 1}, []);
    NoCleanup();
    assert 0 in {0} * {0, 1, 2} && 0 in {0} * {0, 1} && 0 in {0, 1} * {0, 1, 2};
    assert 1 in {0, 1} && 1 !in {0} && 2 in {0, 1, 2} && 2 !in {0, 1} && 2 !in {0};
  }

  lemma NoCleanup()
    ensures CleanupRule(Nested()).None?
  {
    hide IntsOf, Of, Universe, Canonical, BucketsOf, SizeOf, AddressSet.IsAny;
    FewAreNotAny({0, 1, 2});
  }

  lemma FewAreNotAny(sources: set<int>)
    requires NonNegative(sources) && 3 !in sources
    ensures !AddressSet(Of(sources), EMPTY).IsAny()
  {
    hide IntsOf, Canonical, BucketsOf, SizeOf;
    assert 3 in Universe(IPV4_MAX).Ints();
    EqualIffSameInts(Of(sources), Universe(IPV4_MAX));
  }

  /** The advice to delete fails without that condition, and nothing in the report warns:
      the first of these rules is reported redundant because of the last, the other pairs
      are specific rules above general ones, and deleting the first lets the second permit
      its packets. */
  lemma DeletionOpens()
    ensures Classify(Nested(), 0, 2) == Some(Relationship(Redundant, 0, 2, false))
    ensures Classify(Nested(), 0, 1) == Some(Relationship(Generalisation, 0, 1, true))
    ensures Classify(Nested(), 1, 2) == Some(Relationship(Generalisation, 1, 2, true))
    ensures RedundantAbove(Nested(), 0, 2) && !KeepsActions(Nested(), 0) && !KeepsAnswers(Nested(), 0)
  {
    hide Classify, RedundantAbove, MayInherit, Inherits, KeepsActions, KeepsAnswers, Lower, IntsOf, HostRule, Nested;
    NestedReport();
    NestedRules();
    NestedActions();
    RemovalExact(Nested(), 0, 2);
    AnswersKeptExact(Nested(), 0);
  }

  lemma NestedActions()
    ensures |Nested()| == 3 && !Nested()[1].SameAction(Nested()[0])
  {
    hide Lower, Of;
    DifferentActions();
  }

  lemma TaggedRules()
    ensures RedundantAbove(Tagged(), 0, 2) && MayInherit(Tagged(), 0, 1, FROM_ZERO)
    ensures forall q :: Concrete(q) ==> !StateOf(Tagged()[1], q).Hit?
  {
    hide Covers, PassesFilters, IntsOf, ServiceSet.WellFormed, Of, Universe, Canonical, BucketsOf, SizeOf, Lower;
    HostRulesCompare("deny", {0, 1}, [], "deny", {0}, []);
    HostRulesCompare("deny", {0}, [], "allow", {0}, ["tag"]);
    HostState("deny", {0}, [], FROM_ZERO);
    HostState("allow", {0}, ["tag"], FROM_ZERO);
  }

  lemma TaggedActions()
    ensures var rules := Tagged();
      && |rules| == 3 && Lower(rules[0].action) == "deny" && Lower(rules[1].action) == "allow"
      && rules[2].SameAction(rules[0]) && !rules[1].SameAction(rules[0])
  {
    hide Lower, Of;
    DifferentActions();
  }

  /** Answers alone do not show it: deleting the first of these rules changes none of them,
      yet a packet it surely denied may then be permitted by the unread second. */
  lemma UnreadRuleBetween()
    ensures RedundantAbove(Tagged(), 0, 2) && KeepsAnswers(Tagged(), 0) && !KeepsActions(Tagged(), 0)
    ensures Certain(Tagged(), FROM_ZERO) && Verdict(Tagged(), FROM_ZERO) == Some("deny")
    ensures CanWin(Without(Tagged(), 0), FROM_ZERO, 0) && Without(Tagged(), 0)[0] == Tagged()[1]
  {
    hide RedundantAbove, StateOf, KeepsActions, KeepsAnswers, Lower, IntsOf, HostRule, Tagged, CanWin, Certain, Winner;
    TaggedRules();
    TaggedActions();
    var rules := Tagged();
    RemovalExact(rules, 0, 2);
    AnswersKeptExact(rules, 0);
    forall q | Concrete(q) && StateOf(rules[0], q).Hit? ensures StateOf(rules[2], q).Hit? { CauseHits(rules, 0, 2, q); }
    CauseHits(rules, 0, 2, FROM_ZERO);
    FirstHitIsCertain(rules, FROM_ZERO);
    CanWinMeans(Without(rules, 0), FROM_ZERO, 0);
  }

  lemma FirstHitIsCertain(rules: seq<ResolvedRule>, q: Query)
    requires rules != [] && StateOf(rules[0], q).Hit?
    ensures Certain(rules, q) && Winner(rules, q) == Some(0)
  {
    hide StateOf, MatchesIn;
    WinnerIsFirst(rules, q, 0);
    forall w: World | |w| == |rules| ensures WinnerIn(rules, w, q) == Some(0) {
      StateDecidesWorlds(rules[0], q, w[0]);
    }
  }
}
