/** The rule query: which rule decides one packet.

    A rule is in one of three states for a query: it misses, it hits, or it is open,
    because a side that could not be expanded is all that could exclude it. */
module Query {
  import opened Common
  import opened Intervals
  import opened Model
  import opened Packets

  datatype Query = Query(
    source: int, destination: int, protocol: int, port: int,
    srcZone: Option<string>, dstZone: Option<string>)

  /** An absent or empty zone skips the zone test. */
  predicate OutsideZones(zone: Option<string>, zones: set<string>) {
    zone.Some? && zone.value != "" && zones != {} && zone.value !in zones
  }

  predicate Reachable(r: ResolvedRule, q: Query) {
    r.enabled && !OutsideZones(q.srcZone, r.srcZones) && !OutsideZones(q.dstZone, r.dstZones)
  }

  datatype State = Miss | Hit | Open

  ghost function StateOf(r: ResolvedRule, q: Query): State {
    if !Reachable(r, q) then Miss
    else if (r.unresolvedSrc == [] && q.source !in r.source.v4.Ints())
         || (r.unresolvedDst == [] && q.destination !in r.destination.v4.Ints())
         || (r.unresolvedSvc == [] && !r.services.Serves(q.protocol, q.port)) then Miss
    else if !r.Resolved() then Open
    else Hit
  }

  /** A real service between two zones that have names. */
  predicate Concrete(q: Query) {
    && q.srcZone.Some? && q.srcZone.value != "" && q.dstZone.Some? && q.dstZone.value != ""
    && RealService(q.protocol, q.port)
  }

  /** What a query says about a zone: the zone itself, or nothing if it is absent or blank. */
  predicate AsksFor(asked: Option<string>, zone: string) {
    asked.Some? && asked.value != "" ==> zone == asked.value
  }

  lemma InsideZones(asked: Option<string>, zones: set<string>) returns (zone: string)
    requires !OutsideZones(asked, zones)
    ensures AsksFor(asked, zone) && InZones(zones, zone)
  {
    if asked.Some? && asked.value != "" { zone := asked.value; } else { zone := SomeMember(zones); }
  }

  /** A readable, enabled rule hits a query exactly when some packet it asks about, from and
      to its zones wherever it names them, is one the rule matches. */
  lemma HitIsMatch(r: ResolvedRule, q: Query)
    requires r.enabled && r.Resolved() && RealService(q.protocol, q.port)
    ensures StateOf(r, q).Hit? <==> exists srcZone, dstZone, application, user ::
      AsksFor(q.srcZone, srcZone) && AsksFor(q.dstZone, dstZone) &&
      Matches(r, Packet(false, q.source, q.destination, q.protocol, q.port, srcZone, dstZone, application, user))
  {
    hide IntsOf, ServiceSet.Serves;
    if StateOf(r, q).Hit? {
      var srcZone := InsideZones(q.srcZone, r.srcZones);
      var dstZone := InsideZones(q.dstZone, r.dstZones);
      var application := SomeMember(r.applications);
      var user := SomeMember(r.users);
      var p := Packet(false, q.source, q.destination, q.protocol, q.port, srcZone, dstZone, application, user);
      assert Matches(r, p);
    }
  }

  /** Between named zones there is no choice of zone left. */
  lemma ZonedHitIsMatch(r: ResolvedRule, q: Query)
    requires r.enabled && r.Resolved() && Concrete(q)
    ensures StateOf(r, q).Hit? <==> exists application, user ::
      Matches(r, Packet(false, q.source, q.destination, q.protocol, q.port,
                        q.srcZone.value, q.dstZone.value, application, user))
  {
    hide Matches, StateOf;
    HitIsMatch(r, q);
  }

  /** A disabled rule matches no query; a readable one never leaves a query open. */
  lemma DisabledOrReadable(r: ResolvedRule, q: Query)
    ensures !r.enabled ==> StateOf(r, q).Miss?
    ensures r.Resolved() ==> !StateOf(r, q).Open?
  {
  }

  lemma HostState(action: string, sources: set<int>, unread: seq<string>, q: Query)
    requires NonNegative(sources) && q.destination == 0 && RealService(q.protocol, q.port)
    ensures StateOf(HostRule(action, sources, unread), q) ==
      if unread != [] then Open else if q.source in sources then Hit else Miss
  {
    hide IntsOf, ServiceSet.Serves, Canonical, BucketsOf, SizeOf, NamedProtocol;
    ServesAt(AnyService(), q.protocol, q.port);
  }

  /** The first rule below position `n` that hits. */
  ghost function WinnerUpTo(rules: seq<ResolvedRule>, q: Query, n: nat): (w: Option<nat>)
    requires n <= |rules|
    ensures w.Some? ==> w.value < n && StateOf(rules[w.value], q).Hit?
    ensures forall i :: 0 <= i < (if w.Some? then w.value else n) ==> !StateOf(rules[i], q).Hit?
  {
    hide StateOf;
    if n == 0 then None
    else if WinnerUpTo(rules, q, n - 1).Some? then WinnerUpTo(rules, q, n - 1)
    else if StateOf(rules[n - 1], q).Hit? then Some(n - 1)
    else None
  }

  ghost function Winner(rules: seq<ResolvedRule>, q: Query): Option<nat> {
    WinnerUpTo(rules, q, |rules|)
  }

  /** The winner is exactly the first rule that hits. */
  lemma WinnerIsFirst(rules: seq<ResolvedRule>, q: Query, k: nat)
    requires k < |rules|
    ensures Winner(rules, q) == Some(k) <==>
      StateOf(rules[k], q).Hit? && forall i :: 0 <= i < k ==> !StateOf(rules[i], q).Hit?
  {
    hide StateOf;
  }

  lemma NoWinner(rules: seq<ResolvedRule>, q: Query)
    ensures Winner(rules, q) == None <==> forall i :: 0 <= i < |rules| ==> !StateOf(rules[i], q).Hit?
  {
  }

  /** The positions in `[lo, hi)` whose rule is in the given state, in order. */
  ghost function Positions(rules: seq<ResolvedRule>, q: Query, state: State, lo: nat, hi: nat): seq<nat>
    requires lo <= hi <= |rules|
    decreases hi
  {
    if lo == hi then []
    else Positions(rules, q, state, lo, hi - 1) + if StateOf(rules[hi - 1], q) == state then [hi - 1] else []
  }

  lemma {:induction false} InPositions(rules: seq<ResolvedRule>, q: Query, state: State, lo: nat, hi: nat)
    requires lo <= hi <= |rules|
    ensures forall i :: i in Positions(rules, q, state, lo, hi) <==> lo <= i < hi && StateOf(rules[i], q) == state
    decreases hi
  {
    hide StateOf;
    if lo < hi { InPositions(rules, q, state, lo, hi - 1); }
  }

  datatype QueryResult = QueryResult(matched: Option<nat>, shadowedByMatch: seq<nat>, undecidable: seq<nat>) {
    predicate Decided() { undecidable == [] }
  }

  /** The answer: the first hit, the hits after it, and the open rules before it. */
  ghost function Answer(rules: seq<ResolvedRule>, q: Query, n: nat): QueryResult
    requires n <= |rules|
  {
    var w := WinnerUpTo(rules, q, n);
    if w.None? then QueryResult(None, [], Positions(rules, q, Open, 0, n))
    else QueryResult(w, Positions(rules, q, Hit, w.value + 1, n), Positions(rules, q, Open, 0, w.value))
  }

  lemma AnswerStep(rules: seq<ResolvedRule>, q: Query, n: nat)
    requires n < |rules|
    ensures var a, b := Answer(rules, q, n), Answer(rules, q, n + 1);
      match StateOf(rules[n], q)
      case Miss => b == a
      case Open => b == if a.matched.None? then a.(undecidable := a.undecidable + [n]) else a
      case Hit =>
        b == if a.matched.None? then a.(matched := Some(n)) else a.(shadowedByMatch := a.shadowedByMatch + [n])
  {
    hide StateOf;
  }

  predicate Increasing(positions: seq<nat>) {
    forall i, j :: 0 <= i < j < |positions| ==> positions[i] < positions[j]
  }

  lemma {:induction false} PositionsIncrease(rules: seq<ResolvedRule>, q: Query, state: State, lo: nat, hi: nat)
    requires lo <= hi <= |rules|
    ensures Increasing(Positions(rules, q, state, lo, hi))
    decreases hi
  {
    hide StateOf;
    if lo < hi {
      PositionsIncrease(rules, q, state, lo, hi - 1);
      InPositions(rules, q, state, lo, hi - 1);
      var before := Positions(rules, q, state, lo, hi - 1);
      forall i | 0 <= i < |before| ensures before[i] < hi - 1 { assert before[i] in before; }
    }
  }

  /** What the answer lists: the first rule to hit, every later one that hits, and every rule
      left open before the first, in order. */
  lemma AnswerExact(rules: seq<ResolvedRule>, q: Query, k: nat)
    requires k < |rules|
    ensures var a := Answer(rules, q, |rules|);
      var first := forall i :: 0 <= i < k ==> !StateOf(rules[i], q).Hit?;
      && (a.matched == Some(k) <==> StateOf(rules[k], q).Hit? && first)
      && (k in a.shadowedByMatch <==> StateOf(rules[k], q).Hit? && !first)
      && (k in a.undecidable <==> StateOf(rules[k], q).Open? && first)
      && Increasing(a.shadowedByMatch) && Increasing(a.undecidable)
  {
    hide StateOf, Positions, WinnerUpTo;
    var w := Winner(rules, q);
    var bound := if w.Some? then w.value else |rules|;
    InPositions(rules, q, Open, 0, bound);
    PositionsIncrease(rules, q, Open, 0, bound);
    if w.Some? {
      InPositions(rules, q, Hit, w.value + 1, |rules|);
      PositionsIncrease(rules, q, Hit, w.value + 1, |rules|);
    }
  }

  method FirstMatch(rules: seq<ResolvedRule>, q: Query) returns (result: QueryResult)
    ensures result == Answer(rules, q, |rules|)
  {
    hide IntsOf, ServiceSet.Serves, WinnerUpTo, Answer;
    var laterMatches: seq<nat> := [];
    var undecidable: seq<nat> := [];
    var winner: Option<nat> := None;
    EmptyAnswer(rules, q);
    for n := 0 to |rules|
      invariant Answer(rules, q, n) == QueryResult(winner, laterMatches, undecidable)
    {
      var rule := rules[n];
      AnswerStep(rules, q, n);
      if !Reachable(rule, q) { continue; }
      var coversSrc := CoversValue(rule.source.v4, q.source);
      var coversDst := CoversValue(rule.destination.v4, q.destination);
      var coversSvc := TestService(rule.services, q.protocol, q.port);
      if (rule.unresolvedSrc == [] && !coversSrc)
        || (rule.unresolvedDst == [] && !coversDst)
        || (rule.unresolvedSvc == [] && !coversSvc) {
        continue;
      }
      if rule.unresolvedSrc != [] || rule.unresolvedDst != [] || rule.unresolvedSvc != [] {
        if winner.None? { undecidable := undecidable + [n]; }
        continue;
      }
      if winner.None? {
        winner := Some(n);
      } else {
        laterMatches := laterMatches + [n];
      }
    }
    result := QueryResult(winner, laterMatches, undecidable);
  }

  lemma EmptyAnswer(rules: seq<ResolvedRule>, q: Query)
    ensures Answer(rules, q, 0) == QueryResult(None, [], [])
  {
  }

  method TestService(s: ServiceSet, protocol: int, port: int) returns (r: bool)
    ensures r <==> s.Serves(protocol, port)
  {
    var ports := s.PortsFor(protocol);
    if ports.None? { return false; }
    r := CoversValue(ports.value, port);
  }

  // ------------------------------------------- unresolved sides as unknown sets

  /** What the unresolved sides of one rule might really stand for. */
  datatype Unknown = Unknown(src: iset<int>, dst: iset<int>, svc: iset<(int, int)>)

  /** One choice for every rule of the list. */
  type World = seq<Unknown>

  ghost predicate MatchesIn(r: ResolvedRule, u: Unknown, q: Query) {
    && Reachable(r, q)
    && (if r.unresolvedSrc == [] then q.source in r.source.v4.Ints() else q.source in u.src)
    && (if r.unresolvedDst == [] then q.destination in r.destination.v4.Ints() else q.destination in u.dst)
    && (if r.unresolvedSvc == [] then r.services.Serves(q.protocol, q.port) else (q.protocol, q.port) in u.svc)
  }

  ghost predicate WinsIn(rules: seq<ResolvedRule>, w: World, q: Query, k: nat)
    requires |w| == |rules|
  {
    k < |rules| && MatchesIn(rules[k], w[k], q) && forall i :: 0 <= i < k ==> !MatchesIn(rules[i], w[i], q)
  }

  ghost predicate NoneWinsIn(rules: seq<ResolvedRule>, w: World, q: Query)
    requires |w| == |rules|
  {
    forall i :: 0 <= i < |rules| ==> !MatchesIn(rules[i], w[i], q)
  }

  ghost predicate CanWin(rules: seq<ResolvedRule>, q: Query, k: nat) {
    exists w: World :: |w| == |rules| && WinsIn(rules, w, q, k)
  }

  /** The first rule below position `n` that matches under one choice. */
  ghost function FirstIn(rules: seq<ResolvedRule>, w: World, q: Query, n: nat): (r: Option<nat>)
    requires n <= |rules| == |w|
    ensures r.Some? ==> r.value < n && MatchesIn(rules[r.value], w[r.value], q)
    ensures forall i :: 0 <= i < (if r.Some? then r.value else n) ==> !MatchesIn(rules[i], w[i], q)
  {
    hide MatchesIn;
    if n == 0 then None
    else if FirstIn(rules, w, q, n - 1).Some? then FirstIn(rules, w, q, n - 1)
    else if MatchesIn(rules[n - 1], w[n - 1], q) then Some(n - 1)
    else None
  }

  ghost function WinnerIn(rules: seq<ResolvedRule>, w: World, q: Query): Option<nat>
    requires |w| == |rules|
  {
    FirstIn(rules, w, q, |rules|)
  }

  /** Hits match whatever the unknowns are, misses never match, open rules go either way. */
  lemma StateDecidesWorlds(r: ResolvedRule, q: Query, u: Unknown)
    ensures StateOf(r, q).Hit? ==> MatchesIn(r, u, q)
    ensures StateOf(r, q).Miss? ==> !MatchesIn(r, u, q)
    ensures !StateOf(r, q).Miss? ==>
      MatchesIn(r, Unknown(iset{q.source}, iset{q.destination}, iset{(q.protocol, q.port)}), q)
    ensures !StateOf(r, q).Hit? ==> !MatchesIn(r, Unknown(iset{}, iset{}, iset{}), q)
  {
    hide IntsOf, ServiceSet.Serves;
  }

  /** Every unresolved side holds the packet in the rules of `chosen`, and nothing in others. */
  ghost function Granting(n: nat, q: Query, chosen: set<nat>): World {
    seq(n, i => if i in chosen then Unknown(iset{q.source}, iset{q.destination}, iset{(q.protocol, q.port)})
                else Unknown(iset{}, iset{}, iset{}))
  }

  /** The three-valued answer is exact: the rules that win under some choice for the
      unresolved sides are exactly the match and the undecidable rules. */
  lemma PossibleWinners(rules: seq<ResolvedRule>, q: Query, k: nat)
    requires k < |rules|
    ensures var a := Answer(rules, q, |rules|);
      CanWin(rules, q, k) <==> a.matched == Some(k) || k in a.undecidable
  {
    hide IntsOf, ServiceSet.Serves, StateOf, MatchesIn;
    var a := Answer(rules, q, |rules|);
    InPositions(rules, q, Open, 0, if a.matched.Some? then a.matched.value else |rules|);
    if CanWin(rules, q, k) {
      var w: World :| |w| == |rules| && WinsIn(rules, w, q, k);
      forall i | 0 <= i <= k ensures i < k ==> !StateOf(rules[i], q).Hit? {
        StateDecidesWorlds(rules[i], q, w[i]);
      }
      StateDecidesWorlds(rules[k], q, w[k]);
      assert !StateOf(rules[k], q).Miss?;
    }
    if a.matched == Some(k) || k in a.undecidable {
      var w := Granting(|rules|, q, {k});
      forall i | 0 <= i < k ensures !MatchesIn(rules[i], w[i], q) {
        StateDecidesWorlds(rules[i], q, w[i]);
      }
      StateDecidesWorlds(rules[k], q, w[k]);
      assert WinsIn(rules, w, q, k);
    }
  }

  /** The same, rule by rule: it does not miss, and nothing above it hits. */
  lemma CanWinMeans(rules: seq<ResolvedRule>, q: Query, k: nat)
    requires k < |rules|
    ensures CanWin(rules, q, k) <==> !StateOf(rules[k], q).Miss? && forall i :: 0 <= i < k ==>
      !StateOf(rules[i], q).Hit?
  {
    hide StateOf, CanWin;
    var w := Winner(rules, q);
    InPositions(rules, q, Open, 0, if w.Some? then w.value else |rules|);
    PossibleWinners(rules, q, k);
  }

  /** No rule may win exactly when the query reports no match. */
  lemma PossiblyNoWinner(rules: seq<ResolvedRule>, q: Query)
    ensures (exists w: World :: |w| == |rules| && NoneWinsIn(rules, w, q)) <==> Winner(rules, q).None?
  {
    hide IntsOf, ServiceSet.Serves, StateOf, MatchesIn;
    if exists w: World :: |w| == |rules| && NoneWinsIn(rules, w, q) {
      var w: World :| |w| == |rules| && NoneWinsIn(rules, w, q);
      forall i | 0 <= i < |rules| ensures !StateOf(rules[i], q).Hit? {
        StateDecidesWorlds(rules[i], q, w[i]);
      }
    }
    if Winner(rules, q).None? {
      var w := Granting(|rules|, q, {});
      forall i | 0 <= i < |rules| ensures !MatchesIn(rules[i], w[i], q) {
        StateDecidesWorlds(rules[i], q, w[i]);
      }
      assert NoneWinsIn(rules, w, q);
    }
  }

  lemma WinnerInMeans(rules: seq<ResolvedRule>, w: World, q: Query)
    requires |w| == |rules|
    ensures forall k: nat :: WinnerIn(rules, w, q) == Some(k) <==> WinsIn(rules, w, q, k)
    ensures WinnerIn(rules, w, q).None? <==> NoneWinsIn(rules, w, q)
  {
    hide MatchesIn;
  }

  /** The answer is decided exactly when it is the winner under every choice. */
  ghost predicate Certain(rules: seq<ResolvedRule>, q: Query) {
    forall w: World :: |w| == |rules| ==> WinnerIn(rules, w, q) == Winner(rules, q)
  }

  lemma DecidedIsTheOnlyWinner(rules: seq<ResolvedRule>, q: Query)
    ensures Answer(rules, q, |rules|).Decided() <==> Certain(rules, q)
  {
    hide MatchesIn, WinsIn, NoneWinsIn, WinnerIn, Winner, StateOf;
    DecidedIsCertain(rules, q);
    MatchedIsWinner(rules, q);
    forall w: World | |w| == |rules|
      ensures WinnerIn(rules, w, q) == Winner(rules, q) <==>
        if Winner(rules, q).Some? then WinsIn(rules, w, q, Winner(rules, q).value) else NoneWinsIn(rules, w, q)
    {
      WinnerInMeans(rules, w, q);
    }
  }

  lemma MatchedIsWinner(rules: seq<ResolvedRule>, q: Query)
    ensures Answer(rules, q, |rules|).matched == Winner(rules, q)
  {
  }

  /** A decided answer is the answer under every choice; an undecided one is not. */
  lemma DecidedIsCertain(rules: seq<ResolvedRule>, q: Query)
    ensures var a := Answer(rules, q, |rules|);
      a.Decided() <==>
        forall w: World :: |w| == |rules| ==>
          if a.matched.Some? then WinsIn(rules, w, q, a.matched.value) else NoneWinsIn(rules, w, q)
  {
    hide IntsOf, ServiceSet.Serves, StateOf, MatchesIn;
    var a := Answer(rules, q, |rules|);
    InPositions(rules, q, Open, 0, if a.matched.Some? then a.matched.value else |rules|);
    if a.Decided() {
      forall w: World | |w| == |rules|
        ensures if a.matched.Some? then WinsIn(rules, w, q, a.matched.value) else NoneWinsIn(rules, w, q)
      {
        forall i | 0 <= i < |rules| && (a.matched.None? || i < a.matched.value) ensures !MatchesIn(rules[i], w[i], q) {
          StateDecidesWorlds(rules[i], q, w[i]);
          assert i !in a.undecidable;
        }
        if a.matched.Some? { StateDecidesWorlds(rules[a.matched.value], q, w[a.matched.value]); }
      }
    } else {
      var k := a.undecidable[0];
      assert k in a.undecidable;
      PossibleWinners(rules, q, k);
      var w: World :| |w| == |rules| && WinsIn(rules, w, q, k);
    }
  }
}
