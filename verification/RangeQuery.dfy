/** One verdict for all packets between two sets of addresses, and its agreement with the
    packet-by-packet query. */
module RangeQuery {
  import opened Common
  import opened Intervals
  import opened Model
  import opened Packets
  import opened Query

  datatype Rectangle = Rectangle(
    source: IntervalSet, destination: IntervalSet, protocol: int, port: int,
    srcZone: Option<string>, dstZone: Option<string>) {

    ghost predicate Contains(s: int, d: int) { s in source.Ints() && d in destination.Ints() }

    function Packet(s: int, d: int): Query { Query(s, d, protocol, port, srcZone, dstZone) }

    predicate Empty() { source.IsEmpty() || destination.IsEmpty() }
  }

  datatype Reach = Misses | Unread | Decides | Splits

  /** How one rule relates to the rectangle. */
  ghost function ReachOf(r: ResolvedRule, box: Rectangle): Reach {
    if !Reachable(r, box.Packet(0, 0)) then Misses
    else if r.unresolvedSrc == [] && r.source.v4.Ints() * box.source.Ints() == {} then Misses
    else if r.unresolvedDst == [] && r.destination.v4.Ints() * box.destination.Ints() == {} then Misses
    else if r.unresolvedSvc == [] && !r.services.Serves(box.protocol, box.port) then Misses
    else if !r.Resolved() then Unread
    else if box.source.Ints() <= r.source.v4.Ints() && box.destination.Ints() <= r.destination.v4.Ints() then Decides
    else Splits
  }

  method TestReach(r: ResolvedRule, box: Rectangle) returns (reach: Reach)
    ensures reach == ReachOf(r, box)
  {
    hide IntsOf, ServiceSet.Serves;
    if !Reachable(r, box.Packet(0, 0)) { return Misses; }
    var sharedSrc := Intersection(r.source.v4, box.source);
    NonEmptyInts(sharedSrc.intervals);
    if r.unresolvedSrc == [] && sharedSrc.intervals == [] { return Misses; }
    var sharedDst := Intersection(r.destination.v4, box.destination);
    NonEmptyInts(sharedDst.intervals);
    if r.unresolvedDst == [] && sharedDst.intervals == [] { return Misses; }
    var serves := TestService(r.services, box.protocol, box.port);
    if r.unresolvedSvc == [] && !serves { return Misses; }
    if r.unresolvedSrc != [] || r.unresolvedDst != [] || r.unresolvedSvc != [] { return Unread; }
    var all := ContainsSet(r.source.v4, box.source);
    if all { all := ContainsSet(r.destination.v4, box.destination); }
    return if all then Decides else Splits;
  }

  datatype Outcome = Allowed | Blocked | Mixed | NoMatch

  function OutcomeOf(r: ResolvedRule): Outcome { if r.Permits() then Allowed else Blocked }

  datatype Verdict = Verdict(outcome: Outcome, decidedBy: Option<nat>, splitBy: seq<nat>, undecidable: seq<nat>) {
    predicate Decided() { undecidable == [] }
  }

  ghost function Reached(rules: seq<ResolvedRule>, box: Rectangle, reach: Reach, n: nat): seq<nat>
    requires n <= |rules|
  {
    if n == 0 then []
    else Reached(rules, box, reach, n - 1) + if ReachOf(rules[n - 1], box) == reach then [n - 1] else []
  }

  lemma {:induction false} InReached(rules: seq<ResolvedRule>, box: Rectangle, reach: Reach, n: nat)
    requires n <= |rules|
    ensures forall i :: i in Reached(rules, box, reach, n) <==> 0 <= i < n && ReachOf(rules[i], box) == reach
  {
    hide ReachOf;
    if n > 0 { InReached(rules, box, reach, n - 1); }
  }

  /** The walk stops at position `stop`: the first rule that holds the whole rectangle. */
  ghost predicate StopsAt(rules: seq<ResolvedRule>, box: Rectangle, stop: nat) {
    && stop <= |rules|
    && (forall i :: 0 <= i < stop ==> !ReachOf(rules[i], box).Decides?)
    && (stop < |rules| ==> ReachOf(rules[stop], box).Decides?)
  }

  ghost function VerdictAt(rules: seq<ResolvedRule>, box: Rectangle, stop: nat): Verdict
    requires stop <= |rules|
  {
    var splitters := Reached(rules, box, Splits, stop);
    var undecidable := Reached(rules, box, Unread, stop);
    if splitters != [] then Verdict(Mixed, None, splitters, undecidable)
    else if stop < |rules| then Verdict(OutcomeOf(rules[stop]), Some(stop), [], undecidable)
    else Verdict(NoMatch, None, [], undecidable)
  }

  ghost predicate IsVerdict(rules: seq<ResolvedRule>, box: Rectangle, verdict: Verdict) {
    exists stop: nat :: StopsAt(rules, box, stop) && verdict == VerdictAt(rules, box, stop)
  }

  method FirstMatchOverRange(rules: seq<ResolvedRule>, box: Rectangle) returns (verdict: Verdict)
    ensures IsVerdict(rules, box, verdict)
  {
    hide ReachOf, IntsOf;
    var splitters: seq<nat> := [];
    var undecidable: seq<nat> := [];
    ghost var stop := |rules|;
    for n := 0 to |rules|
      invariant stop == |rules| && forall i :: 0 <= i < n ==> !ReachOf(rules[i], box).Decides?
      invariant splitters == Reached(rules, box, Splits, n)
      invariant undecidable == Reached(rules, box, Unread, n)
    {
      var reach := TestReach(rules[n], box);
      if reach.Misses? { continue; }
      if reach.Unread? {
        undecidable := undecidable + [n];
        continue;
      }
      if reach.Decides? {
        stop := n;
        if splitters != [] { break; }
        verdict := Verdict(OutcomeOf(rules[n]), Some(n), [], undecidable);
        assert verdict == VerdictAt(rules, box, stop);
        return;
      }
      splitters := splitters + [n];
    }
    if splitters != [] { verdict := Verdict(Mixed, None, splitters, undecidable); }
    else { verdict := Verdict(NoMatch, None, [], undecidable); }
    assert verdict == VerdictAt(rules, box, stop);
  }

  // ------------------------------------------------- agreement with one packet

  lemma PointState(r: ResolvedRule, box: Rectangle, s: int, d: int)
    requires box.Contains(s, d)
    ensures match ReachOf(r, box)
      case Misses => StateOf(r, box.Packet(s, d)).Miss?
      case Decides => StateOf(r, box.Packet(s, d)).Hit?
      case Unread => !StateOf(r, box.Packet(s, d)).Hit?
      case Splits => !StateOf(r, box.Packet(s, d)).Open?
  {
    hide IntsOf, ServiceSet.Serves;
    assert s in r.source.v4.Ints() ==> s in r.source.v4.Ints() * box.source.Ints();
    assert d in r.destination.v4.Ints() ==> d in r.destination.v4.Ints() * box.destination.Ints();
  }

  /** What a rule does to single packets of the rectangle. */
  lemma ReachIsStates(r: ResolvedRule, box: Rectangle)
    requires !box.Empty()
    ensures ReachOf(r, box).Misses? <==> forall s, d :: box.Contains(s, d) ==> StateOf(r, box.Packet(s, d)).Miss?
    ensures ReachOf(r, box).Decides? <==> forall s, d :: box.Contains(s, d) ==> StateOf(r, box.Packet(s, d)).Hit?
    ensures ReachOf(r, box).Unread? <==> exists s, d :: box.Contains(s, d) && StateOf(r, box.Packet(s, d)).Open?
    ensures ReachOf(r, box).Splits? ==> exists s, d :: box.Contains(s, d) && StateOf(r, box.Packet(s, d)).Hit?
    ensures ReachOf(r, box).Splits? ==> exists s, d :: box.Contains(s, d) && StateOf(r, box.Packet(s, d)).Miss?
  {
    hide IntsOf, ServiceSet.Serves;
    NonEmptyInts(box.source.intervals);
    NonEmptyInts(box.destination.intervals);
    var s := InsideOr(box.source.Ints(), r.source.v4.Ints());
    var d := InsideOr(box.destination.Ints(), r.destination.v4.Ints());
    var s' := OutsideOr(box.source.Ints(), r.source.v4.Ints());
    var d' := OutsideOr(box.destination.Ints(), r.destination.v4.Ints());
    assert box.Contains(s, d) && box.Contains(s', d');
    PointState(r, box, s, d);
    PointState(r, box, s', d');
    forall s, d | box.Contains(s, d)
      ensures ReachOf(r, box).Misses? ==> StateOf(r, box.Packet(s, d)).Miss?
      ensures ReachOf(r, box).Decides? ==> StateOf(r, box.Packet(s, d)).Hit?
      ensures !ReachOf(r, box).Unread? ==> !StateOf(r, box.Packet(s, d)).Open?
    {
      PointState(r, box, s, d);
    }
    assert ReachOf(r, box).Unread? ==> StateOf(r, box.Packet(s, d)).Open?;
    assert ReachOf(r, box).Splits? ==> StateOf(r, box.Packet(s, d)).Hit? && StateOf(r, box.Packet(s', d')).Miss?;
  }

  lemma InsideOr(range: set<int>, target: set<int>) returns (x: int)
    requires range != {}
    ensures x in range && (target * range != {} ==> x in target)
  {
    if target * range != {} { x := Pick(target * range); } else { x := Pick(range); }
  }

  lemma OutsideOr(range: set<int>, target: set<int>) returns (x: int)
    requires range != {}
    ensures x in range && (!(range <= target) ==> x !in target)
  {
    if range <= target { x := Pick(range); } else { x := NotSubset(range, target); }
  }

  ghost predicate Uniform(rules: seq<ResolvedRule>, box: Rectangle, w: Option<nat>) {
    forall s, d :: box.Contains(s, d) ==>
      Winner(rules, Query(s, d, box.protocol, box.port, box.srcZone, box.dstZone)) == w
  }

  /** Up to the stopping rule, a packet is won only by rules that split the rectangle. */
  lemma WonBySplitter(rules: seq<ResolvedRule>, box: Rectangle, stop: nat, s: int, d: int)
    requires StopsAt(rules, box, stop) && box.Contains(s, d)
    ensures var w := Winner(rules, box.Packet(s, d));
      || (w.Some? && w.value < stop && ReachOf(rules[w.value], box).Splits?)
      || w == if stop < |rules| then Some(stop) else None
  {
    hide IntsOf, ReachOf, StateOf;
    var q := box.Packet(s, d);
    var w := Winner(rules, q);
    if w.Some? { PointState(rules[w.value], box, s, d); }
    if stop < |rules| { PointState(rules[stop], box, s, d); }
  }

  /** The first splitter wins one packet of the rectangle and loses another. */
  lemma FirstSplitter(rules: seq<ResolvedRule>, box: Rectangle, stop: nat, k: nat)
    requires StopsAt(rules, box, stop) && !box.Empty() && k < stop
    requires ReachOf(rules[k], box).Splits? && forall i :: 0 <= i < k ==> !ReachOf(rules[i], box).Splits?
    ensures exists s, d :: box.Contains(s, d) && Winner(rules, box.Packet(s, d)) == Some(k)
    ensures exists s, d :: box.Contains(s, d) && Winner(rules, box.Packet(s, d)) != Some(k)
  {
    hide IntsOf, ReachOf, StateOf;
    ReachIsStates(rules[k], box);
    var s, d :| box.Contains(s, d) && StateOf(rules[k], box.Packet(s, d)).Hit?;
    forall i | 0 <= i < k ensures !StateOf(rules[i], box.Packet(s, d)).Hit? {
      PointState(rules[i], box, s, d);
    }
    assert Winner(rules, box.Packet(s, d)) == Some(k);
    var s', d' :| box.Contains(s', d') && StateOf(rules[k], box.Packet(s', d')).Miss?;
    assert Winner(rules, box.Packet(s', d')) != Some(k);
  }

  lemma {:induction false} FirstReached(rules: seq<ResolvedRule>, box: Rectangle, reach: Reach, n: nat) returns (k: nat)
    requires n <= |rules| && Reached(rules, box, reach, n) != []
    ensures k < n && ReachOf(rules[k], box) == reach && forall i :: 0 <= i < k ==> ReachOf(rules[i], box) != reach
  {
    hide ReachOf, Reached;
    ReachedEnds(rules, box, reach, n);
    if Reached(rules, box, reach, n - 1) != [] {
      k := FirstReached(rules, box, reach, n - 1);
    } else {
      k := n - 1;
      NoneReached(rules, box, reach, n - 1);
    }
  }

  lemma ReachedEnds(rules: seq<ResolvedRule>, box: Rectangle, reach: Reach, n: nat)
    requires n <= |rules| && Reached(rules, box, reach, n) != []
    ensures n > 0
    ensures Reached(rules, box, reach, n - 1) == [] ==> ReachOf(rules[n - 1], box) == reach
  {
    hide ReachOf;
  }

  lemma NoneReached(rules: seq<ResolvedRule>, box: Rectangle, reach: Reach, n: nat)
    requires n <= |rules| && Reached(rules, box, reach, n) == []
    ensures forall i :: 0 <= i < n ==> ReachOf(rules[i], box) != reach
  {
    hide ReachOf, Reached;
    InReached(rules, box, reach, n);
    assert forall i :: i !in Reached(rules, box, reach, n);
  }

  lemma SamePoint(rules: seq<ResolvedRule>, box: Rectangle, v: Option<nat>, w: Option<nat>)
    requires !box.Empty() && Uniform(rules, box, v) && Uniform(rules, box, w)
    ensures v == w
  {
    hide IntsOf, StateOf, Winner;
    NonEmptyInts(box.source.intervals);
    NonEmptyInts(box.destination.intervals);
    var s, d := Pick(box.source.Ints()), Pick(box.destination.Ints());
    assert box.Contains(s, d);
  }

  /** The range verdict is exact: over a non-empty rectangle a rule is named exactly when it
      decides every packet, and the outcome is ALLOWED or BLOCKED as the action of such a
      rule permits or not; no match is reported exactly when no packet is matched, and MIXED
      exactly when no one answer holds for all of them. */
  lemma RangeVerdictExact(rules: seq<ResolvedRule>, box: Rectangle, v: Verdict)
    requires IsVerdict(rules, box, v) && !box.Empty()
    ensures forall r: nat :: r < |rules| ==> (v.decidedBy == Some(r) <==> Uniform(rules, box, Some(r)))
    ensures v.outcome.Allowed? <==> exists r: nat ::
      r < |rules| && Lower(rules[r].action) in {"allow", "permit", "accept"} && Uniform(rules, box, Some(r))
    ensures v.outcome.Blocked? <==> exists r: nat ::
      r < |rules| && Lower(rules[r].action) !in {"allow", "permit", "accept"} && Uniform(rules, box, Some(r))
    ensures v.outcome.NoMatch? <==> Uniform(rules, box, None)
    ensures v.outcome.Mixed? <==> !exists w :: Uniform(rules, box, w)
    ensures v.decidedBy.Some? ==> v.decidedBy.value < |rules|
  {
    hide IntsOf, ReachOf, StateOf, Winner, Uniform;
    var stop: nat :| StopsAt(rules, box, stop) && v == VerdictAt(rules, box, stop);
    if v.outcome.Mixed? {
      MixedIsNotUniform(rules, box, stop);
    } else {
      var w := if stop < |rules| then Some(stop) else None;
      NamedIsUniform(rules, box, v);
      assert Uniform(rules, box, w);
      forall other | Uniform(rules, box, other) ensures other == w { SamePoint(rules, box, w, other); }
    }
  }

  lemma MixedIsNotUniform(rules: seq<ResolvedRule>, box: Rectangle, stop: nat)
    requires StopsAt(rules, box, stop) && !box.Empty() && Reached(rules, box, Splits, stop) != []
    ensures forall w :: !Uniform(rules, box, w)
  {
    hide IntsOf, ReachOf, StateOf, Winner;
    var k := FirstReached(rules, box, Splits, stop);
    FirstSplitter(rules, box, stop, k);
  }

  /** A verdict other than MIXED names the winner of every packet. */
  lemma NamedIsUniform(rules: seq<ResolvedRule>, box: Rectangle, v: Verdict)
    requires IsVerdict(rules, box, v) && !box.Empty() && !v.outcome.Mixed?
    ensures Uniform(rules, box, v.decidedBy)
  {
    hide IntsOf, ReachOf, StateOf, Winner;
    var stop: nat :| StopsAt(rules, box, stop) && v == VerdictAt(rules, box, stop);
    InReached(rules, box, Splits, stop);
    forall s, d | box.Contains(s, d) ensures Winner(rules, box.Packet(s, d)) == v.decidedBy {
      WonBySplitter(rules, box, stop, s, d);
    }
  }

  ghost predicate HitsSome(r: ResolvedRule, box: Rectangle) {
    exists s, d :: box.Contains(s, d) && StateOf(r, box.Packet(s, d)).Hit?
  }

  ghost predicate HitsAll(r: ResolvedRule, box: Rectangle) {
    forall s, d :: box.Contains(s, d) ==> StateOf(r, box.Packet(s, d)).Hit?
  }

  ghost predicate OpensSome(r: ResolvedRule, box: Rectangle) {
    exists s, d :: box.Contains(s, d) && StateOf(r, box.Packet(s, d)).Open?
  }

  lemma ReachIsHits(r: ResolvedRule, box: Rectangle)
    requires !box.Empty()
    ensures ReachOf(r, box).Decides? <==> HitsAll(r, box)
    ensures ReachOf(r, box).Splits? <==> HitsSome(r, box) && !HitsAll(r, box)
    ensures ReachOf(r, box).Unread? <==> OpensSome(r, box)
  {
    hide IntsOf, ReachOf, StateOf;
    ReachIsStates(r, box);
    forall s, d | box.Contains(s, d) && StateOf(r, box.Packet(s, d)).Hit?
      ensures !ReachOf(r, box).Misses? && !ReachOf(r, box).Unread?
    {
      PointState(r, box, s, d);
    }
  }

  /** What the verdict lists: up to the first rule that hits every packet, the rules that hit
      some and not all of them, and the rules that are open for some. Only MIXED lists a
      rule of the first kind. */
  lemma RangeReportExact(rules: seq<ResolvedRule>, box: Rectangle, v: Verdict, k: nat)
    requires IsVerdict(rules, box, v) && !box.Empty() && k < |rules|
    ensures var reached := forall i :: 0 <= i < k ==> !HitsAll(rules[i], box);
      && (k in v.splitBy <==> reached && HitsSome(rules[k], box) && !HitsAll(rules[k], box))
      && (k in v.undecidable <==> reached && OpensSome(rules[k], box))
    ensures v.splitBy != [] <==> v.outcome.Mixed?
  {
    hide IntsOf, ReachOf, StateOf, HitsAll, HitsSome, OpensSome;
    var stop: nat :| StopsAt(rules, box, stop) && v == VerdictAt(rules, box, stop);
    InReached(rules, box, Unread, stop);
    InReached(rules, box, Splits, stop);
    forall i | 0 <= i < |rules| ensures ReachOf(rules[i], box).Decides? <==> HitsAll(rules[i], box) {
      ReachIsHits(rules[i], box);
    }
    ReachIsHits(rules[k], box);
  }

  ghost predicate OpenFor(rules: seq<ResolvedRule>, box: Rectangle, k: nat, s: int, d: int) {
    box.Contains(s, d) && k in Answer(rules, box.Packet(s, d), |rules|).undecidable
  }

  lemma OpenBeforeWinner(rules: seq<ResolvedRule>, q: Query, k: nat)
    requires k < |rules|
    ensures k in Answer(rules, q, |rules|).undecidable <==>
      StateOf(rules[k], q).Open? && (Winner(rules, q).None? || k < Winner(rules, q).value)
  {
    hide IntsOf, StateOf;
    var w := Winner(rules, q);
    InPositions(rules, q, Open, 0, if w.Some? then w.value else |rules|);
  }

  /** The rule's readable sides hold the packet. */
  ghost predicate MayTouch(r: ResolvedRule, s: int, d: int) {
    && (r.unresolvedSrc == [] ==> s in r.source.v4.Ints())
    && (r.unresolvedDst == [] ==> d in r.destination.v4.Ints())
  }

  /** Some packet of the rectangle that rule `k` may touch is held by no splitter above it. */
  ghost predicate Unclaimed(rules: seq<ResolvedRule>, box: Rectangle, splitters: seq<nat>, k: nat)
    requires k < |rules|
  {
    exists s, d :: box.Contains(s, d) && MayTouch(rules[k], s, d) &&
      forall i :: i in splitters && i < k ==> !(s in rules[i].source.v4.Ints() && d in rules[i].destination.v4.Ints())
  }

  lemma UnreadState(r: ResolvedRule, box: Rectangle, s: int, d: int)
    requires box.Contains(s, d)
    ensures ReachOf(r, box).Unread? ==> (StateOf(r, box.Packet(s, d)).Open? <==> MayTouch(r, s, d))
    ensures ReachOf(r, box).Splits? ==>
      (StateOf(r, box.Packet(s, d)).Hit? <==> s in r.source.v4.Ints() && d in r.destination.v4.Ints())
  {
    hide IntsOf, ServiceSet.Serves;
  }

  /** A packet that an unread rule may touch and no splitter above holds is left open. */
  lemma UnclaimedIsOpen(rules: seq<ResolvedRule>, box: Rectangle, stop: nat, k: nat, s: int, d: int)
    requires StopsAt(rules, box, stop) && box.Contains(s, d) && k < stop
    requires ReachOf(rules[k], box).Unread? && MayTouch(rules[k], s, d)
    requires forall i :: 0 <= i < k && ReachOf(rules[i], box).Splits? ==>
      !(s in rules[i].source.v4.Ints() && d in rules[i].destination.v4.Ints())
    ensures OpenFor(rules, box, k, s, d)
  {
    hide IntsOf, ReachOf, StateOf, Winner, Answer, MayTouch;
    UnreadState(rules[k], box, s, d);
    OpenBeforeWinner(rules, box.Packet(s, d), k);
    WonBySplitter(rules, box, stop, s, d);
    var w := Winner(rules, box.Packet(s, d));
    if w.Some? && w.value < stop {
      WinnerIsFirst(rules, box.Packet(s, d), w.value);
      UnreadState(rules[w.value], box, s, d);
    }
  }

  /** Exactly which rules leave some packet of the rectangle open: those reported that may
      touch a packet no splitter above them holds. Outside MIXED nothing splits, and those
      reported are exactly those that leave a packet open. */
  lemma RangeUndecidableExact(rules: seq<ResolvedRule>, box: Rectangle, v: Verdict, k: nat)
    requires IsVerdict(rules, box, v) && !box.Empty() && k < |rules|
    ensures (exists s, d :: OpenFor(rules, box, k, s, d)) <==> k in v.undecidable && Unclaimed(rules, box, v.splitBy, k)
    ensures !v.outcome.Mixed? ==> (k in v.undecidable <==> exists s, d :: OpenFor(rules, box, k, s, d))
  {
    hide IntsOf, ReachOf, StateOf, Winner, Answer, MayTouch;
    var stop: nat :| StopsAt(rules, box, stop) && v == VerdictAt(rules, box, stop);
    InReached(rules, box, Unread, stop);
    InReached(rules, box, Splits, stop);
    forall s, d | OpenFor(rules, box, k, s, d) ensures k in v.undecidable && Unclaimed(rules, box, v.splitBy, k) {
      OpenIsReported(rules, box, stop, k, s, d);
    }
    forall s, d | k in v.undecidable && box.Contains(s, d) && MayTouch(rules[k], s, d) &&
        forall i :: i in v.splitBy && i < k ==> !(s in rules[i].source.v4.Ints() && d in rules[i].destination.v4.Ints())
      ensures OpenFor(rules, box, k, s, d)
    {
      UnclaimedIsOpen(rules, box, stop, k, s, d);
    }
    if !v.outcome.Mixed? && k in v.undecidable {
      ReachIsStates(rules[k], box);
      var s, d :| box.Contains(s, d) && StateOf(rules[k], box.Packet(s, d)).Open?;
      UnreadState(rules[k], box, s, d);
    }
  }

  lemma OpenIsReported(rules: seq<ResolvedRule>, box: Rectangle, stop: nat, k: nat, s: int, d: int)
    requires StopsAt(rules, box, stop) && k < |rules| && OpenFor(rules, box, k, s, d)
    ensures k < stop && ReachOf(rules[k], box).Unread? && MayTouch(rules[k], s, d)
    ensures forall i :: 0 <= i < k && ReachOf(rules[i], box).Splits? ==>
      !(s in rules[i].source.v4.Ints() && d in rules[i].destination.v4.Ints())
  {
    hide IntsOf, ReachOf, StateOf, Winner, Answer, MayTouch;
    var q := box.Packet(s, d);
    OpenBeforeWinner(rules, q, k);
    WonBySplitter(rules, box, stop, s, d);
    PointState(rules[k], box, s, d);
    UnreadState(rules[k], box, s, d);
    forall i | 0 <= i < k && ReachOf(rules[i], box).Splits?
      ensures !(s in rules[i].source.v4.Ints() && d in rules[i].destination.v4.Ints())
    {
      UnreadState(rules[i], box, s, d);
      NoneBefore(rules, q, k, i);
    }
  }

  lemma NoneBefore(rules: seq<ResolvedRule>, q: Query, k: nat, i: nat)
    requires i < k < |rules| && (Winner(rules, q).None? || k < Winner(rules, q).value)
    ensures !StateOf(rules[i], q).Hit?
  {
    hide StateOf;
  }

  /** Every packet of the rectangle has one winner, whatever the unread sides stand for. */
  ghost predicate AllCertain(rules: seq<ResolvedRule>, box: Rectangle) {
    forall s, d :: box.Contains(s, d) ==> Certain(rules, box.Packet(s, d))
  }

  /** The winner of every packet of the rectangle under every choice is `winner`. */
  ghost predicate UniformInAll(rules: seq<ResolvedRule>, box: Rectangle, winner: Option<nat>) {
    forall w: World, s, d ::
      |w| == |rules| && box.Contains(s, d) ==> WinnerIn(rules, w, box.Packet(s, d)) == winner
  }

  lemma OpenIsUncertain(rules: seq<ResolvedRule>, box: Rectangle, s: int, d: int)
    requires box.Contains(s, d)
    ensures Certain(rules, box.Packet(s, d)) <==> forall k: nat :: !OpenFor(rules, box, k, s, d)
  {
    hide IntsOf, Certain, Answer;
    var q := box.Packet(s, d);
    DecidedIsTheOnlyWinner(rules, q);
    var open := Answer(rules, q, |rules|).undecidable;
    if open != [] { assert open[0] in open && OpenFor(rules, box, open[0], s, d); }
  }

  lemma OpenIsARule(rules: seq<ResolvedRule>, box: Rectangle, k: nat, s: int, d: int)
    requires OpenFor(rules, box, k, s, d)
    ensures k < |rules|
  {
    hide StateOf, IntsOf;
    var q := box.Packet(s, d);
    var w := Winner(rules, q);
    InPositions(rules, q, Open, 0, if w.Some? then w.value else |rules|);
  }

  /** What is left undecided of a range: every packet has its one winner under every choice
      for the unread sides exactly when no reported rule may touch a packet that no splitter
      above it holds. So an empty report always means it; and outside MIXED it is needed,
      the rule named then being that winner for all of them. */
  lemma RangeDecidedExact(rules: seq<ResolvedRule>, box: Rectangle, v: Verdict)
    requires IsVerdict(rules, box, v) && !box.Empty()
    ensures AllCertain(rules, box) <==>
      forall k: nat :: k < |rules| && k in v.undecidable ==> !Unclaimed(rules, box, v.splitBy, k)
    ensures v.Decided() ==> AllCertain(rules, box)
    ensures !v.outcome.Mixed? ==> (v.Decided() <==> UniformInAll(rules, box, v.decidedBy))
  {
    hide IntsOf, ReachOf, OpenFor, Unclaimed, Certain, Answer, VerdictAt, StopsAt, IsVerdict, UniformInAll;
    ReportedAreRules(rules, box, v);
    forall k: nat | k < |rules|
      ensures !v.outcome.Mixed? ==> (k in v.undecidable <==> exists s, d :: OpenFor(rules, box, k, s, d))
      ensures k in v.undecidable && Unclaimed(rules, box, v.splitBy, k) <==> exists s, d :: OpenFor(rules, box, k, s, d)
    {
      RangeUndecidableExact(rules, box, v, k);
    }
    forall s, d | box.Contains(s, d)
      ensures Certain(rules, box.Packet(s, d)) <==> forall k: nat :: !OpenFor(rules, box, k, s, d)
    {
      OpenIsUncertain(rules, box, s, d);
    }
    forall k: nat, s, d | OpenFor(rules, box, k, s, d) ensures k < |rules| && box.Contains(s, d) {
      OpenIsARule(rules, box, k, s, d);
      OpenIsInside(rules, box, k, s, d);
    }
    if !AllCertain(rules, box) {
      var s, d :| box.Contains(s, d) && !Certain(rules, box.Packet(s, d));
      var k: nat :| OpenFor(rules, box, k, s, d);
      assert k < |rules|;
      assert k in v.undecidable && Unclaimed(rules, box, v.splitBy, k);
    }
    if v.undecidable != [] { assert v.undecidable[0] in v.undecidable; }
    if !v.outcome.Mixed? { UniformExact(rules, box, v); }
  }

  lemma ReportedAreRules(rules: seq<ResolvedRule>, box: Rectangle, v: Verdict)
    requires IsVerdict(rules, box, v)
    ensures forall k :: k in v.undecidable ==> k < |rules|
  {
    hide ReachOf;
    var stop: nat :| StopsAt(rules, box, stop) && v == VerdictAt(rules, box, stop);
    InReached(rules, box, Unread, stop);
  }

  lemma UniformExact(rules: seq<ResolvedRule>, box: Rectangle, v: Verdict)
    requires IsVerdict(rules, box, v) && !box.Empty() && !v.outcome.Mixed?
    ensures UniformInAll(rules, box, v.decidedBy) <==> AllCertain(rules, box)
  {
    hide IntsOf, ReachOf, StateOf, Winner, WinnerIn, IsVerdict;
    NamedIsUniform(rules, box, v);
  }

  lemma OpenIsInside(rules: seq<ResolvedRule>, box: Rectangle, k: nat, s: int, d: int)
    requires OpenFor(rules, box, k, s, d)
    ensures box.Contains(s, d)
  {
  }

  ghost function HiddenRules(): seq<ResolvedRule> {
    [HostRule("allow", {0}, []), HostRule("allow", {0}, []).(unresolvedDst := ["tag"])]
  }

  ghost function HiddenBox(): Rectangle { Rectangle(Of({0, 1}), Of({0}), 6, 80, None, None) }

  /** How a rule between hosts reaches a rectangle that ends at host 0. */
  lemma HostReach(r: ResolvedRule, sources: set<int>, box: Rectangle)
    requires NonNegative(sources) && r.(unresolvedDst := []) == HostRule(r.action, sources, [])
    requires box.destination.Ints() == {0} && RealService(box.protocol, box.port)
    requires box.srcZone == box.dstZone == None && sources * box.source.Ints() != {}
    ensures ReachOf(r, box) == if r.unresolvedDst != [] then Unread else if box.source.Ints() <= sources then
        Decides else Splits
  {
    hide IntsOf, Universe, ServiceSet.Serves, Canonical, BucketsOf, SizeOf, NamedProtocol;
    ServesAt(AnyService(), box.protocol, box.port);
    assert 0 in {0} * {0};
  }

  lemma HiddenReach()
    ensures ReachOf(HiddenRules()[0], HiddenBox()).Splits? && ReachOf(HiddenRules()[1], HiddenBox()).Unread?
  {
    hide ReachOf, IntsOf, Universe;
    assert 0 in {0} * {0, 1} && 1 in {0, 1} && 1 !in {0};
    HostReach(HiddenRules()[0], {0}, HiddenBox());
    HostReach(HiddenRules()[1], {0}, HiddenBox());
  }

  lemma HiddenIsClaimed(splitters: seq<nat>)
    requires 0 in splitters
    ensures !Unclaimed(HiddenRules(), HiddenBox(), splitters, 1) && !HiddenBox().Empty()
  {
    hide IntsOf, Universe;
    NonEmptyInts(HiddenBox().source.intervals);
    NonEmptyInts(HiddenBox().destination.intervals);
    assert 0 in {0, 1};
  }

  /** Under MIXED a rule can be reported that leaves nothing open: the first of these
      rules takes every packet of the rectangle that the second, of unread destination,
      could touch. */
  lemma SplitterHidesUnread(v: Verdict)
    requires IsVerdict(HiddenRules(), HiddenBox(), v)
    ensures v.outcome.Mixed? && 1 in v.undecidable
    ensures !exists s, d :: OpenFor(HiddenRules(), HiddenBox(), 1, s, d)
  {
    hide ReachOf, HiddenBox, OpenFor, HostRule, Unclaimed, Reached;
    var rules, box := HiddenRules(), HiddenBox();
    HiddenReach();
    var stop: nat :| StopsAt(rules, box, stop) && v == VerdictAt(rules, box, stop);
    assert stop == 2;
    InReached(rules, box, Splits, stop);
    InReached(rules, box, Unread, stop);
    HiddenIsClaimed(v.splitBy);
    RangeUndecidableExact(rules, box, v, 1);
  }
}
