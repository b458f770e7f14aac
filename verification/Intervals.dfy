/** Canonical sets of integers, kept as sorted runs of inclusive intervals.

    Every loop of the interval algebra is proved against the finite set of integers it
    stands for (`Ints`), and canonical form is proved extensional: `Of` and `Ints` are
    inverse bijections, so two canonical sets are equal exactly when they hold the same
    integers. */
module Intervals {
  import opened Common

  const IPV4_MAX := 0xFFFF_FFFF
  const IPV6_MAX := 0xFFFF_FFFF_FFFF_FFFF_FFFF_FFFF_FFFF_FFFF
  const PORT_MAX := 65535

  // The coarse prefilter: 64 buckets of 2^26 addresses.
  const SIGNATURE_BUCKETS := 64
  const BUCKET_SIZE := 0x400_0000

  datatype Interval = Interval(lo: int, hi: int) {
    predicate Holds(x: int) { lo <= x <= hi }
  }

  /** The set as the source stores it: the intervals plus two derived fields. The
      signature, a machine word there, is the set of its bit positions here. */
  datatype Stored = Stored(intervals: seq<Interval>, signature: set<int>, size: int) {
    ghost function Ints(): set<int> { IntsOf(intervals) }

    ghost predicate Valid() {
      && Canonical(intervals)
      && signature == BucketsOf(intervals)
      && size == SizeOf(intervals)
    }

    predicate IsEmpty() { intervals == [] }
  }

  type IntervalSet = s: Stored | s.Valid() witness Stored([], {}, 0)

  const EMPTY: IntervalSet := Stored([], {}, 0)

  /** Sorted, disjoint and non-adjacent. */
  ghost predicate Canonical(ivs: seq<Interval>) {
    && (forall i :: 0 <= i < |ivs| ==> 0 <= ivs[i].lo <= ivs[i].hi)
    && (forall i, j :: 0 <= i < j < |ivs| ==> ivs[i].hi + 1 < ivs[j].lo)
  }

  ghost predicate Covered(ivs: seq<Interval>, x: int) {
    exists i :: 0 <= i < |ivs| && ivs[i].Holds(x)
  }

  function Range(lo: int, hi: int): set<int> {
    set x | lo <= x <= hi && Interval(lo, hi).Holds(x)
  }

  ghost function IntsOf(ivs: seq<Interval>): set<int> {
    if ivs == [] then {} else IntsOf(ivs[..|ivs| - 1]) + Range(ivs[|ivs| - 1].lo, ivs[|ivs| - 1].hi)
  }

  lemma {:induction false} Members(ivs: seq<Interval>)
    ensures forall x :: x in IntsOf(ivs) <==> Covered(ivs, x)
  {
    if ivs != [] {
      var n := |ivs| - 1;
      Members(ivs[..n]);
      forall x ensures Covered(ivs, x) <==> Covered(ivs[..n], x) || ivs[n].Holds(x) {
        if Covered(ivs[..n], x) {
          var i :| 0 <= i < n && ivs[..n][i].Holds(x);
          assert ivs[i].Holds(x);
        }
        if Covered(ivs, x) {
          var i :| 0 <= i < |ivs| && ivs[i].Holds(x);
          if i < n { assert ivs[..n][i].Holds(x); }
        }
      }
    }
  }

  function SizeOf(ivs: seq<Interval>): int {
    if ivs == [] then 0 else SizeOf(ivs[..|ivs| - 1]) + ivs[|ivs| - 1].hi - ivs[|ivs| - 1].lo + 1
  }

  // ---------------------------------------------------------------- signature

  function AllBuckets(): set<int> { Range(0, SIGNATURE_BUCKETS - 1) }

  /** Everything past 32 bits sets every bit; otherwise exactly the touched buckets. */
  ghost function BucketsOf(ivs: seq<Interval>): set<int> {
    if exists i :: 0 <= i < |ivs| && ivs[i].hi > IPV4_MAX then AllBuckets()
    else set b | b in AllBuckets() && Touched(ivs, |ivs|, b)
  }

  ghost predicate Touched(ivs: seq<Interval>, n: nat, b: int)
    requires n <= |ivs|
  {
    exists i :: 0 <= i < n && Buckets(ivs[i]).Holds(b)
  }

  lemma BucketBounds(p: Interval)
    requires 0 <= p.lo <= p.hi <= IPV4_MAX
    ensures 0 <= Buckets(p).lo <= Buckets(p).hi < SIGNATURE_BUCKETS
  {
  }

  function Buckets(p: Interval): Interval { Interval(p.lo / BUCKET_SIZE, p.hi / BUCKET_SIZE) }

  method SignatureFor(ivs: seq<Interval>) returns (signature: set<int>)
    requires Canonical(ivs)
    ensures signature == BucketsOf(ivs)
  {
    signature := {};
    for k := 0 to |ivs|
      invariant forall i :: 0 <= i < k ==> ivs[i].hi <= IPV4_MAX
      invariant forall b :: b in signature <==> b in AllBuckets() && Touched(ivs, k, b)
    {
      if ivs[k].hi > IPV4_MAX { return AllBuckets(); }
      var first, last := Buckets(ivs[k]).lo, Buckets(ivs[k]).hi;
      BucketBounds(ivs[k]);
      assert forall b :: Touched(ivs, k + 1, b) <==> Touched(ivs, k, b) || Interval(first, last).Holds(b);
      if last - first >= SIGNATURE_BUCKETS - 1 {
        LastBucket(ivs, k);
        return AllBuckets();
      }
      ghost var before := signature;
      for bucket := first to last + 1
        invariant signature == before + Range(first, bucket - 1)
      {
        signature := signature + {bucket};
      }
    }
  }

  lemma LastBucket(ivs: seq<Interval>, k: nat)
    requires Canonical(ivs) && k < |ivs| && ivs[k].hi <= IPV4_MAX
    requires Buckets(ivs[k]).hi - Buckets(ivs[k]).lo >= SIGNATURE_BUCKETS - 1
    ensures BucketsOf(ivs) == AllBuckets()
  {
    forall b | b in AllBuckets() ensures Touched(ivs, |ivs|, b) {
      assert Buckets(ivs[k]).Holds(b);
    }
  }

  lemma FullSignature(a: IntervalSet, i: nat)
    requires i < |a.intervals| && a.intervals[i].hi > IPV4_MAX
    ensures a.signature == AllBuckets()
  {
  }

  /** A signature never misses an occupied region, and sets past 32 bits reject nothing. */
  lemma SignatureNeverMisses(a: IntervalSet, b: IntervalSet, x: int)
    requires x in a.Ints() && x in b.Ints()
    ensures a.signature * b.signature != {}
  {
    hide IntsOf;
    Members(a.intervals);
    Members(b.intervals);
    var i :| 0 <= i < |a.intervals| && a.intervals[i].Holds(x);
    var j :| 0 <= j < |b.intervals| && b.intervals[j].Holds(x);
    if x <= IPV4_MAX {
      var bucket := x / BUCKET_SIZE;
      assert Buckets(a.intervals[i]).Holds(bucket) && Buckets(b.intervals[j]).Holds(bucket);
      assert bucket in a.signature * b.signature;
    } else {
      assert 0 in a.signature * b.signature by {
        assert 0 in AllBuckets();
        FullSignature(a, i);
        FullSignature(b, j);
      }
    }
  }

  // ------------------------------------------------- size is the cardinality

  lemma {:induction false} RangeSize(lo: int, hi: int)
    requires lo <= hi + 1
    ensures |Range(lo, hi)| == hi - lo + 1
    decreases hi - lo + 1
  {
    if lo <= hi {
      RangeSize(lo, hi - 1);
      assert Range(lo, hi) == Range(lo, hi - 1) + {hi};
    }
  }

  lemma {:induction false} SizeIsCardinality(ivs: seq<Interval>)
    requires Canonical(ivs)
    ensures SizeOf(ivs) == |IntsOf(ivs)|
  {
    if ivs != [] {
      var n := |ivs| - 1;
      SizeIsCardinality(ivs[..n]);
      RangeSize(ivs[n].lo, ivs[n].hi);
      Members(ivs[..n]);
      assert IntsOf(ivs[..n]) !! Range(ivs[n].lo, ivs[n].hi);
    }
  }

  // ----------------------------------------------- canonical form is unique

  lemma FirstIsLeast(ivs: seq<Interval>)
    requires Canonical(ivs) && ivs != []
    ensures forall x :: x in IntsOf(ivs) ==> ivs[0].lo <= x
    ensures forall x :: x <= ivs[0].hi + 1 ==> (x in IntsOf(ivs) <==> ivs[0].Holds(x))
    ensures forall x :: x in IntsOf(ivs[1..]) <==> x in IntsOf(ivs) && x > ivs[0].hi
  {
    Members(ivs);
    Members(ivs[1..]);
    forall x ensures Covered(ivs[1..], x) <==> Covered(ivs, x) && x > ivs[0].hi {
      if Covered(ivs[1..], x) {
        var i :| 0 <= i < |ivs[1..]| && ivs[1..][i].Holds(x);
        assert ivs[i + 1].Holds(x);
      }
      if Covered(ivs, x) && x > ivs[0].hi {
        var i :| 0 <= i < |ivs| && ivs[i].Holds(x);
        assert ivs[1..][i - 1].Holds(x);
      }
    }
  }

  lemma SameFirst(a: seq<Interval>, b: seq<Interval>)
    requires Canonical(a) && Canonical(b) && a != [] && b != [] && IntsOf(a) == IntsOf(b)
    ensures a[0] == b[0] && IntsOf(a[1..]) == IntsOf(b[1..])
  {
    FirstIsLeast(a);
    FirstIsLeast(b);
    assert a[0].Holds(a[0].lo) && b[0].Holds(b[0].lo);
    assert a[0].lo == b[0].lo;
    assert !a[0].Holds(a[0].hi + 1) && !b[0].Holds(b[0].hi + 1);
    assert a[0].hi == b[0].hi;
  }

  lemma NonEmptyInts(ivs: seq<Interval>)
    requires Canonical(ivs)
    ensures ivs == [] <==> IntsOf(ivs) == {}
  {
    if ivs != [] {
      FirstIsLeast(ivs);
      assert ivs[0].lo in IntsOf(ivs);
    }
  }

  /** Two canonical interval lists holding the same integers are the same list. */
  lemma {:induction false} Extensional(a: seq<Interval>, b: seq<Interval>)
    requires Canonical(a) && Canonical(b) && IntsOf(a) == IntsOf(b)
    ensures a == b
  {
    hide IntsOf;
    if a == [] || b == [] {
      NonEmptyInts(a);
      NonEmptyInts(b);
    } else {
      SameFirst(a, b);
      Extensional(a[1..], b[1..]);
      assert a == [a[0]] + a[1..] && b == [b[0]] + b[1..];
    }
  }

  /** `a == b` in the source compares intervals; it is equality of the sets of integers. */
  lemma EqualIffSameInts(a: IntervalSet, b: IntervalSet)
    ensures a == b <==> a.Ints() == b.Ints()
    ensures a.intervals == b.intervals <==> a.Ints() == b.Ints()
  {
    if a.Ints() == b.Ints() { Extensional(a.intervals, b.intervals); }
  }

  ghost predicate NonNegative(d: set<int>) { forall x :: x in d ==> 0 <= x }

  lemma Greatest(d: set<int>) returns (m: int)
    requires d != {}
    ensures m in d && forall x :: x in d ==> x <= m
  {
    m := Pick(d);
    var rest := d - {m};
    while rest != {}
      invariant m in d && rest <= d && forall x :: x in d ==> x <= m || x in rest
    {
      var y := Pick(rest);
      if y > m { m := y; }
      rest := rest - {y};
    }
  }

  /** The start of the run of consecutive members of `d` that ends at `m`. */
  lemma RunStart(d: set<int>, m: int) returns (l: int)
    requires NonNegative(d) && m in d
    ensures 0 <= l <= m && l - 1 !in d && forall x :: l <= x <= m ==> x in d
  {
    l := m;
    while l - 1 in d
      invariant 0 <= l <= m && forall x :: l <= x <= m ==> x in d
      decreases l
    {
      l := l - 1;
    }
  }

  lemma {:induction false} CanonicalExists(d: set<int>) returns (ivs: seq<Interval>)
    requires NonNegative(d)
    ensures Canonical(ivs) && IntsOf(ivs) == d
  {
    if d == {} {
      ivs := [];
    } else {
      var m := Greatest(d);
      var l := RunStart(d, m);
      var rest := d - Range(l, m);
      assert m in d && m !in rest;
      var init := CanonicalExists(rest);
      AppendCanonical(init, l, m);
      ivs := init + [Interval(l, m)];
      AppendPoints(init, Interval(l, m));
    }
  }

  lemma AppendCanonical(init: seq<Interval>, l: int, m: int)
    requires Canonical(init) && 0 <= l <= m
    requires l - 1 !in IntsOf(init) && forall x :: x in IntsOf(init) ==> x < l
    ensures Canonical(init + [Interval(l, m)])
  {
    Members(init);
    forall i | 0 <= i < |init| ensures init[i].hi + 1 < l {
      assert init[i].Holds(init[i].hi);
      assert Covered(init, init[i].hi);
    }
  }

  /** The canonical form of a finite set of non-negative integers. */
  ghost function Of(d: set<int>): (s: IntervalSet)
    requires NonNegative(d)
    ensures s.Ints() == d
  {
    assert exists ivs :: Canonical(ivs) && IntsOf(ivs) == d by {
      var ivs := CanonicalExists(d);
    }
    var ivs :| Canonical(ivs) && IntsOf(ivs) == d;
    Stored(ivs, BucketsOf(ivs), SizeOf(ivs))
  }

  lemma IntsNonNegative(s: IntervalSet)
    ensures NonNegative(s.Ints())
  {
    Members(s.intervals);
  }

  /** `Of` inverts `Ints`, so `Of` is a bijection onto the canonical sets. */
  lemma OfInts(s: IntervalSet)
    ensures NonNegative(s.Ints()) && Of(s.Ints()) == s
  {
    IntsNonNegative(s);
    EqualIffSameInts(Of(s.Ints()), s);
  }

  // ------------------------------------------------------------ construction

  /** The constructor: trusts that its input is canonical, derives the other fields. */
  method New(ivs: seq<Interval>) returns (s: IntervalSet)
    requires Canonical(ivs)
    ensures s.intervals == ivs
  {
    var signature := SignatureFor(ivs);
    s := Stored(ivs, signature, SizeOf(ivs));
  }

  predicate SortedByLo(ps: seq<Interval>) {
    |ps| < 2 || (ps[0].lo <= ps[1].lo && SortedByLo(ps[1..]))
  }

  function Insert(p: Interval, ps: seq<Interval>): (r: seq<Interval>)
    requires SortedByLo(ps)
    ensures SortedByLo(r)
    ensures r != [] && (r[0] == p || (ps != [] && r[0] == ps[0]))
  {
    if ps == [] then [p]
    else if p.lo < ps[0].lo || (p.lo == ps[0].lo && p.hi <= ps[0].hi) then
      assert ([p] + ps)[1..] == ps;
      [p] + ps
    else
      var rest := Insert(p, ps[1..]);
      assert ([ps[0]] + rest)[1..] == rest;
      [ps[0]] + rest
  }

  /** Python's `sorted` on pairs. */
  function Sorted(ps: seq<Interval>): (r: seq<Interval>)
    ensures SortedByLo(r)
  {
    if ps == [] then [] else Insert(ps[0], Sorted(ps[1..]))
  }

  lemma {:induction false} InsertKeeps(p: Interval, ps: seq<Interval>)
    requires SortedByLo(ps)
    ensures forall q :: q in Insert(p, ps) <==> q == p || q in ps
  {
    if ps != [] { InsertKeeps(p, ps[1..]); }
  }

  lemma {:induction false} SortedKeeps(ps: seq<Interval>)
    ensures forall q :: q in Sorted(ps) <==> q in ps
  {
    if ps != [] {
      SortedKeeps(ps[1..]);
      InsertKeeps(ps[0], Sorted(ps[1..]));
    }
  }

  lemma {:induction false} SortedAt(ps: seq<Interval>, k: nat)
    requires SortedByLo(ps) && k + 1 < |ps|
    ensures ps[k].lo <= ps[k + 1].lo
  {
    if k > 0 { SortedAt(ps[1..], k - 1); }
  }

  function Proper(ps: seq<Interval>): (r: seq<Interval>)
    ensures forall p :: p in r <==> p in ps && p.lo <= p.hi
  {
    if ps == [] then [] else
      (if ps[0].lo <= ps[0].hi then [ps[0]] else []) + Proper(ps[1..])
  }

  /** Normalises arbitrary pairs: reversed pairs vanish, overlapping and adjacent ones
      merge, and the result holds exactly the integers some pair spans. */
  method FromPairs(pairs: seq<Interval>) returns (s: IntervalSet)
    requires forall p :: p in pairs && p.lo <= p.hi ==> 0 <= p.lo
    ensures s.Ints() == IntsOf(pairs)
  {
    var ordered := Sorted(Proper(pairs));
    SortedProperPoints(pairs);
    if ordered == [] { return EMPTY; }
    var merged := MergeSorted(ordered);
    s := New(merged);
  }

  /** The merging walk of `from_pairs`, over the sorted pairs. */
  method MergeSorted(ordered: seq<Interval>) returns (r: seq<Interval>)
    requires ordered != [] && SortedByLo(ordered)
    requires forall i :: 0 <= i < |ordered| ==> 0 <= ordered[i].lo <= ordered[i].hi
    ensures Canonical(r) && IntsOf(r) == IntsOf(ordered)
  {
    var merged: seq<Interval> := [];
    var current := ordered[0];
    for k := 1 to |ordered|
      invariant Canonical(merged + [current])
      invariant current.lo <= ordered[k - 1].lo
      invariant IntsOf(merged + [current]) == IntsOf(ordered[..k])
    {
      var p := ordered[k];
      SortedAt(ordered, k - 1);
      assert ordered[..k + 1] == ordered[..k] + [p];
      AppendPoints(ordered[..k], p);
      MergeStep(merged, current, p);
      if p.lo <= current.hi + 1 {
        if p.hi > current.hi { current := Interval(current.lo, p.hi); }
      } else {
        merged := merged + [current];
        current := p;
      }
    }
    assert ordered[..|ordered|] == ordered;
    r := merged + [current];
  }

  lemma MergeStep(merged: seq<Interval>, current: Interval, p: Interval)
    requires Canonical(merged + [current]) && current.lo <= p.lo <= p.hi
    ensures var joined := Interval(current.lo, if p.hi > current.hi then p.hi else current.hi);
      p.lo <= current.hi + 1 ==>
        Canonical(merged + [joined]) &&
        IntsOf(merged + [joined]) == IntsOf(merged + [current]) + Range(p.lo, p.hi)
    ensures p.lo > current.hi + 1 ==>
      Canonical(merged + [current] + [p]) &&
      IntsOf(merged + [current] + [p]) == IntsOf(merged + [current]) + Range(p.lo, p.hi)
  {
    hide IntsOf;
    var joined := Interval(current.lo, if p.hi > current.hi then p.hi else current.hi);
    var a, b := merged + [current], merged + [joined];
    assert a[|merged|] == current && b[|merged|] == joined;
    assert forall i :: 0 <= i < |merged| ==> a[i] == merged[i] && b[i] == merged[i];
    AppendPoints(merged, current);
    if p.lo <= current.hi + 1 {
      AppendPoints(merged, joined);
    } else {
      AppendPoints(a, p);
    }
  }

  lemma AppendPoints(ivs: seq<Interval>, p: Interval)
    ensures IntsOf(ivs + [p]) == IntsOf(ivs) + Range(p.lo, p.hi)
  {
    var r := ivs + [p];
    assert r[..|r| - 1] == ivs;
  }

  lemma SortedProperPoints(pairs: seq<Interval>)
    requires forall p :: p in pairs && p.lo <= p.hi ==> 0 <= p.lo
    ensures IntsOf(Sorted(Proper(pairs))) == IntsOf(pairs)
    ensures var r := Sorted(Proper(pairs)); forall i :: 0 <= i < |r| ==> 0 <= r[i].lo <= r[i].hi
  {
    var r := Sorted(Proper(pairs));
    SortedKeeps(Proper(pairs));
    forall i | 0 <= i < |r| ensures 0 <= r[i].lo <= r[i].hi { assert r[i] in r; }
    SamePairsSameInts(pairs, r);
  }

  lemma SamePairsSameInts(a: seq<Interval>, b: seq<Interval>)
    requires forall p :: p in b <==> p in a && p.lo <= p.hi
    ensures IntsOf(a) == IntsOf(b)
  {
    Members(a);
    Members(b);
    forall x ensures Covered(a, x) <==> Covered(b, x) {
      if Covered(a, x) {
        var i :| 0 <= i < |a| && a[i].Holds(x);
        assert a[i] in b;
      }
      if Covered(b, x) {
        var i :| 0 <= i < |b| && b[i].Holds(x);
        assert b[i] in a;
      }
    }
  }

  // -------------------------------------------------------------- operations

  function Max(x: int, y: int): int { if x > y then x else y }

  function Min(x: int, y: int): int { if x < y then x else y }

  predicate Meet(p: Interval, q: Interval) { p.lo <= q.hi && q.lo <= p.hi }

  /** No pair of intervals meets unless both are still ahead of the cursors. */
  ghost predicate ApartBefore(mine: seq<Interval>, theirs: seq<Interval>, i: nat, j: nat) {
    forall k, m :: 0 <= k < |mine| && 0 <= m < |theirs| && (k < i || m < j) ==> !Meet(mine[k], theirs[m])
  }

  lemma ApartMeansDisjoint(mine: seq<Interval>, theirs: seq<Interval>, i: nat, j: nat)
    requires ApartBefore(mine, theirs, i, j) && (i >= |mine| || j >= |theirs|)
    ensures IntsOf(mine) * IntsOf(theirs) == {}
  {
    Members(mine);
    Members(theirs);
    forall x | x in IntsOf(mine) && x in IntsOf(theirs) ensures false {
      var k :| 0 <= k < |mine| && mine[k].Holds(x);
      var m :| 0 <= m < |theirs| && theirs[m].Holds(x);
      assert Meet(mine[k], theirs[m]);
    }
  }

  lemma MeetShares(mine: seq<Interval>, theirs: seq<Interval>, i: nat, j: nat)
    requires Canonical(mine) && Canonical(theirs)
    requires i < |mine| && j < |theirs| && Meet(mine[i], theirs[j])
    ensures IntsOf(mine) * IntsOf(theirs) != {}
  {
    Members(mine);
    Members(theirs);
    var x := if mine[i].lo > theirs[j].lo then mine[i].lo else theirs[j].lo;
    assert mine[i].Holds(x) && theirs[j].Holds(x);
    assert x in IntsOf(mine) * IntsOf(theirs);
  }

  /** The hot test: the signature may reject first, the walk decides. */
  method Intersects(a: IntervalSet, b: IntervalSet) returns (r: bool)
    ensures r <==> a.Ints() * b.Ints() != {}
  {
    if a.signature * b.signature == {} {
      forall x | x in a.Ints() && x in b.Ints() ensures false { SignatureNeverMisses(a, b, x); }
      return false;
    }
    var mine, theirs := a.intervals, b.intervals;
    var i, j := 0, 0;
    while i < |mine| && j < |theirs|
      invariant 0 <= i <= |mine| && 0 <= j <= |theirs|
      invariant ApartBefore(mine, theirs, i, j)
      decreases |mine| - i + |theirs| - j
    {
      if mine[i].hi < theirs[j].lo {
        i := i + 1;
      } else if theirs[j].hi < mine[i].lo {
        j := j + 1;
      } else {
        MeetShares(mine, theirs, i, j);
        return true;
      }
    }
    ApartMeansDisjoint(mine, theirs, i, j);
    return false;
  }

  lemma GapAfter(ivs: seq<Interval>, i: nat)
    requires Canonical(ivs) && i < |ivs|
    ensures ivs[i].hi + 1 !in IntsOf(ivs)
  {
    Members(ivs);
  }

  /** `[lo, hi]` lies in a canonical set exactly when one of its intervals spans it. */
  lemma RunInOneInterval(ivs: seq<Interval>, p: Interval)
    requires Canonical(ivs) && p.lo <= p.hi
    ensures Range(p.lo, p.hi) <= IntsOf(ivs) <==>
            exists i :: 0 <= i < |ivs| && ivs[i].lo <= p.lo && p.hi <= ivs[i].hi
  {
    Members(ivs);
    if Range(p.lo, p.hi) <= IntsOf(ivs) {
      assert p.lo in Range(p.lo, p.hi);
      var i :| 0 <= i < |ivs| && ivs[i].Holds(p.lo);
      GapAfter(ivs, i);
      assert ivs[i].hi + 1 !in Range(p.lo, p.hi);
    }
    if exists i :: 0 <= i < |ivs| && ivs[i].lo <= p.lo && p.hi <= ivs[i].hi {
      var i :| 0 <= i < |ivs| && ivs[i].lo <= p.lo && p.hi <= ivs[i].hi;
      forall x | x in Range(p.lo, p.hi) ensures Covered(ivs, x) { assert ivs[i].Holds(x); }
    }
  }

  lemma NoInts(ivs: seq<Interval>)
    requires ivs == []
    ensures IntsOf(ivs) == {}
  {
  }

  /** The shadowing test: the size comparison may reject first, the walk decides. */
  method ContainsSet(a: IntervalSet, b: IntervalSet) returns (r: bool)
    ensures r <==> b.Ints() <= a.Ints()
  {
    hide IntsOf;
    var mine, theirs := a.intervals, b.intervals;
    NoInts(theirs[..0]);
    if theirs == [] { return true; }
    if b.size > a.size {
      SizeIsCardinality(mine);
      SizeIsCardinality(theirs);
      if b.Ints() <= a.Ints() { SubsetSize(b.Ints(), a.Ints()); }
      return false;
    }
    var i := 0;
    for k := 0 to |theirs|
      invariant 0 <= i <= |mine|
      invariant forall m :: 0 <= m < i && k < |theirs| ==> mine[m].hi < theirs[k].lo
      invariant IntsOf(theirs[..k]) <= a.Ints()
    {
      var p := theirs[k];
      while i < |mine| && mine[i].hi < p.lo
        invariant 0 <= i <= |mine|
        invariant forall m :: 0 <= m < i ==> mine[m].hi < p.lo
      {
        i := i + 1;
      }
      RunInOneInterval(mine, p);
      assert theirs[..k + 1] == theirs[..k] + [p];
      AppendPoints(theirs[..k], p);
      if i == |mine| || mine[i].lo > p.lo || mine[i].hi < p.hi {
        PrefixInts(theirs, k + 1);
        return false;
      }
    }
    assert theirs[..|theirs|] == theirs;
    return true;
  }

  lemma PrefixInts(ivs: seq<Interval>, k: nat)
    requires k <= |ivs|
    ensures IntsOf(ivs[..k]) <= IntsOf(ivs)
  {
    Members(ivs);
    Members(ivs[..k]);
    forall x | Covered(ivs[..k], x) ensures Covered(ivs, x) {
      var i :| 0 <= i < k && ivs[..k][i].Holds(x);
      assert ivs[i].Holds(x);
    }
  }

  /** The walk of `intersection`: `result` is the overlap the cursors have passed. */
  ghost predicate OverlapSoFar(mine: seq<Interval>, theirs: seq<Interval>, i: nat, j: nat, result: seq<Interval>) {
    && i <= |mine| && j <= |theirs|
    && Canonical(result)
    && (result != [] && i < |mine| && j < |theirs| ==>
          result[|result| - 1].hi + 1 < mine[i].lo || result[|result| - 1].hi + 1 < theirs[j].lo)
    && IntsOf(mine) * IntsOf(theirs) == IntsOf(result) + IntsOf(mine[i..]) * IntsOf(theirs[j..])
  }

  function Overlap(p: Interval, q: Interval): Interval {
    Interval(Max(p.lo, q.lo), Min(p.hi, q.hi))
  }

  function Extend(result: seq<Interval>, p: Interval): seq<Interval> {
    if p.lo <= p.hi then result + [p] else result
  }

  method Intersection(a: IntervalSet, b: IntervalSet) returns (r: IntervalSet)
    ensures r.Ints() == a.Ints() * b.Ints()
  {
    hide IntsOf;
    var mine, theirs := a.intervals, b.intervals;
    var result: seq<Interval> := [];
    NoInts(result);
    if a.signature * b.signature == {} {
      forall x | x in a.Ints() && x in b.Ints() ensures false { SignatureNeverMisses(a, b, x); }
      return EMPTY;
    }
    var i, j := 0, 0;
    assert mine[0..] == mine && theirs[0..] == theirs;
    while i < |mine| && j < |theirs|
      invariant OverlapSoFar(mine, theirs, i, j, result)
      decreases |mine| - i + |theirs| - j
    {
      var p, q := mine[i], theirs[j];
      OverlapStep(mine, theirs, i, j, result);
      var shared := Overlap(p, q);
      if shared.lo <= shared.hi { result := result + [shared]; }
      if p.hi < q.hi {
        i := i + 1;
      } else {
        j := j + 1;
      }
    }
    NoInts(mine[|mine|..]);
    NoInts(theirs[|theirs|..]);
    r := New(result);
  }

  lemma OverlapStep(mine: seq<Interval>, theirs: seq<Interval>, i: nat, j: nat, result: seq<Interval>)
    requires Canonical(mine) && Canonical(theirs) && i < |mine| && j < |theirs|
    requires OverlapSoFar(mine, theirs, i, j, result)
    ensures var next := Extend(result, Overlap(mine[i], theirs[j]));
      if mine[i].hi < theirs[j].hi then OverlapSoFar(mine, theirs, i + 1, j, next)
      else OverlapSoFar(mine, theirs, i, j + 1, next)
  {
    hide IntsOf;
    var shared := Overlap(mine[i], theirs[j]);
    var next := Extend(result, shared);
    ExtendOverlap(result, shared);
    SuffixStep(mine, theirs, i, j);
    if mine[i].hi < theirs[j].hi {
      assert IntsOf(mine) * IntsOf(theirs) == IntsOf(next) + IntsOf(mine[i + 1..]) * IntsOf(theirs[j..]);
    } else {
      assert IntsOf(mine) * IntsOf(theirs) == IntsOf(next) + IntsOf(mine[i..]) * IntsOf(theirs[j + 1..]);
    }
  }

  lemma SuffixStep(mine: seq<Interval>, theirs: seq<Interval>, i: nat, j: nat)
    requires Canonical(mine) && Canonical(theirs) && i < |mine| && j < |theirs|
    ensures var shared := Overlap(mine[i], theirs[j]);
      IntsOf(mine[i..]) * IntsOf(theirs[j..]) == Range(shared.lo, shared.hi) +
        if mine[i].hi < theirs[j].hi then IntsOf(mine[i + 1..]) * IntsOf(theirs[j..])
        else IntsOf(mine[i..]) * IntsOf(theirs[j + 1..])
  {
    IntersectionStep(mine[i..], theirs[j..]);
    assert mine[i..][1..] == mine[i + 1..] && theirs[j..][1..] == theirs[j + 1..];
  }

  lemma ExtendOverlap(result: seq<Interval>, p: Interval)
    requires Canonical(result) && 0 <= p.lo
    requires result != [] ==> result[|result| - 1].hi + 1 < p.lo
    ensures Canonical(Extend(result, p)) && IntsOf(Extend(result, p)) == IntsOf(result) + Range(p.lo, p.hi)
  {
    if p.lo <= p.hi {
      AppendOverlap(result, p);
      AppendPoints(result, p);
    }
  }

  lemma AppendOverlap(result: seq<Interval>, p: Interval)
    requires Canonical(result) && 0 <= p.lo <= p.hi
    requires result != [] ==> result[|result| - 1].hi + 1 < p.lo
    ensures Canonical(result + [p])
  {
    var r := result + [p];
    assert r[|result|] == p;
    forall i | 0 <= i < |result| ensures r[i] == result[i] && result[i].hi + 1 < p.lo {
      if i < |result| - 1 { assert result[i].hi + 1 < result[|result| - 1].lo; }
    }
  }

  /** Dropping whichever head ends first loses exactly the overlap of the two heads. */
  lemma IntersectionStep(mine: seq<Interval>, theirs: seq<Interval>)
    requires Canonical(mine) && Canonical(theirs) && mine != [] && theirs != []
    ensures var p, q := mine[0], theirs[0];
      var lo, hi := Max(p.lo, q.lo), Min(p.hi, q.hi);
      IntsOf(mine) * IntsOf(theirs) == Range(lo, hi) +
        if p.hi < q.hi then IntsOf(mine[1..]) * IntsOf(theirs) else IntsOf(mine) * IntsOf(theirs[1..])
  {
    FirstIsLeast(mine);
    FirstIsLeast(theirs);
  }

  method Union(a: IntervalSet, b: IntervalSet) returns (r: IntervalSet)
    ensures r.Ints() == a.Ints() + b.Ints()
  {
    if a.intervals == [] { return b; }
    if b.intervals == [] { return a; }
    ConcatInts(a.intervals, b.intervals);
    assert forall p :: p in a.intervals + b.intervals ==> p in a.intervals || p in b.intervals;
    r := FromPairs(a.intervals + b.intervals);
  }

  lemma ConcatInts(a: seq<Interval>, b: seq<Interval>)
    ensures IntsOf(a + b) == IntsOf(a) + IntsOf(b)
  {
    Members(a);
    Members(b);
    Members(a + b);
    forall x ensures Covered(a + b, x) <==> Covered(a, x) || Covered(b, x) {
      if Covered(a, x) { var i :| 0 <= i < |a| && a[i].Holds(x); assert (a + b)[i].Holds(x); }
      if Covered(b, x) { var i :| 0 <= i < |b| && b[i].Holds(x); assert (a + b)[|a| + i].Holds(x); }
    }
  }

  /** The walk of `complement`: `result` holds the gaps up to the cursor. */
  ghost predicate GapsSoFar(ivs: seq<Interval>, k: nat, lo: int, hi: int, cursor: int, result: seq<Interval>) {
    && k <= |ivs|
    && 0 <= lo <= cursor
    && Canonical(result)
    && (result != [] ==> result[|result| - 1].hi + 1 < cursor)
    && (forall x :: x in IntsOf(result) <==> lo <= x < cursor && x <= hi && x !in IntsOf(ivs))
    && (forall i :: 0 <= i < k ==> ivs[i].hi < cursor)
  }

  /** Everything in `[universeLo, universeHi]` that the set does not hold. */
  method Complement(s: IntervalSet, universeHi: int, universeLo: int := 0) returns (r: IntervalSet)
    requires 0 <= universeLo
    ensures r.Ints() == Range(universeLo, universeHi) - s.Ints()
  {
    hide IntsOf, GapsSoFar, Canonical;
    var ivs := s.intervals;
    var result: seq<Interval> := [];
    var cursor := universeLo;
    GapsStart(ivs, universeLo, universeHi);
    var k := 0;
    while k < |ivs| && ivs[k].lo <= universeHi && cursor <= universeHi
      invariant k <= |ivs| && GapsSoFar(ivs, k, universeLo, universeHi, cursor, result)
    {
      var p := ivs[k];
      GapStep(ivs, k, universeLo, universeHi, cursor, result);
      if p.lo > cursor {
        result := result + [Interval(cursor, Min(p.lo - 1, universeHi))];
      }
      cursor := Max(cursor, p.hi + 1);
      k := k + 1;
    }
    NothingLeft(ivs, k, universeLo, universeHi, cursor, result);
    if cursor <= universeHi {
      result := result + [Interval(cursor, universeHi)];
    }
    r := New(result);
  }

  lemma GapsStart(ivs: seq<Interval>, lo: int, hi: int)
    requires 0 <= lo
    ensures GapsSoFar(ivs, 0, lo, hi, lo, [])
  {
  }

  lemma NothingLeft(ivs: seq<Interval>, k: nat, lo: int, hi: int, cursor: int, result: seq<Interval>)
    requires Canonical(ivs) && GapsSoFar(ivs, k, lo, hi, cursor, result)
    requires cursor <= hi ==> k == |ivs| || ivs[k].lo > hi
    ensures Canonical(Extend(result, Interval(cursor, hi)))
    ensures IntsOf(Extend(result, Interval(cursor, hi))) == Range(lo, hi) - IntsOf(ivs)
  {
    hide IntsOf;
    Members(ivs);
    forall x | cursor <= x <= hi ensures !Covered(ivs, x) {
      forall i | 0 <= i < |ivs| ensures !ivs[i].Holds(x) { }
    }
    ExtendOverlap(result, Interval(cursor, hi));
  }

  lemma AroundInterval(ivs: seq<Interval>, k: nat, cursor: int)
    requires Canonical(ivs) && k < |ivs| && forall i :: 0 <= i < k ==> ivs[i].hi < cursor
    ensures forall x :: cursor <= x <= ivs[k].hi ==> (x in IntsOf(ivs) <==> ivs[k].lo <= x)
  {
    Members(ivs);
    forall x | cursor <= x <= ivs[k].hi ensures Covered(ivs, x) <==> ivs[k].lo <= x {
      if ivs[k].lo <= x { assert ivs[k].Holds(x); }
      forall i | 0 <= i < |ivs| && i != k ensures !ivs[i].Holds(x) { }
    }
  }

  lemma GapStep(ivs: seq<Interval>, k: nat, lo: int, hi: int, cursor: int, result: seq<Interval>)
    requires Canonical(ivs) && k < |ivs| && ivs[k].lo <= hi
    requires GapsSoFar(ivs, k, lo, hi, cursor, result)
    ensures ivs[k].lo > cursor ==>
      GapsSoFar(ivs, k + 1, lo, hi, Max(cursor, ivs[k].hi + 1), result + [Interval(cursor, Min(ivs[k].lo - 1, hi))])
    ensures ivs[k].lo <= cursor ==> GapsSoFar(ivs, k + 1, lo, hi, Max(cursor, ivs[k].hi + 1), result)
  {
    hide IntsOf;
    var p := ivs[k];
    var gap := Interval(cursor, p.lo - 1);
    AroundInterval(ivs, k, cursor);
    ExtendOverlap(result, gap);
    assert Extend(result, gap) == if p.lo > cursor then result + [gap] else result;
    var past := Max(cursor, p.hi + 1);
    forall x ensures x in IntsOf(Extend(result, gap)) <==> lo <= x < past && x <= hi && x !in IntsOf(ivs) {
      assert x in IntsOf(Extend(result, gap)) <==> x in IntsOf(result) || gap.Holds(x);
      if x < cursor {} else if x <= p.hi {} else {}
    }
  }

  /** Binary search for one value. */
  method CoversValue(s: IntervalSet, value: int) returns (r: bool)
    ensures r <==> value in s.Ints()
  {
    var ivs := s.intervals;
    Members(ivs);
    var low, high := 0, |ivs| - 1;
    while low <= high
      invariant 0 <= low <= high + 1 <= |ivs|
      invariant forall i :: 0 <= i < low ==> ivs[i].hi < value
      invariant forall i :: high < i < |ivs| ==> value < ivs[i].lo
      decreases high - low
    {
      var mid := (low + high) / 2;
      if value < ivs[mid].lo {
        high := mid - 1;
      } else if value > ivs[mid].hi {
        low := mid + 1;
      } else {
        assert ivs[mid].Holds(value);
        return true;
      }
    }
    return false;
  }

  // ------------------------------------------------- the algebra of complement

  /** The canonical forms the methods above compute, named so that laws can relate them. */
  ghost function UnionOf(a: IntervalSet, b: IntervalSet): (r: IntervalSet)
    ensures r.Ints() == a.Ints() + b.Ints()
  {
    IntsNonNegative(a);
    IntsNonNegative(b);
    Of(a.Ints() + b.Ints())
  }

  ghost function IntersectionOf(a: IntervalSet, b: IntervalSet): (r: IntervalSet)
    ensures r.Ints() == a.Ints() * b.Ints()
  {
    IntsNonNegative(a);
    Of(a.Ints() * b.Ints())
  }

  ghost function ComplementOf(s: IntervalSet, hi: int): (r: IntervalSet)
    ensures r.Ints() == Range(0, hi) - s.Ints()
  {
    Of(Range(0, hi) - s.Ints())
  }

  /** Complementing twice keeps exactly the part inside the universe; it is the identity
      on, and only on, sets that lie inside. */
  lemma DoubleComplement(s: IntervalSet, hi: int)
    ensures ComplementOf(ComplementOf(s, hi), hi).Ints() == s.Ints() * Range(0, hi)
    ensures ComplementOf(ComplementOf(s, hi), hi) == s <==> s.Ints() <= Range(0, hi)
  {
    EqualIffSameInts(ComplementOf(ComplementOf(s, hi), hi), s);
  }

  lemma DeMorgan(a: IntervalSet, b: IntervalSet, hi: int)
    ensures ComplementOf(UnionOf(a, b), hi) == IntersectionOf(ComplementOf(a, hi), ComplementOf(b, hi))
    ensures ComplementOf(IntersectionOf(a, b), hi) == UnionOf(ComplementOf(a, hi), ComplementOf(b, hi))
  {
    EqualIffSameInts(ComplementOf(UnionOf(a, b), hi), IntersectionOf(ComplementOf(a, hi), ComplementOf(b, hi)));
    EqualIffSameInts(ComplementOf(IntersectionOf(a, b), hi), UnionOf(ComplementOf(a, hi), ComplementOf(b, hi)));
  }
}
