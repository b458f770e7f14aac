/** The sliding-window limiter in front of the authentication endpoints. */
module RateLimit {
  import opened Common

  /** Buckets are only swept once there are this many. */
  const PRUNE_AT := 1024

  datatype Limits = Limits(maxRequests: nat, windowSeconds: int) {
    // With no allowance at all the code reads the head of an empty window.
    predicate Valid() { maxRequests >= 1 }
  }

  type Hits = map<string, seq<real>>

  datatype Outcome = Passed | Admitted | Limited(retryAfter: int)

  /** The hits of a window that are not older than `windowSeconds`. */
  function Recent(l: Limits, window: seq<real>, now: real): seq<real> {
    if window != [] && now - window[0] > l.windowSeconds as real then Recent(l, window[1..], now) else window
  }

  function Bucket(hits: Hits, key: string): seq<real> { if key in hits then hits[key] else [] }

  predicate Expired(l: Limits, window: seq<real>, now: real) {
    window == [] || now - window[|window| - 1] > l.windowSeconds as real
  }

  function Pruned(l: Limits, hits: Hits, now: real): Hits {
    if |hits| < PRUNE_AT then hits
    else map key | key in hits && !Expired(l, hits[key], now) :: hits[key]
  }

  function Step(l: Limits, hits: Hits, key: string, now: real): (Hits, Outcome)
    requires l.Valid()
  {
    var window := Recent(l, Bucket(hits, key), now);
    if |window| >= l.maxRequests then
      (hits[key := window], Limited((l.windowSeconds as real - (now - window[0])).Floor + 1))
    else (Pruned(l, hits[key := window + [now]], now), Admitted)
  }

  predicate Guarded(paths: seq<string>, path: string) { exists i :: 0 <= i < |paths| && paths[i] <= path }

  class RateLimiter {
    const limits: Limits
    const paths: seq<string>
    var hits: Hits

    constructor (limits: Limits, paths: seq<string>)
      ensures this.limits == limits && this.paths == paths && hits == map[]
    {
      this.limits, this.paths, hits := limits, paths, map[];
    }

    method Dispatch(path: string, key: string, now: real) returns (outcome: Outcome)
      requires limits.Valid()
      modifies this
      ensures !Guarded(paths, path) ==> outcome == Passed && hits == old(hits)
      ensures Guarded(paths, path) ==> (hits, outcome) == Step(limits, old(hits), key, now)
    {
      if !Guarded(paths, path) { return Passed; }
      var window := Bucket(hits, key);
      while window != [] && now - window[0] > limits.windowSeconds as real
        invariant Recent(limits, window, now) == Recent(limits, Bucket(old(hits), key), now)
        invariant hits == old(hits)
      {
        window := window[1..];
      }
      if |window| >= limits.maxRequests {
        hits := hits[key := window];
        return Limited((limits.windowSeconds as real - (now - window[0])).Floor + 1);
      }
      hits := hits[key := window + [now]];
      Prune(now);
      return Admitted;
    }

    method Prune(now: real)
      modifies this
      ensures hits == Pruned(limits, old(hits), now)
    {
      if |hits| < PRUNE_AT { return; }
      var doomed := set key | key in hits && Expired(limits, hits[key], now);
      hits := hits - doomed;
    }
  }

  // ------------------------------------------------------------------- runs

  datatype Request = Request(key: string, now: real)

  function After(l: Limits, run: seq<Request>): Hits
    requires l.Valid()
  {
    if run == [] then map[]
    else Step(l, After(l, run[..|run| - 1]), run[|run| - 1].key, run[|run| - 1].now).0
  }

  function OutcomeOfLast(l: Limits, run: seq<Request>): Outcome
    requires l.Valid() && run != []
  {
    Step(l, After(l, run[..|run| - 1]), run[|run| - 1].key, run[|run| - 1].now).1
  }

  /** The moments at which requests on `key` were let through, in order. */
  function AdmittedAt(l: Limits, run: seq<Request>, key: string): seq<real>
    requires l.Valid()
  {
    if run == [] then []
    else
      AdmittedAt(l, run[..|run| - 1], key) +
      (if run[|run| - 1].key == key && OutcomeOfLast(l, run).Admitted? then [run[|run| - 1].now] else [])
  }

  /** The clock never runs backwards. */
  predicate Monotone(run: seq<Request>) {
    forall i, j :: 0 <= i <= j < |run| ==> run[i].now <= run[j].now
  }

  predicate NoLaterThan(run: seq<Request>, now: real) { run == [] || run[|run| - 1].now <= now }

  /** A bucket is the tail of the admissions; what it lacks is out of the window for good. */
  ghost predicate Tail(l: Limits, admitted: seq<real>, window: seq<real>, now: real) {
    && |window| <= |admitted| && |window| <= l.maxRequests
    && admitted[|admitted| - |window|..] == window
    && (forall i :: 0 <= i < |admitted| - |window| ==> now - admitted[i] > l.windowSeconds as real)
    && (forall i :: 0 <= i < |admitted| ==> admitted[i] <= now)
    && (forall i, j :: 0 <= i <= j < |admitted| ==> admitted[i] <= admitted[j])
  }

  lemma TailLater(l: Limits, admitted: seq<real>, window: seq<real>, now: real, later: real)
    requires Tail(l, admitted, window, now) && now <= later
    ensures Tail(l, admitted, window, later)
  {
  }

  lemma {:induction false} TailRecent(l: Limits, admitted: seq<real>, window: seq<real>, now: real)
    requires Tail(l, admitted, window, now)
    ensures Tail(l, admitted, Recent(l, window, now), now)
    decreases |window|
  {
    if window != [] && now - window[0] > l.windowSeconds as real {
      var rest := window[1..];
      var cut := |admitted| - |window|;
      assert admitted[cut] == admitted[cut..][0];
      assert admitted[cut + 1..] == admitted[cut..][1..];
      TailRecent(l, admitted, rest, now);
    }
  }

  lemma TailExpired(l: Limits, admitted: seq<real>, window: seq<real>, now: real)
    requires Tail(l, admitted, window, now) && Expired(l, window, now)
    ensures Tail(l, admitted, [], now)
  {
    var cut := |admitted| - |window|;
    forall i | 0 <= i < |admitted| ensures now - admitted[i] > l.windowSeconds as real {
      if i >= cut { assert admitted[i] <= admitted[|admitted| - 1] == admitted[cut..][|window| - 1]; }
    }
  }

  lemma TailAppend(l: Limits, admitted: seq<real>, window: seq<real>, now: real)
    requires Tail(l, admitted, window, now) && |window| < l.maxRequests
    ensures Tail(l, admitted + [now], window + [now], now)
  {
    var cut := |admitted| - |window|;
    assert (admitted + [now])[cut..] == admitted[cut..] + [now];
  }

  /** Over every run each bucket is such a tail, sweeps included. */
  lemma {:induction false} BucketsAreTails(l: Limits, run: seq<Request>, key: string, now: real)
    requires l.Valid() && Monotone(run) && NoLaterThan(run, now)
    ensures Tail(l, AdmittedAt(l, run, key), Bucket(After(l, run), key), now)
    decreases |run|
  {
    hide Tail, Step, Recent, After, AdmittedAt, Monotone, NoLaterThan, Bucket;
    if run == [] {
      EmptyTail(l, key, now);
    } else {
      var n := |run| - 1;
      EarlierRun(run, now);
      BucketsAreTails(l, run[..n], key, run[n].now);
      RunKeepsTail(l, run, key);
      TailLater(l, AdmittedAt(l, run, key), Bucket(After(l, run), key), run[n].now, now);
    }
  }

  lemma EmptyTail(l: Limits, key: string, now: real)
    requires l.Valid()
    ensures Tail(l, AdmittedAt(l, [], key), Bucket(After(l, []), key), now)
  {
  }

  lemma RunKeepsTail(l: Limits, run: seq<Request>, key: string)
    requires l.Valid() && run != []
    requires var n := |run| - 1; Tail(l, AdmittedAt(l, run[..n], key), Bucket(After(l, run[..n]), key), run[n].now)
    ensures Tail(l, AdmittedAt(l, run, key), Bucket(After(l, run), key), run[|run| - 1].now)
  {
    hide Tail, Step, Recent, Bucket;
    var n := |run| - 1;
    var before := AdmittedAt(l, run[..n], key);
    StepKeepsTail(l, After(l, run[..n]), before, key, run[n]);
    assert before + [] == before;
  }

  lemma EarlierRun(run: seq<Request>, now: real)
    requires Monotone(run) && run != [] && NoLaterThan(run, now)
    ensures Monotone(run[..|run| - 1]) && NoLaterThan(run[..|run| - 1], run[|run| - 1].now) && run[|run| - 1].now <= now
  {
  }

  lemma StepKeepsTail(l: Limits, hits: Hits, admitted: seq<real>, key: string, r: Request)
    requires l.Valid() && Tail(l, admitted, Bucket(hits, key), r.now)
    ensures var (after, outcome) := Step(l, hits, r.key, r.now);
      Tail(l, if r.key == key && outcome.Admitted? then admitted + [r.now] else admitted, Bucket(after, key), r.now)
  {
    hide Tail, Expired;
    var window := Recent(l, Bucket(hits, r.key), r.now);
    if r.key == key { TailRecent(l, admitted, Bucket(hits, key), r.now); }
    if |window| < l.maxRequests {
      var kept := hits[r.key := window + [r.now]];
      if r.key == key { TailAppend(l, admitted, window, r.now); }
      var whole := if r.key == key then admitted + [r.now] else admitted;
      if key in kept && Expired(l, kept[key], r.now) { TailExpired(l, whole, kept[key], r.now); }
    }
  }

  /** Any two admissions on one key that share a closed window are fewer than the limit
      apart in the sequence of admissions. */
  lemma {:induction false} AdmissionsSpread(l: Limits, run: seq<Request>, key: string, i: nat, j: nat)
    requires l.Valid() && Monotone(run)
    requires i <= j < |AdmittedAt(l, run, key)|
    requires AdmittedAt(l, run, key)[j] - AdmittedAt(l, run, key)[i] <= l.windowSeconds as real
    ensures j - i < l.maxRequests
  {
    hide Tail, Recent, Bucket, After, Limits.Valid;
    EarlierRun(run, run[|run| - 1].now);
    var n := |run| - 1;
    var last := run[n];
    var before := AdmittedAt(l, run[..n], key);
    if j < |before| {
      AdmissionsSpread(l, run[..n], key, i, j);
    } else {
      BucketsAreTails(l, run[..n], key, last.now);
      TailRecent(l, before, Bucket(After(l, run[..n]), key), last.now);
    }
  }

  ghost function AdmittedWithin(l: Limits, run: seq<Request>, key: string, from: real): set<nat>
    requires l.Valid()
  {
    set i | 0 <= i < |AdmittedAt(l, run, key)| &&
            from <= AdmittedAt(l, run, key)[i] <= from + l.windowSeconds as real
  }

  lemma {:induction false} RangeBound(s: set<nat>, lo: nat, n: nat)
    requires forall i :: i in s ==> lo <= i < lo + n
    ensures |s| <= n
    decreases n
  {
    if n > 0 {
      RangeBound(s - {lo + n - 1}, lo, n - 1);
      assert s <= (s - {lo + n - 1}) + {lo + n - 1};
      if lo + n - 1 in s { assert s == (s - {lo + n - 1}) + {lo + n - 1}; } else { assert s == s - {lo + n - 1}; }
    } else {
      assert forall i :: i !in s;
      assert s == {};
    }
  }

  lemma {:induction false} Least(s: set<nat>, bound: nat) returns (m: nat)
    requires s != {} && bound in s
    ensures m in s && forall i :: i in s ==> m <= i
    decreases bound
  {
    var below := set i | i in s && i < bound;
    if below == {} {
      m := bound;
      assert forall i :: i in s && i < bound ==> i in below;
    } else {
      m := Least(s, Pick(below));
    }
  }

  /** Every closed interval of `windowSeconds` holds at most `maxRequests` admissions of
      any one key, over every run, although buckets are forgotten along the way. */
  lemma WindowLimit(l: Limits, run: seq<Request>, key: string, from: real)
    requires l.Valid() && Monotone(run)
    ensures |AdmittedWithin(l, run, key, from)| <= l.maxRequests
  {
    var within := AdmittedWithin(l, run, key, from);
    if within != {} {
      var m := Least(within, Pick(within));
      forall i | i in within ensures m <= i < m + l.maxRequests { AdmissionsSpread(l, run, key, m, i); }
      RangeBound(within, m, l.maxRequests);
    }
  }

  // ------------------------------------------------------------- retrying

  /** Serving more requests from a given table. */
  function Continue(l: Limits, hits: Hits, run: seq<Request>): Hits
    requires l.Valid()
  {
    if run == [] then hits else
      var last := run[|run| - 1];
      Step(l, Continue(l, hits, run[..|run| - 1]), last.key, last.now).0
  }

  predicate OnOtherKeys(run: seq<Request>, key: string, now: real) {
    forall i :: 0 <= i < |run| ==> run[i].key != key && run[i].now <= now
  }

  /** Requests on other keys leave a bucket alone, or sweep it once it has expired. */
  lemma {:induction false} OthersKeepBucket(l: Limits, hits: Hits, run: seq<Request>, key: string, now: real)
    requires l.Valid() && OnOtherKeys(run, key, now)
    ensures var w := Bucket(Continue(l, hits, run), key);
      w == Bucket(hits, key) || (w == [] && Expired(l, Bucket(hits, key), now))
  {
    if run != [] {
      var n := |run| - 1;
      OthersKeepBucket(l, hits, run[..n], key, now);
    }
  }

  lemma {:induction false} RecentDrops(l: Limits, window: seq<real>, now: real)
    requires window != [] && now - window[0] > l.windowSeconds as real
    ensures |Recent(l, window, now)| < |window|
    decreases |window|
  {
    RecentShrinks(l, window[1..], now);
  }

  lemma {:induction false} RecentShrinks(l: Limits, window: seq<real>, now: real)
    ensures |Recent(l, window, now)| <= |window|
    decreases |window|
  {
    if window != [] && now - window[0] > l.windowSeconds as real { RecentShrinks(l, window[1..], now); }
  }

  lemma {:induction false} RecentHead(l: Limits, window: seq<real>, now: real)
    ensures var w := Recent(l, window, now); w != [] ==> now - w[0] <= l.windowSeconds as real
    decreases |window|
  {
    if window != [] && now - window[0] > l.windowSeconds as real { RecentHead(l, window[1..], now); }
  }

  /** A limited client that waits the advertised time, with no other request on its key,
      is admitted, whatever happens on other keys meanwhile; and the advertised time is
      the least such number of whole seconds. */
  lemma RetryAfterExact(l: Limits, run: seq<Request>, others: seq<Request>, retry: real)
    requires l.Valid() && Monotone(run) && run != [] && OutcomeOfLast(l, run).Limited?
    requires var last := run[|run| - 1]; OnOtherKeys(others, last.key, retry) && last.now <= retry
    ensures var last := run[|run| - 1];
      var again := Step(l, Continue(l, After(l, run), others), last.key, retry).1;
      var wait := OutcomeOfLast(l, run).retryAfter as real;
      && (retry >= last.now + wait ==> again.Admitted?)
      && (retry <= last.now + wait - 1.0 ==> again.Limited?)
  {
    var n := |run| - 1;
    var last := run[n];
    EarlierRun(run, last.now);
    BucketsAreTails(l, run, last.key, last.now);
    var before := Bucket(After(l, run[..n]), last.key);
    var w := Recent(l, before, last.now);
    RecentHead(l, before, last.now);
    assert Bucket(After(l, run), last.key) == w && |w| == l.maxRequests;
    OthersKeepBucket(l, After(l, run), others, last.key, retry);
    WaitSpansWindow(l, last.now, w[0], retry);
    if retry >= last.now + OutcomeOfLast(l, run).retryAfter as real {
      RecentDrops(l, w, retry);
    }
    if retry <= last.now + OutcomeOfLast(l, run).retryAfter as real - 1.0 {
      TailOrdered(l, AdmittedAt(l, run, last.key), w, last.now);
    }
  }

  lemma WaitSpansWindow(l: Limits, now: real, head: real, retry: real)
    ensures var wait := ((l.windowSeconds as real - (now - head)).Floor + 1) as real;
      && (retry >= now + wait ==> retry - head > l.windowSeconds as real)
      && (retry <= now + wait - 1.0 ==> retry - head <= l.windowSeconds as real)
  {
  }

  lemma TailOrdered(l: Limits, admitted: seq<real>, window: seq<real>, now: real)
    requires Tail(l, admitted, window, now) && window != []
    ensures window[0] <= window[|window| - 1]
  {
    var cut := |admitted| - |window|;
    assert admitted[cut] == admitted[cut..][0] && admitted[|admitted| - 1] == admitted[cut..][|window| - 1];
  }

  // --------------------------------------------------- who is limited, exactly

  /** The paths that are guarded are those that begin with a listed one. */
  lemma GuardedMeans(paths: seq<string>, path: string)
    ensures Guarded(paths, path) <==> exists i, rest :: 0 <= i < |paths| && path == paths[i] + rest
  {
    forall i | 0 <= i < |paths| && paths[i] <= path ensures exists rest :: path == paths[i] + rest {
      assert path == paths[i] + path[|paths[i]|..];
    }
  }

  /** The admissions on a key that are still in the window at a given moment. */
  ghost function InWindow(l: Limits, run: seq<Request>, key: string, now: real): set<nat>
    requires l.Valid()
  {
    set i | 0 <= i < |AdmittedAt(l, run, key)| && now - AdmittedAt(l, run, key)[i] <= l.windowSeconds as real
  }

  lemma {:induction false} RecentIsRecent(l: Limits, window: seq<real>, now: real)
    requires forall i, j :: 0 <= i <= j < |window| ==> window[i] <= window[j]
    ensures var w := Recent(l, window, now);
      && |w| <= |window| && w == window[|window| - |w|..]
      && (forall i :: 0 <= i < |window| - |w| ==> now - window[i] > l.windowSeconds as real)
      && forall i :: 0 <= i < |w| ==> now - w[i] <= l.windowSeconds as real
    decreases |window|
  {
    if window != [] && now - window[0] > l.windowSeconds as real {
      RecentIsRecent(l, window[1..], now);
      var w := Recent(l, window, now);
      assert window[1..][|window| - 1 - |w|..] == window[|window| - |w|..];
    }
  }

  ghost function Span(lo: nat, hi: nat): (s: set<nat>)
    requires lo <= hi
    ensures |s| == hi - lo && forall i :: i in s <==> lo <= i < hi
    decreases hi
  {
    if lo == hi then {} else Span(lo, hi - 1) + {hi - 1}
  }

  lemma WindowIsTail(l: Limits, admitted: seq<real>, window: seq<real>, now: real)
    requires Tail(l, admitted, window, now)
    ensures var w := Recent(l, window, now);
      (set i | 0 <= i < |admitted| && now - admitted[i] <= l.windowSeconds as real) ==
      if |w| <= |admitted| then Span(|admitted| - |w|, |admitted|) else {}
  {
    var cut := |admitted| - |window|;
    assert forall i :: cut <= i < |admitted| ==> admitted[i] == window[i - cut];
    RecentIsRecent(l, window, now);
    var w := Recent(l, window, now);
    var from := |admitted| - |w|;
    forall i | 0 <= i < |admitted| ensures now - admitted[i] <= l.windowSeconds as real <==> from <= i {
      if i >= from { assert admitted[i] == w[i - from]; } else if i >= cut { assert admitted[i] == window[i - cut]; }
    }
  }

  /** A guarded request is admitted exactly when fewer than the allowed number on its key
      were admitted within the window before it, over every run; otherwise it is limited. */
  lemma AdmittedExact(l: Limits, run: seq<Request>)
    requires l.Valid() && Monotone(run) && run != []
    ensures var n := |run| - 1;
      && (OutcomeOfLast(l, run).Admitted? <==> |InWindow(l, run[..n], run[n].key, run[n].now)| < l.maxRequests)
      && (OutcomeOfLast(l, run).Admitted? || OutcomeOfLast(l, run).Limited?)
  {
    hide Tail, Recent, Monotone, Bucket, After;
    var n := |run| - 1;
    var key, now := run[n].key, run[n].now;
    EarlierRuns(run);
    BucketsAreTails(l, run[..n], key, now);
    var admitted, window := AdmittedAt(l, run[..n], key), Bucket(After(l, run[..n]), key);
    WindowIsTail(l, admitted, window, now);
    WindowFits(l, admitted, window, now);
    assert InWindow(l, run[..n], key, now) ==
      set i | 0 <= i < |admitted| && now - admitted[i] <= l.windowSeconds as real;
  }

  lemma EarlierRuns(run: seq<Request>)
    requires Monotone(run) && run != []
    ensures Monotone(run[..|run| - 1]) && NoLaterThan(run[..|run| - 1], run[|run| - 1].now)
  {
  }

  lemma WindowFits(l: Limits, admitted: seq<real>, window: seq<real>, now: real)
    requires Tail(l, admitted, window, now)
    ensures |Recent(l, window, now)| <= |window| <= |admitted|
  {
    RecentShrinks(l, window, now);
  }
}
