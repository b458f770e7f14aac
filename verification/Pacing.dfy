/** Pacing the start of each host's probing, over every interleaving of callers. */
module Pacing {
  import opened Common

  const MAX_RATE: int := 1000

  /** Validated settings: at most `rate` hosts a second, `burst` at once after an idle spell. */
  datatype Settings = Settings(rate: int, burst: int) {
    predicate Valid() { 1 <= rate <= MAX_RATE && 1 <= burst }

    function Interval(): (i: real)
      requires Valid()
      ensures i > 0.0 && i * rate as real == 1.0
    {
      1.0 / rate as real
    }

    function Tolerance(): (t: real)
      requires Valid()
      ensures t >= 0.0
    {
      (burst - 1) as real * Interval()
    }
  }

  /** The slot a caller claims at `now`; before the first claim there is no next slot. */
  function SlotFor(s: Settings, next: Option<real>, now: real): real
    requires s.Valid()
  {
    var floor := now - s.Tolerance();
    if next.Some? && next.value > floor then next.value else floor
  }

  class HostPacer {
    const settings: Settings
    var nextSlot: Option<real>

    constructor (rate: int, burst: int)
      requires Settings(rate, burst).Valid()
      ensures settings == Settings(rate, burst) && nextSlot == None
    {
      settings, nextSlot := Settings(rate, burst), None;
    }

    /** The critical section: claim a slot and move the cursor past it. */
    method Claim(now: real) returns (slot: real)
      requires settings.Valid()
      modifies this
      ensures slot == SlotFor(settings, old(nextSlot), now)
      ensures nextSlot == Some(slot + settings.Interval())
    {
      slot := SlotFor(settings, nextSlot, now);
      nextSlot := Some(slot + settings.Interval());
    }

    /** One caller: the clock is read once under the lock and once after it. Returns the
        time slept and the moment the caller goes, with an exact sleep. */
    method Acquire(now: real, later: real) returns (delay: real, departure: real)
      requires settings.Valid() && now <= later
      modifies this
      ensures var slot := SlotFor(settings, old(nextSlot), now);
        && nextSlot == Some(slot + settings.Interval())
        && departure == Departure(slot, later)
        && delay == departure - later
    {
      var slot := Claim(now);
      delay := slot - later;
      if delay <= 0.0 { return 0.0, later; }
      departure := later + delay;
    }
  }

  function Departure(slot: real, later: real): real { if slot <= later then later else slot }

  /** Settings outside the limits are refused before a pacer exists. */
  datatype SettingsError = RateTooLow | RateTooHigh | BurstTooLow

  method NewPacer(rate: int, burst: int) returns (r: Result<HostPacer, SettingsError>)
    ensures r.Ok? <==> 1 <= rate <= MAX_RATE && 1 <= burst
    ensures r.Err? ==> r.error == if rate < 1 then RateTooLow else if rate > MAX_RATE then RateTooHigh else BurstTooLow
    ensures r.Ok? ==> fresh(r.value) && r.value.settings == Settings(rate, burst) && r.value.nextSlot == None
  {
    if rate < 1 { return Err(RateTooLow); }
    if rate > MAX_RATE { return Err(RateTooHigh); }
    if burst < 1 { return Err(BurstTooLow); }
    var pacer := new HostPacer(rate, burst);
    return Ok(pacer);
  }

  // ------------------------------------------------ a run of concurrent callers

  /** What a caller is doing. */
  datatype Phase = Claimed(slot: real, now: real) | Gone(departure: real)

  /** All callers, the shared cursor, the clock, and the callers in the order of their
      claims. Everything else may happen in any order. */
  datatype Run = Run(phases: map<nat, Phase>, nextSlot: Option<real>, clock: real, claims: seq<nat>)

  /** Time passes; an idle caller claims; a claimant reads the clock again and leaves. */
  datatype Step = Tick(clock: real) | ClaimStep(caller: nat) | GoStep(caller: nat)

  /** `lag` bounds how long a caller may stall between its two clock readings. */
  predicate Enabled(r: Run, step: Step, lag: real) {
    match step
    case Tick(clock) => r.clock <= clock
    case ClaimStep(caller) => caller !in r.phases
    case GoStep(caller) =>
      caller in r.phases && r.phases[caller].Claimed? && r.clock <= r.phases[caller].now + lag
  }

  function Next(s: Settings, r: Run, step: Step): Run
    requires s.Valid()
  {
    match step
    case Tick(clock) => r.(clock := clock)
    case ClaimStep(caller) =>
      var slot := SlotFor(s, r.nextSlot, r.clock);
      r.(phases := r.phases[caller := Claimed(slot, r.clock)],
         nextSlot := Some(slot + s.Interval()),
         claims := r.claims + [caller])
    case GoStep(caller) =>
      if caller in r.phases && r.phases[caller].Claimed? then
        r.(phases := r.phases[caller := Gone(Departure(r.phases[caller].slot, r.clock))])
      else r
  }

  /** The state after a schedule of steps, from a fresh pacer. */
  function Execute(s: Settings, clock: real, steps: seq<Step>): Run
    requires s.Valid()
  {
    if steps == [] then Run(map[], None, clock, [])
    else Next(s, Execute(s, clock, steps[..|steps| - 1]), steps[|steps| - 1])
  }

  /** Every step was possible when it was taken. */
  predicate Legal(s: Settings, clock: real, steps: seq<Step>, lag: real)
    requires s.Valid()
  {
    steps == [] ||
    (Legal(s, clock, steps[..|steps| - 1], lag) &&
     Enabled(Execute(s, clock, steps[..|steps| - 1]), steps[|steps| - 1], lag))
  }

  // The slots in the order they were handed out are a history the run implies.

  /** `slots[i]` is the slot of the `i`-th claim; a caller that has gone left between its
      slot and its slot plus the tolerance and the lag. */
  ghost predicate Explains(s: Settings, r: Run, slots: seq<real>, lag: real)
    requires s.Valid()
  {
    && |slots| == |r.claims|
    && (forall i, j :: 0 <= i < j < |r.claims| ==> r.claims[i] != r.claims[j])
    && (forall c :: c in r.phases <==> c in r.claims)
    && (forall i :: 0 <= i < |slots| ==> Fits(s, r.phases, r.claims[i], slots[i], lag))
    && (forall i :: 0 < i < |slots| ==> slots[i - 1] + s.Interval() <= slots[i])
    && (slots == [] ==> r.nextSlot == None)
    && (slots != [] ==> r.nextSlot == Some(slots[|slots| - 1] + s.Interval()))
  }

  ghost predicate Fits(s: Settings, phases: map<nat, Phase>, caller: nat, slot: real, lag: real)
    requires s.Valid()
  {
    && caller in phases
    && match phases[caller]
       case Claimed(claimed, now) => claimed == slot && now - s.Tolerance() <= slot
       case Gone(departure) => slot <= departure && departure <= slot + s.Tolerance() + lag
  }

  /** Every state a legal schedule reaches has such a history. */
  lemma {:induction false} RunIsExplained(s: Settings, clock: real, steps: seq<Step>,
      lag: real) returns (slots: seq<real>)
    requires s.Valid() && lag >= 0.0 && Legal(s, clock, steps, lag)
    ensures Explains(s, Execute(s, clock, steps), slots, lag)
  {
    if steps == [] {
      slots := [];
    } else {
      hide Explains, Enabled, Next;
      var n := |steps| - 1;
      var earlier := RunIsExplained(s, clock, steps[..n], lag);
      slots := StepIsExplained(s, Execute(s, clock, steps[..n]), steps[n], lag, earlier);
    }
  }

  lemma StepIsExplained(s: Settings, r: Run, step: Step, lag: real, slots: seq<real>) returns (after: seq<real>)
    requires s.Valid() && lag >= 0.0 && Enabled(r, step, lag) && Explains(s, r, slots, lag)
    ensures Explains(s, Next(s, r, step), after, lag)
  {
    match step
    case Tick(clock) => after := slots;
    case ClaimStep(caller) =>
      ClaimIsExplained(s, r, caller, lag, slots);
      after := slots + [SlotFor(s, r.nextSlot, r.clock)];
    case GoStep(caller) =>
      GoIsExplained(s, r, caller, lag, slots);
      after := slots;
  }

  lemma ClaimIsExplained(s: Settings, r: Run, caller: nat, lag: real, slots: seq<real>)
    requires s.Valid() && lag >= 0.0 && caller !in r.phases && Explains(s, r, slots, lag)
    ensures Explains(s, Next(s, r, ClaimStep(caller)), slots + [SlotFor(s, r.nextSlot, r.clock)], lag)
  {
    hide Settings.Interval, Settings.Tolerance, Fits;
    var slot := SlotFor(s, r.nextSlot, r.clock);
    var r' := Next(s, r, ClaimStep(caller));
    forall i | 0 <= i < |slots| ensures Fits(s, r'.phases, r'.claims[i], slots[i], lag) {
      assert r.claims[i] in r.phases && r'.claims[i] == r.claims[i];
      FitsElsewhere(s, r.phases, r'.phases, r.claims[i], slots[i], lag);
    }
    FreshFits(s, r'.phases, caller, slot, r.clock, lag);
    assert forall c :: c in r'.claims <==> c in r.claims || c == caller;
  }

  lemma FreshFits(s: Settings, phases: map<nat, Phase>, caller: nat, slot: real, now: real, lag: real)
    requires s.Valid() && caller in phases && phases[caller] == Claimed(slot, now) && now - s.Tolerance() <= slot
    ensures Fits(s, phases, caller, slot, lag)
  {
  }

  lemma FitsElsewhere(s: Settings, a: map<nat, Phase>, b: map<nat, Phase>, caller: nat, slot: real, lag: real)
    requires s.Valid() && Fits(s, a, caller, slot, lag) && caller in a && caller in b && a[caller] == b[caller]
    ensures Fits(s, b, caller, slot, lag)
  {
  }

  lemma GoIsExplained(s: Settings, r: Run, caller: nat, lag: real, slots: seq<real>)
    requires s.Valid() && lag >= 0.0 && Enabled(r, GoStep(caller), lag) && Explains(s, r, slots, lag)
    ensures Explains(s, Next(s, r, GoStep(caller)), slots, lag)
  {
    hide Settings.Interval, Settings.Tolerance, Fits;
    var r' := Next(s, r, GoStep(caller));
    forall i | 0 <= i < |slots| ensures Fits(s, r'.phases, r'.claims[i], slots[i], lag) {
      if r.claims[i] == caller {
        LeavingFits(s, r, caller, slots[i], lag);
      } else {
        FitsElsewhere(s, r.phases, r'.phases, r.claims[i], slots[i], lag);
      }
    }
  }

  lemma LeavingFits(s: Settings, r: Run, caller: nat, slot: real, lag: real)
    requires s.Valid() && lag >= 0.0 && Enabled(r, GoStep(caller), lag) && Fits(s, r.phases, caller, slot, lag)
    ensures Fits(s, Next(s, r, GoStep(caller)).phases, caller, slot, lag)
  {
  }

  // -------------------------------------------------------------- spacing

  lemma {:induction false} SlotsSpread(s: Settings, slots: seq<real>, i: nat, j: nat)
    requires s.Valid() && i <= j < |slots|
    requires forall k :: 0 < k < |slots| ==> slots[k - 1] + s.Interval() <= slots[k]
    ensures slots[i] + (j - i) as real * s.Interval() <= slots[j]
    decreases j
  {
    if i < j {
      SlotsSpread(s, slots, i, j - 1);
      assert (j - i) as real * s.Interval() == (j - 1 - i) as real * s.Interval() + s.Interval();
    }
  }

  /** Claimed slots are pairwise at least one interval apart, in claim order. */
  lemma SlotsApart(s: Settings, r: Run, slots: seq<real>, lag: real, i: nat, j: nat)
    requires s.Valid() && Explains(s, r, slots, lag) && i < j < |slots|
    ensures slots[i] + s.Interval() <= slots[j]
  {
    hide Fits;
    SlotsSpread(s, slots, i, j - 1);
    NonNegative((j - 1 - i) as real, s.Interval());
  }

  lemma NonNegative(a: real, b: real)
    requires a >= 0.0 && b >= 0.0
    ensures a * b >= 0.0
  {
  }

  /** The callers that went within a closed window. */
  ghost function GoneIn(r: Run, from: real, to: real): set<nat> {
    set c | c in r.phases && r.phases[c].Gone? && from <= r.phases[c].departure <= to
  }

  ghost function Callers(r: Run, lo: nat, hi: nat): set<nat>
    requires lo <= hi <= |r.claims|
  {
    set i | lo <= i < hi :: r.claims[i]
  }

  lemma {:induction false} CallersBound(r: Run, lo: nat, hi: nat)
    requires lo <= hi <= |r.claims|
    ensures |Callers(r, lo, hi)| <= hi - lo
    decreases hi
  {
    if lo == hi {
      assert Callers(r, lo, hi) == {};
    } else {
      CallersBound(r, lo, hi - 1);
      assert Callers(r, lo, hi) == Callers(r, lo, hi - 1) + {r.claims[hi - 1]};
    }
  }

  /** The claim positions of the first and last of a non-empty set of claimants. */
  lemma {:induction false} Ends(claims: seq<nat>, callers: set<nat>, n: nat) returns (lo: nat, hi: nat)
    requires n <= |claims| && callers != {}
    requires forall c :: c in callers ==> exists i :: 0 <= i < n && claims[i] == c
    ensures lo <= hi < n && claims[lo] in callers && claims[hi] in callers
    ensures forall c :: c in callers ==> exists i :: lo <= i <= hi && claims[i] == c
  {
    lo := 0;
    hi := n - 1;
    var some := Pick(callers);
    while claims[lo] !in callers
      invariant 0 <= lo <= hi && forall c :: c in callers ==> exists i :: lo <= i <= hi && claims[i] == c
      decreases hi - lo
    {
      assert exists i :: lo <= i <= hi && claims[i] == some;
      lo := lo + 1;
    }
    while claims[hi] !in callers
      invariant lo <= hi < n && claims[lo] in callers && forall c :: c in callers ==>
        exists i :: lo <= i <= hi && claims[i] == c
      decreases hi
    {
      hi := hi - 1;
    }
  }

  lemma Departed(s: Settings, r: Run, slots: seq<real>, lag: real, i: nat, from: real, to: real)
    requires s.Valid() && Explains(s, r, slots, lag) && i < |slots| && r.claims[i] in GoneIn(r, from, to)
    ensures from - s.Tolerance() - lag <= slots[i] <= to
  {
    assert Fits(s, r.phases, r.claims[i], slots[i], lag);
  }

  /** At most `burst + floor((W + lag) * rate)` callers leave in any closed window of
      length W, whatever the schedule; `lag` is zero when nothing stalls between the two
      clock readings. */
  lemma WindowBound(s: Settings, clock: real, steps: seq<Step>, lag: real, from: real, w: real)
    requires s.Valid() && lag >= 0.0 && w >= 0.0 && Legal(s, clock, steps, lag)
    ensures |GoneIn(Execute(s, clock, steps), from, from + w)| <= s.burst + Floor((w + lag) * s.rate as real)
  {
    hide Settings.Interval, Settings.Tolerance, Explains, Execute, Legal, GoneIn;
    var r := Execute(s, clock, steps);
    var slots := RunIsExplained(s, clock, steps, lag);
    if GoneIn(r, from, from + w) == {} {
      FloorNonNegative(w + lag, s.rate);
    } else {
      var n := SpanOfGone(s, r, slots, lag, from, w);
      CountFromSpread(s, n, w + lag);
    }
  }

  lemma SpanOfGone(s: Settings, r: Run, slots: seq<real>, lag: real, from: real, w: real) returns (n: nat)
    requires s.Valid() && Explains(s, r, slots, lag) && GoneIn(r, from, from + w) != {}
    ensures |GoneIn(r, from, from + w)| <= n + 1
    ensures n as real * s.Interval() <= w + lag + s.Tolerance()
  {
    hide Settings.Interval, Settings.Tolerance, Explains, GoneIn, Callers;
    var gone := GoneIn(r, from, from + w);
    GoneClaimed(s, r, slots, lag, from, from + w);
    var lo, hi := Ends(r.claims, gone, |r.claims|);
    n := hi - lo;
    TimeSpan(s, r, slots, lag, from, w, lo, hi);
    assert gone <= Callers(r, lo, hi + 1) by { BetweenEnds(r, gone, lo, hi); }
    SubsetSize(gone, Callers(r, lo, hi + 1));
    CallersBound(r, lo, hi + 1);
  }

  lemma TimeSpan(s: Settings, r: Run, slots: seq<real>, lag: real, from: real, w: real, lo: nat, hi: nat)
    requires s.Valid() && Explains(s, r, slots, lag) && lo <= hi < |r.claims|
    requires r.claims[lo] in GoneIn(r, from, from + w) && r.claims[hi] in GoneIn(r, from, from + w)
    ensures (hi - lo) as real * s.Interval() <= w + lag + s.Tolerance()
  {
    hide Settings.Interval, Settings.Tolerance, Fits, GoneIn;
    Departed(s, r, slots, lag, lo, from, from + w);
    Departed(s, r, slots, lag, hi, from, from + w);
    SlotsSpread(s, slots, lo, hi);
  }

  lemma GoneClaimed(s: Settings, r: Run, slots: seq<real>, lag: real, from: real, to: real)
    requires s.Valid() && Explains(s, r, slots, lag)
    ensures forall c :: c in GoneIn(r, from, to) ==> exists i :: 0 <= i < |r.claims| && r.claims[i] == c
  {
    hide Settings.Interval, Settings.Tolerance, Fits;
    forall c | c in GoneIn(r, from, to) ensures exists i :: 0 <= i < |r.claims| && r.claims[i] == c {
      assert c in r.claims;
    }
  }

  lemma BetweenEnds(r: Run, gone: set<nat>, lo: nat, hi: nat)
    requires lo <= hi < |r.claims|
    requires forall c :: c in gone ==> exists i :: lo <= i <= hi && r.claims[i] == c
    ensures gone <= Callers(r, lo, hi + 1)
  {
  }

  function Floor(x: real): int { x.Floor }

  lemma FloorNonNegative(w: real, rate: int)
    requires w >= 0.0 && rate >= 0
    ensures Floor(w * rate as real) >= 0
  {
    assert w * rate as real >= 0.0;
  }

  lemma CountFromSpread(s: Settings, n: nat, w: real)
    requires s.Valid() && w >= 0.0 && n as real * s.Interval() <= w + s.Tolerance()
    ensures n + 1 <= s.burst + Floor(w * s.rate as real)
  {
    var rate, interval := s.rate as real, s.Interval();
    Regroup(n as real, interval, rate);
    Regroup((s.burst - 1) as real, interval, rate);
    Scale(n as real * interval, w + s.Tolerance(), rate);
    assert (w + s.Tolerance()) * rate == w * rate + s.Tolerance() * rate;
    assert n as real <= w * rate + (s.burst - 1) as real;
    assert (n - s.burst + 1) as real <= w * rate;
  }

  lemma Regroup(a: real, b: real, c: real)
    requires b * c == 1.0
    ensures a * b * c == a
  {
    assert a * b * c == a * (b * c);
  }

  lemma Scale(a: real, b: real, k: real)
    requires a <= b && k > 0.0
    ensures a * k <= b * k
  {
  }

  /** Smooth by default: with no burst and no stall, any two departures are a full
      interval apart. */
  lemma SmoothByDefault(s: Settings, clock: real, steps: seq<Step>, a: nat, b: nat)
    requires s.Valid() && s.burst == 1 && Legal(s, clock, steps, 0.0)
    requires var r := Execute(s, clock, steps);
      a != b && a in r.phases && b in r.phases && r.phases[a].Gone? && r.phases[b].Gone?
    ensures var p := Execute(s, clock, steps).phases;
      p[a].departure + s.Interval() <= p[b].departure || p[b].departure + s.Interval() <= p[a].departure
  {
    hide Execute, Legal, Fits;
    var r := Execute(s, clock, steps);
    var slots := RunIsExplained(s, clock, steps, 0.0);
    assert a in r.claims && b in r.claims;
    var i :| 0 <= i < |r.claims| && r.claims[i] == a;
    var j :| 0 <= j < |r.claims| && r.claims[j] == b;
    LeftAtSlot(s, r, a, slots[i]);
    LeftAtSlot(s, r, b, slots[j]);
    if i < j { SlotsApart(s, r, slots, 0.0, i, j); } else { SlotsApart(s, r, slots, 0.0, j, i); }
  }

  lemma LeftAtSlot(s: Settings, r: Run, caller: nat, slot: real)
    requires s.Valid() && s.burst == 1 && Fits(s, r.phases, caller, slot, 0.0) && r.phases[caller].Gone?
    ensures r.phases[caller].departure == slot
  {
  }

  // ------------------------------------------------- nobody waits for nothing

  /** When the callers of a schedule claimed, in the order of their claims. */
  function ClaimTimes(s: Settings, clock: real, steps: seq<Step>): seq<real>
    requires s.Valid()
  {
    if steps == [] then []
    else
      var n := |steps| - 1;
      ClaimTimes(s, clock, steps[..n]) + if steps[n].ClaimStep? then [Execute(s, clock, steps[..n]).clock] else []
  }

  /** The last of the slots that claims at these times are given. */
  function LastSlot(s: Settings, times: seq<real>): (last: Option<real>)
    requires s.Valid()
    ensures last.Some? <==> times != []
  {
    if times == [] then None
    else
      var before := LastSlot(s, times[..|times| - 1]);
      Some(SlotFor(s, if before.Some? then Some(before.value + s.Interval()) else None, times[|times| - 1]))
  }

  /** What claim `j` demands of the slot of claim `i`: its own moment less the tolerance, and
      an interval for each claim since. */
  function Demand(s: Settings, times: seq<real>, j: nat, i: nat): real
    requires s.Valid() && j <= i && j < |times|
  {
    times[j] - s.Tolerance() + (i - j) as real * s.Interval()
  }

  /** A slot is as late as some claim so far demands, and no later. */
  lemma {:induction false} SlotIsLatestDemand(s: Settings, times: seq<real>) returns (j: nat)
    requires s.Valid() && times != []
    ensures var n := |times| - 1;
      && j <= n && LastSlot(s, times) == Some(Demand(s, times, j, n))
      && forall i :: 0 <= i <= n ==> Demand(s, times, i, n) <= LastSlot(s, times).value
  {
    hide Settings.Interval, Settings.Tolerance;
    var n := |times| - 1;
    var before := times[..n];
    if n == 0 {
      j := 0;
    } else {
      var last := SlotIsLatestDemand(s, before);
      forall i | 0 <= i < n ensures Demand(s, times, i, n) == Demand(s, before, i, n - 1) + s.Interval() {
        OneMoreInterval(s, times, i, n);
      }
      j := if LastSlot(s, before).value + s.Interval() > times[n] - s.Tolerance() then last else n;
    }
  }

  lemma OneMoreInterval(s: Settings, times: seq<real>, i: nat, n: nat)
    requires s.Valid() && i < n < |times|
    ensures Demand(s, times, i, n) == Demand(s, times[..n], i, n - 1) + s.Interval()
  {
    hide Settings.Interval, Settings.Tolerance;
    assert (n - i) as real * s.Interval() == (n - 1 - i) as real * s.Interval() + s.Interval();
  }

  predicate InTime(times: seq<real>) { forall i, j :: 0 <= i <= j < |times| ==> times[i] <= times[j] }

  /** The moment `m` intervals after the earliest slot that can be claimed at `now`. */
  function Late(s: Settings, now: real, m: nat): real
    requires s.Valid()
  {
    now - s.Tolerance() + m as real * s.Interval()
  }

  lemma LateStep(s: Settings, now: real, m: nat)
    requires s.Valid()
    ensures Late(s, now, m) + s.Interval() == Late(s, now, m + 1)
    ensures now - s.Tolerance() <= Late(s, now, m) && Late(s, now, 0) == now - s.Tolerance()
    ensures m < s.burst ==> Late(s, now, m) <= now
    ensures forall later :: now <= later ==> Late(s, now, m) <= Late(s, later, m)
  {
    hide Settings.Interval;
    assert (m + 1) as real * s.Interval() == m as real * s.Interval() + s.Interval();
    NonNegative(m as real, s.Interval());
    if m < s.burst { Stretch(m as real, (s.burst - 1) as real, s.Interval()); }
  }

  lemma Stretch(a: real, b: real, c: real)
    requires a <= b && c > 0.0
    ensures a * c <= b * c
  {
  }

  lemma LastAppended(s: Settings, times: seq<real>, now: real)
    requires s.Valid()
    ensures LastSlot(s, times + [now]) ==
      Some(SlotFor(s, if times == [] then None else Some(LastSlot(s, times).value + s.Interval()), now))
  {
    hide SlotFor, Settings.Interval, Settings.Tolerance;
    assert (times + [now])[..|times|] == times;
  }

  /** After an idle spell `burst` callers go at once: when the first of them finds the pacer
      idle, the slots of the next `burst - 1` lie no later than their claims. */
  lemma BurstAfterIdle(s: Settings, times: seq<real>, k: nat)
    requires s.Valid() && InTime(times) && k < |times| <= k + s.burst
    requires k > 0 ==> LastSlot(s, times[..k]).value + s.Interval() <= times[k] - s.Tolerance()
    ensures LastSlot(s, times).value <= times[|times| - 1]
  {
    hide LastSlot, Late;
    RestartsAt(s, times, k);
    LateStep(s, times[|times| - 1], |times| - 1 - k);
  }

  lemma EarlierTimes(times: seq<real>)
    requires InTime(times) && |times| >= 2
    ensures InTime(times[..|times| - 1]) && times[|times| - 2] <= times[|times| - 1]
  {
  }

  lemma LateClaim(s: Settings, last: real, before: real, now: real, m: nat)
    requires s.Valid() && last <= Late(s, before, m) && before <= now
    ensures SlotFor(s, Some(last + s.Interval()), now) <= Late(s, now, m + 1)
  {
    hide Settings.Interval, Settings.Tolerance, Late;
    LateStep(s, before, m);
    LateStep(s, before, m + 1);
    LateStep(s, now, m + 1);
  }

  lemma {:induction false} RestartsAt(s: Settings, times: seq<real>, k: nat)
    requires s.Valid() && InTime(times) && k < |times|
    requires k > 0 ==> LastSlot(s, times[..k]).value + s.Interval() <= times[k] - s.Tolerance()
    ensures var n := |times| - 1; LastSlot(s, times).value <= Late(s, times[n], n - k)
    decreases |times|
  {
    hide Settings.Interval, Settings.Tolerance, LastSlot, Late, InTime;
    var n := |times| - 1;
    assert times == times[..n] + [times[n]];
    LastAppended(s, times[..n], times[n]);
    if k < n {
      hide SlotFor;
      assert times[..n][..k] == times[..k];
      EarlierTimes(times);
      RestartsAt(s, times[..n], k);
      LateClaim(s, LastSlot(s, times[..n]).value, times[n - 1], times[n], n - 1 - k);
    } else {
      LateStep(s, times[n], 0);
    }
  }

  /** The claims of a run, in order: whose they were, when, and with which slots. */
  ghost predicate Traces(s: Settings, r: Run, times: seq<real>, lag: real)
    requires s.Valid()
  {
    && |times| == |r.claims| && InTime(times) && (times != [] ==> times[|times| - 1] <= r.clock)
    && (times == [] ==> r.nextSlot == None)
    && (times != [] ==> r.nextSlot == Some(LastSlot(s, times).value + s.Interval()))
    && (forall c :: c in r.phases <==> c in r.claims)
    && (forall i, j :: 0 <= i < j < |r.claims| ==> r.claims[i] != r.claims[j])
    && forall i :: 0 <= i < |times| ==> OnTime(s, r.phases, r.claims[i], times[..i + 1], lag)
  }

  /** A caller holds the slot of its claim, and when it goes it goes then, or at once if the
      slot has passed by its second reading of the clock. */
  ghost predicate OnTime(s: Settings, phases: map<nat, Phase>, caller: nat, times: seq<real>, lag: real)
    requires s.Valid()
  {
    && times != [] && caller in phases
    && var slot, now := LastSlot(s, times).value, times[|times| - 1];
       match phases[caller]
       case Claimed(claimed, at) => claimed == slot && at == now
       case Gone(departure) => departure == slot || (slot <= departure && now <= departure <= now + lag)
  }

  /** No caller waits longer than the claims before it require: in every run, each caller that
      has gone left at the slot its claim was given, which is the latest demand of a claim so
      far, or at once. */
  lemma {:induction false} RunIsTraced(s: Settings, clock: real, steps: seq<Step>, lag: real)
    requires s.Valid() && lag >= 0.0 && Legal(s, clock, steps, lag)
    ensures Traces(s, Execute(s, clock, steps), ClaimTimes(s, clock, steps), lag)
  {
    hide Traces, Enabled, Next;
    if steps == [] {
      NothingTraced(s, clock, lag);
    } else {
      var n := |steps| - 1;
      RunIsTraced(s, clock, steps[..n], lag);
      var r, times := Execute(s, clock, steps[..n]), ClaimTimes(s, clock, steps[..n]);
      match steps[n]
      case Tick(c) => TickIsTraced(s, r, c, times, lag); assert times + [] == times;
      case ClaimStep(caller) => ClaimIsTraced(s, r, caller, times, lag);
      case GoStep(caller) => GoIsTraced(s, r, caller, times, lag); assert times + [] == times;
    }
  }

  lemma NothingTraced(s: Settings, clock: real, lag: real)
    requires s.Valid()
    ensures Traces(s, Run(map[], None, clock, []), [], lag)
  {
  }

  lemma TickIsTraced(s: Settings, r: Run, clock: real, times: seq<real>, lag: real)
    requires s.Valid() && Enabled(r, Tick(clock), lag) && Traces(s, r, times, lag)
    ensures Traces(s, Next(s, r, Tick(clock)), times, lag)
  {
    hide OnTime, LastSlot;
  }

  lemma ClaimIsTraced(s: Settings, r: Run, caller: nat, times: seq<real>, lag: real)
    requires s.Valid() && Enabled(r, ClaimStep(caller), lag) && Traces(s, r, times, lag)
    ensures Traces(s, Next(s, r, ClaimStep(caller)), times + [r.clock], lag)
  {
    hide OnTime, Settings.Interval, Settings.Tolerance;
    var r', times' := Next(s, r, ClaimStep(caller)), times + [r.clock];
    assert times'[..|times|] == times;
    ClaimantOnTime(s, r, caller, times, lag);
    forall i | 0 <= i < |times| ensures OnTime(s, r'.phases, r'.claims[i], times'[..i + 1], lag) {
      assert times'[..i + 1] == times[..i + 1];
      assert r.claims[i] in r.phases && r'.claims[i] == r.claims[i];
      OnTimeElsewhere(s, r.phases, r'.phases, r.claims[i], times[..i + 1], lag);
    }
    assert times'[..|times'|] == times';
    assert forall c :: c in r'.claims <==> c in r.claims || c == caller;
  }

  lemma ClaimantOnTime(s: Settings, r: Run, caller: nat, times: seq<real>, lag: real)
    requires s.Valid() && Enabled(r, ClaimStep(caller), lag) && Traces(s, r, times, lag)
    ensures OnTime(s, Next(s, r, ClaimStep(caller)).phases, caller, times + [r.clock], lag)
    ensures LastSlot(s, times + [r.clock]) == Some(SlotFor(s, r.nextSlot, r.clock))
  {
    hide Settings.Interval, Settings.Tolerance, SlotFor, LastSlot;
    LastAppended(s, times, r.clock);
  }

  lemma OnTimeElsewhere(s: Settings, a: map<nat, Phase>, b: map<nat, Phase>, caller: nat, times: seq<real>, lag: real)
    requires s.Valid() && OnTime(s, a, caller, times, lag) && caller in a && caller in b && a[caller] == b[caller]
    ensures OnTime(s, b, caller, times, lag)
  {
  }

  lemma GoIsTraced(s: Settings, r: Run, caller: nat, times: seq<real>, lag: real)
    requires s.Valid() && lag >= 0.0 && Enabled(r, GoStep(caller), lag) && Traces(s, r, times, lag)
    ensures Traces(s, Next(s, r, GoStep(caller)), times, lag)
  {
    hide OnTime, LastSlot, Settings.Interval, Settings.Tolerance;
    var r' := Next(s, r, GoStep(caller));
    forall i | 0 <= i < |times| ensures OnTime(s, r'.phases, r'.claims[i], times[..i + 1], lag) {
      if r.claims[i] == caller {
        assert times[i] <= times[|times| - 1];
        LeaverOnTime(s, r, caller, times[..i + 1], lag);
      } else {
        OnTimeElsewhere(s, r.phases, r'.phases, r.claims[i], times[..i + 1], lag);
      }
    }
  }

  lemma LeaverOnTime(s: Settings, r: Run, caller: nat, times: seq<real>, lag: real)
    requires s.Valid() && lag >= 0.0 && Enabled(r, GoStep(caller), lag) && OnTime(s, r.phases, caller, times, lag)
    requires times[|times| - 1] <= r.clock
    ensures OnTime(s, Next(s, r, GoStep(caller)).phases, caller, times, lag)
  {
    hide LastSlot;
  }
}
