/**
 The four rate-limit algorithms on one entry. Times are integer nanoseconds; the doubles of the token
 bucket are exact reals here.
 */
module RateLimit {
  import opened Common

  type Time = int

  const SECOND := 1_000_000_000

  datatype Result = Result(allowed: bool, remaining: nat, retryAfter: nat)

  function CeilDiv(n: int, d: int): int
    requires d > 0
  {
    -((-n) / d)
  }

  /** Whole seconds, rounded up; nothing for a negative wait. */
  function CeilSeconds(d: int): (s: nat) {
    if d <= 0 then 0 else CeilDiv(d, SECOND)
  }

  lemma CeilDivBounds(n: int, d: int)
    requires d > 0
    ensures (CeilDiv(n, d) - 1) * d < n <= CeilDiv(n, d) * d
  {
    var q := (-n) / d;
    assert -n == q * d + (-n) % d;
  }

  lemma CeilDivLeast(n: int, d: int, k: int)
    requires d > 0
    ensures CeilDiv(n, d) <= k <==> n <= k * d
  {
    var c := CeilDiv(n, d);
    CeilDivBounds(n, d);
    if c <= k { MulMonotone(c, k, d); }
    if k <= c - 1 { MulMonotone(k, c - 1, d); }
  }

  lemma MulMonotone(a: int, b: int, d: int)
    requires a <= b && d >= 0
    ensures a * d <= b * d
  {
  }

  /** Multiplication by a fixed amount; used hidden, through the lemma below. */
  function Times(k: int, d: int): int { k * d }

  lemma TimesAdds(a: int, b: int, d: int)
    ensures Times(a + b, d) == Times(a, d) + Times(b, d)
    ensures Times(1, d) == d && Times(0, d) == 0
    ensures d >= 0 && a <= 0 ==> Times(a, d) <= 0
  {
    assert (a + b) * d == a * d + b * d;
    if d >= 0 && a <= 0 { MulMonotone(a, 0, d); }
  }

  // ---------------------------------------------------------------- GCRA

  datatype GcraStep = GcraStep(arrival: Time, result: Result)

  function Gcra(arrival: Time, interval: int, burst: int, now: Time): (r: GcraStep)
    requires interval > 0 && burst > 0
  {
    var allowedAt := arrival - Times(burst - 1, interval);
    if now < allowedAt then GcraStep(arrival, Result(false, 0, CeilSeconds(allowedAt - now)))
    else
      var next := Max(arrival, now) + interval;
      var debt := if next > now then next - now else 0;
      var used := CeilDiv(debt, interval);
      GcraStep(next, Result(true, if burst > used then burst - used else 0, 0))
  }

  /** The state after a sequence of requests. */
  function GcraState(arrival: Time, interval: int, burst: int, times: seq<Time>): Time
    requires interval > 0 && burst > 0
  {
    if times == [] then arrival
    else Gcra(GcraState(arrival, interval, burst, times[..|times| - 1]), interval, burst, times[|times| - 1]).arrival
  }

  /** The instants at which requests were admitted. */
  function GcraAdmitted(arrival: Time, interval: int, burst: int, times: seq<Time>): seq<Time>
    requires interval > 0 && burst > 0
  {
    if times == [] then []
    else
      var front, last := times[..|times| - 1], times[|times| - 1];
      GcraAdmitted(arrival, interval, burst, front) +
      if Gcra(GcraState(arrival, interval, burst, front), interval, burst, last).result.allowed then [last] else []
  }

  /** Each admission pushes the theoretical arrival one interval further than every earlier one. */
  ghost predicate Spaced(a: seq<Time>, interval: int, burst: int, arrival: Time) {
    && (forall i :: 0 <= i < |a| ==> arrival >= a[i] + Times(|a| - i, interval))
    && (forall i, j :: 0 <= i <= j < |a| ==> a[j] - a[i] >= Times(j - i + 1 - burst, interval))
  }

  lemma SpacedStep(a: seq<Time>, interval: int, burst: int, arrival: Time, now: Time)
    requires interval > 0 && burst > 0 && Spaced(a, interval, burst, arrival)
    requires now >= arrival - Times(burst - 1, interval)
    ensures Spaced(a + [now], interval, burst, Max(arrival, now) + interval)
  {
    hide Times;
    var more, n := a + [now], |a|;
    forall i | 0 <= i < |more| ensures Max(arrival, now) + interval >= more[i] + Times(n + 1 - i, interval) {
      TimesAdds(n - i, 1, interval);
    }
    forall i, j | 0 <= i <= j < |more| ensures more[j] - more[i] >= Times(j - i + 1 - burst, interval) {
      if j < n {
        assert a[j] - a[i] >= Times(j - i + 1 - burst, interval);
      } else if i < n {
        TimesAdds(n - i + 1 - burst, burst - 1, interval);
      } else {
        TimesAdds(1 - burst, 0, interval);
      }
    }
  }

  lemma {:induction false} GcraSpacing(arrival: Time, interval: int, burst: int, times: seq<Time>)
    requires interval > 0 && burst > 0
    ensures Spaced(GcraAdmitted(arrival, interval, burst, times), interval, burst,
            GcraState(arrival, interval, burst, times))
  {
    hide Spaced;
    if times == [] {
      NothingSpaced(interval, burst, arrival);
    } else {
      var front, last := times[..|times| - 1], times[|times| - 1];
      GcraSpacing(arrival, interval, burst, front);
      var tat, before := GcraState(arrival, interval, burst, front), GcraAdmitted(arrival, interval, burst, front);
      if Gcra(tat, interval, burst, last).result.allowed { SpacedStep(before, interval, burst, tat, last); }
      else { assert before + [] == before; }
    }
  }

  lemma NothingSpaced(interval: int, burst: int, arrival: Time)
    ensures Spaced([], interval, burst, arrival)
  {
  }

  // ---------------------------------------------------------------- counting admissions in a span

  /** How many of `a` lie in [lo, hi). */
  function CountIn(a: seq<Time>, lo: Time, hi: Time): nat {
    if a == [] then 0 else CountIn(a[..|a| - 1], lo, hi) + if lo <= a[|a| - 1] < hi then 1 else 0
  }

  lemma {:induction false} SpanOf(a: seq<Time>, lo: Time, hi: Time) returns (i: nat, j: nat)
    requires CountIn(a, lo, hi) > 0
    ensures i <= j < |a| && lo <= a[i] < hi && lo <= a[j] < hi && CountIn(a, lo, hi) <= j - i + 1
  {
    var n := |a| - 1;
    if lo <= a[n] < hi {
      if CountIn(a[..n], lo, hi) == 0 {
        i, j := n, n;
      } else {
        var k;
        i, k := SpanOf(a[..n], lo, hi);
        j := n;
      }
    } else {
      i, j := SpanOf(a[..n], lo, hi);
    }
  }

  /** Any closed span of length `d` admits at most burst + d / interval requests, over any run. */
  lemma GcraSpan(arrival: Time, interval: int, burst: int, times: seq<Time>, start: Time, d: nat)
    requires interval > 0 && burst > 0
    ensures CountIn(GcraAdmitted(arrival, interval, burst, times), start, start + d + 1) <= burst + d / interval
  {
    hide GcraAdmitted, GcraState, CountIn;
    var a := GcraAdmitted(arrival, interval, burst, times);
    if CountIn(a, start, start + d + 1) > 0 {
      var i, j := SpanOf(a, start, start + d + 1);
      GcraSpacing(arrival, interval, burst, times);
      assert Times(j - i + 1 - burst, interval) <= a[j] - a[i] <= d;
      DivBound(j - i + 1 - burst, interval, d);
    }
  }

  lemma DivBound(k: int, interval: int, d: nat)
    requires interval > 0 && k * interval <= d
    ensures k <= d / interval
  {
    var q := d / interval;
    assert d < (q + 1) * interval;
    if k > q { MulMonotone(q + 1, k, interval); }
  }

  // ---------------------------------------------------------------- what GCRA promises a caller

  /** Whether the `k`-th of consecutive requests at one instant is admitted. */
  function NthAllowed(arrival: Time, interval: int, burst: int, now: Time, k: nat): bool
    requires interval > 0 && burst > 0 && k > 0
    decreases k
  {
    if k == 1 then Gcra(arrival, interval, burst, now).result.allowed
    else NthAllowed(Gcra(arrival, interval, burst, now).arrival, interval, burst, now, k - 1)
  }

  lemma {:induction false} NthAllowedWhen(arrival: Time, interval: int, burst: int, now: Time, k: nat)
    requires interval > 0 && burst > 0 && k > 0 && arrival >= now
    ensures NthAllowed(arrival, interval, burst, now, k) <==> arrival - now <= Times(burst - k, interval)
    decreases k
  {
    hide Times, CeilDiv, CeilSeconds;
    if k > 1 {
      TimesAdds(burst - k, 1, interval);
      if arrival - now <= Times(burst - 1, interval) {
        NthAllowedWhen(arrival + interval, interval, burst, now, k - 1);
      } else {
        RefusedStaysRefused(arrival, interval, burst, now, k - 1);
        TimesAdds(1 - k, burst - 1, interval);
      }
    }
  }

  lemma {:induction false} RefusedStaysRefused(arrival: Time, interval: int, burst: int, now: Time, k: nat)
    requires interval > 0 && burst > 0 && k > 0 && now < arrival - Times(burst - 1, interval)
    ensures !NthAllowed(arrival, interval, burst, now, k)
    decreases k
  {
    if k > 1 { RefusedStaysRefused(arrival, interval, burst, now, k - 1); }
  }

  /** `remaining` is exactly the number of further requests at the same instant that would be admitted. */
  lemma RemainingIsExact(arrival: Time, interval: int, burst: int, now: Time, k: nat)
    requires interval > 0 && burst > 0 && k > 0
    requires Gcra(arrival, interval, burst, now).result.allowed
    ensures var step := Gcra(arrival, interval, burst, now);
            NthAllowed(step.arrival, interval, burst, now, k) <==> k <= step.result.remaining
  {
    var step := Gcra(arrival, interval, burst, now);
    NthAllowedWhen(step.arrival, interval, burst, now, k);
    CeilDivLeast(step.arrival - now, interval, burst - k);
    assert Times(burst - k, interval) == (burst - k) * interval;
  }

  /** A refused caller that waits `retryAfter` seconds is admitted, and one second less is too little. */
  lemma RetryIsExact(arrival: Time, interval: int, burst: int, now: Time)
    requires interval > 0 && burst > 0 && !Gcra(arrival, interval, burst, now).result.allowed
    ensures var retry := Gcra(arrival, interval, burst, now).result.retryAfter;
            && retry > 0
            && Gcra(arrival, interval, burst, now + retry * SECOND).result.allowed
            && !Gcra(arrival, interval, burst, now + (retry - 1) * SECOND).result.allowed
  {
    CeilDivBounds(arrival - Times(burst - 1, interval) - now, SECOND);
  }

  // ---------------------------------------------------------------- sliding window

  ghost predicate Sorted(s: seq<Time>) { forall i, j :: 0 <= i <= j < |s| ==> s[i] <= s[j] }

  /** The first index at or after `from` that is still in the window. */
  function Expired(requests: seq<Time>, window: int, now: Time, from: nat): (r: nat)
    requires from <= |requests|
    ensures from <= r <= |requests|
    ensures forall i :: from <= i < r ==> now - requests[i] >= window
    ensures r < |requests| ==> !(now >= requests[r] && now - requests[r] >= window)
    decreases |requests| - from
  {
    if from < |requests| && now >= requests[from] && now - requests[from] >= window
    then Expired(requests, window, now, from + 1)
    else from
  }

  /** Drops what has left the window. */
  function Trim(requests: seq<Time>, window: int, now: Time): seq<Time> {
    requests[Expired(requests, window, now, 0)..]
  }

  datatype SlidingStep = SlidingStep(requests: seq<Time>, result: Result)

  function Sliding(requests: seq<Time>, limit: nat, window: int, now: Time): SlidingStep
    requires limit > 0
  {
    var kept := Trim(requests, window, now);
    if |kept| >= limit then SlidingStep(kept, Result(false, 0, CeilSeconds(kept[0] + window - now)))
    else SlidingStep(kept + [now], Result(true, limit - |kept| - 1, 0))
  }

  method AcquireSliding(requests: seq<Time>, limit: nat, window: int, now: Time)
    returns (requests': seq<Time>, result: Result)
    requires limit > 0
    ensures SlidingStep(requests', result) == Sliding(requests, limit, window, now)
  {
    requests' := requests;
    ghost var popped := 0;
    while requests' != [] && now >= requests'[0] && now - requests'[0] >= window
      invariant 0 <= popped <= |requests| && requests' == requests[popped..]
      invariant Expired(requests, window, now, popped) == Expired(requests, window, now, 0)
      decreases |requests'|
    {
      requests' := requests'[1..];
      popped := popped + 1;
    }
    if |requests'| >= limit {
      result := Result(false, 0, CeilSeconds(requests'[0] + window - now));
      return;
    }
    requests' := requests' + [now];
    result := Result(true, limit - |requests'|, 0);
  }

  /** Admissions that still count at `now`, in the full history. */
  function Recent(history: seq<Time>, window: int, now: Time): nat { CountIn(history, now - window + 1, now + 1) }

  function SlidingRun(limit: nat, window: int, times: seq<Time>): (r: (seq<Time>, seq<Time>))
    requires limit > 0
  {
    if times == [] then ([], [])
    else
      var (deque, admitted) := SlidingRun(limit, window, times[..|times| - 1]);
      var step := Sliding(deque, limit, window, times[|times| - 1]);
      (step.requests, admitted + if step.result.allowed then [times[|times| - 1]] else [])
  }

  lemma {:induction false} CountAll(a: seq<Time>, lo: Time, hi: Time)
    requires forall i :: 0 <= i < |a| ==> lo <= a[i] < hi
    ensures CountIn(a, lo, hi) == |a|
  {
    if a != [] { CountAll(a[..|a| - 1], lo, hi); }
  }

  lemma {:induction false} CountNone(a: seq<Time>, lo: Time, hi: Time)
    requires forall i :: 0 <= i < |a| ==> !(lo <= a[i] < hi)
    ensures CountIn(a, lo, hi) == 0
  {
    if a != [] { CountNone(a[..|a| - 1], lo, hi); }
  }

  lemma {:induction false} CountAppend(a: seq<Time>, b: seq<Time>, lo: Time, hi: Time)
    ensures CountIn(a + b, lo, hi) == CountIn(a, lo, hi) + CountIn(b, lo, hi)
  {
    if b == [] {
      assert a + b == a;
    } else {
      assert (a + b)[..|a + b| - 1] == a + b[..|b| - 1];
      CountAppend(a, b[..|b| - 1], lo, hi);
    }
  }

  ghost predicate SlidingInv(deque: seq<Time>, admitted: seq<Time>, window: int, last: Time) {
    && Sorted(admitted) && (forall i :: 0 <= i < |admitted| ==> admitted[i] <= last)
    && |deque| <= |admitted| && deque == admitted[|admitted| - |deque|..]
    && (forall i :: 0 <= i < |admitted| - |deque| ==> last - admitted[i] >= window)
  }

  lemma SlidingStepKeeps(deque: seq<Time>, admitted: seq<Time>, limit: nat, window: int, last: Time, now: Time)
    requires limit > 0 && window > 0 && SlidingInv(deque, admitted, window, last) && last <= now
    ensures var step := Sliding(deque, limit, window, now);
            && (step.result.allowed <==> Recent(admitted, window, now) < limit)
            && (step.result.allowed ==> step.result.remaining == limit - Recent(admitted, window, now) - 1)
            && SlidingInv(step.requests, admitted + if step.result.allowed then [now] else [], window, now)
  {
    hide CeilSeconds, Trim, Recent;
    RecentSplit(deque, admitted, window, last, now);
    var kept := Trim(deque, window, now);
    RecentIsKept(admitted, kept, window, now);
    SlidingGrow(admitted, kept, window, now);
    hide SlidingInv;
    assert admitted + [] == admitted;
  }

  lemma RecentIsKept(admitted: seq<Time>, kept: seq<Time>, window: int, now: Time)
    requires |kept| <= |admitted| && kept == admitted[|admitted| - |kept|..]
    requires forall i :: 0 <= i < |admitted| - |kept| ==> now - admitted[i] >= window
    requires forall i :: |admitted| - |kept| <= i < |admitted| ==> now - admitted[i] < window && admitted[i] <= now
    ensures Recent(admitted, window, now) == |kept|
  {
    hide CountIn;
    var lo, gone := now - window + 1, admitted[..|admitted| - |kept|];
    assert admitted == gone + kept;
    CountNone(gone, lo, now + 1);
    CountAll(kept, lo, now + 1);
    CountAppend(gone, kept, lo, now + 1);
  }

  /** Trimming a sorted deque keeps exactly what is recent. */
  lemma RecentSplit(deque: seq<Time>, admitted: seq<Time>, window: int, last: Time, now: Time)
    requires window > 0 && SlidingInv(deque, admitted, window, last) && last <= now
    ensures var kept := Trim(deque, window, now);
            var cut := |admitted| - |kept|;
            && 0 <= cut && kept == admitted[cut..]
            && (forall i :: 0 <= i < cut ==> now - admitted[i] >= window)
            && (forall i :: cut <= i < |admitted| ==> now - admitted[i] < window && admitted[i] <= now)
  {
    var k, base := Expired(deque, window, now, 0), |admitted| - |deque|;
    assert Trim(deque, window, now) == admitted[base + k..];
    forall i | 0 <= i < base + k ensures now - admitted[i] >= window {
      if i >= base { assert admitted[i] == deque[i - base]; }
    }
    if k < |deque| { assert deque[k] == admitted[base + k]; }
  }

  lemma SlidingGrow(admitted: seq<Time>, kept: seq<Time>, window: int, now: Time)
    requires Sorted(admitted) && (forall i :: 0 <= i < |admitted| ==> admitted[i] <= now)
    requires |kept| <= |admitted| && kept == admitted[|admitted| - |kept|..]
    requires forall i :: 0 <= i < |admitted| - |kept| ==> now - admitted[i] >= window
    ensures SlidingInv(kept, admitted + [], window, now)
    ensures SlidingInv(kept + [now], admitted + [now], window, now)
  {
    assert admitted + [] == admitted;
    var more := admitted + [now];
    assert more[|more| - |kept| - 1..] == kept + [now];
  }

  lemma {:induction false} SlidingRunInv(limit: nat, window: int, times: seq<Time>)
    requires limit > 0 && window > 0 && Sorted(times) && times != []
    ensures var (deque, admitted) := SlidingRun(limit, window, times);
            SlidingInv(deque, admitted, window, times[|times| - 1])
  {
    hide Sliding;
    var front, now := times[..|times| - 1], times[|times| - 1];
    if front == [] {
      SlidingStepKeeps([], [], limit, window, now, now);
    } else {
      SlidingRunInv(limit, window, front);
      var (deque, admitted) := SlidingRun(limit, window, front);
      SlidingStepKeeps(deque, admitted, limit, window, front[|front| - 1], now);
    }
  }

  /** The deque refines the full history: a request is refused exactly when `limit` admissions are recent. */
  lemma SlidingRefinesHistory(limit: nat, window: int, times: seq<Time>, now: Time)
    requires limit > 0 && window > 0 && Sorted(times + [now])
    ensures var (deque, admitted) := SlidingRun(limit, window, times);
            Sliding(deque, limit, window, now).result.allowed <==> Recent(admitted, window, now) < limit
  {
    hide Sliding;
    if times == [] {
      SlidingStepKeeps([], [], limit, window, now, now);
    } else {
      var all := times + [now];
      assert forall i :: 0 <= i < |times| ==> times[i] == all[i];
      assert all[|times|] == now;
      SlidingRunInv(limit, window, times);
      var (deque, admitted) := SlidingRun(limit, window, times);
      SlidingStepKeeps(deque, admitted, limit, window, times[|times| - 1], now);
    }
  }

  lemma {:induction false} SlidingSpacing(limit: nat, window: int, times: seq<Time>)
    requires limit > 0 && window > 0 && Sorted(times)
    ensures var a := SlidingRun(limit, window, times).1;
            forall i, j :: 0 <= i && i + limit <= j < |a| ==> a[j] - a[i] >= window
  {
    hide CountIn, CeilSeconds, Trim;
    if times != [] {
      var front, now := times[..|times| - 1], times[|times| - 1];
      SlidingSpacing(limit, window, front);
      var (deque, a) := SlidingRun(limit, window, front);
      if front != [] {
        SlidingRunInv(limit, window, front);
        RecentSplit(deque, a, window, front[|front| - 1], now);
      }
      SpacingGrows(a, limit, window, |Trim(deque, window, now)|, now);
    }
  }

  lemma SpacingGrows(a: seq<Time>, limit: nat, window: int, recent: nat, now: Time)
    requires forall i, j :: 0 <= i && i + limit <= j < |a| ==> a[j] - a[i] >= window
    requires forall i :: 0 <= i < |a| - recent ==> now - a[i] >= window
    ensures recent < limit ==> var more := a + [now];
              forall i, j :: 0 <= i && i + limit <= j < |more| ==> more[j] - more[i] >= window
    ensures a + [] == a
  {
  }

  /** Over any run, every half-open interval of window length holds at most `limit` admissions. */
  lemma SlidingBound(limit: nat, window: int, times: seq<Time>, start: Time)
    requires limit > 0 && window > 0 && Sorted(times)
    ensures CountIn(SlidingRun(limit, window, times).1, start, start + window) <= limit
  {
    var a := SlidingRun(limit, window, times).1;
    if CountIn(a, start, start + window) > 0 {
      var i, j := SpanOf(a, start, start + window);
      SlidingSpacing(limit, window, times);
    }
  }

  /** Whether the `k`-th of consecutive requests at one instant is admitted. */
  function NthSliding(requests: seq<Time>, limit: nat, window: int, now: Time, k: nat): bool
    requires limit > 0 && k > 0
    decreases k
  {
    var step := Sliding(requests, limit, window, now);
    if k == 1 then step.result.allowed else NthSliding(step.requests, limit, window, now, k - 1)
  }

  lemma {:induction false} NthSlidingWhen(requests: seq<Time>, limit: nat, window: int, now: Time, k: nat)
    requires limit > 0 && window > 0 && k > 0
    requires requests != [] ==> !(now >= requests[0] && now - requests[0] >= window)
    ensures NthSliding(requests, limit, window, now, k) <==> |requests| + k <= limit
    decreases k
  {
    assert Trim(requests, window, now) == requests;
    if k > 1 { NthSlidingWhen(Sliding(requests, limit, window, now).requests, limit, window, now, k - 1); }
  }

  /** `remaining` is exactly the number of further requests at the same instant that would be admitted. */
  lemma SlidingRemainingIsExact(requests: seq<Time>, limit: nat, window: int, now: Time, k: nat)
    requires limit > 0 && window > 0 && k > 0 && Sliding(requests, limit, window, now).result.allowed
    ensures var step := Sliding(requests, limit, window, now);
            NthSliding(step.requests, limit, window, now, k) <==> k <= step.result.remaining
  {
    hide NthSliding;
    NthSlidingWhen(Sliding(requests, limit, window, now).requests, limit, window, now, k);
  }

  /**
   A refused caller that waits `retryAfter` seconds is admitted, and one second less is too little, when the log holds
   no more than the limit allows.
   */
  lemma SlidingRetryIsExact(requests: seq<Time>, limit: nat, window: int, now: Time)
    requires limit > 0 && window > 0 && |requests| <= limit && !Sliding(requests, limit, window, now).result.allowed
    ensures var step := Sliding(requests, limit, window, now);
            var retry := step.result.retryAfter;
            && (requests[0] <= now ==> retry > 0)
            && Sliding(step.requests, limit, window, now + retry * SECOND).result.allowed
            && (retry > 0 ==> !Sliding(step.requests, limit, window, now + (retry - 1) * SECOND).result.allowed)
  {
    var kept := Trim(requests, window, now);
    assert kept == requests;
    CeilDivBounds(kept[0] + window - now, SECOND);
    var retry := Sliding(requests, limit, window, now).result.retryAfter;
    assert |Trim(kept, window, now + retry * SECOND)| < |kept|;
    if retry > 0 { assert Trim(kept, window, now + (retry - 1) * SECOND) == kept; }
  }

  // ---------------------------------------------------------------- fixed window

  datatype Fixed = Fixed(startedAt: Time, used: nat)

  datatype FixedStep = FixedStep(state: Fixed, result: Result)

  function FixedWindow(s: Fixed, limit: nat, window: int, now: Time): FixedStep
    requires limit > 0
  {
    var current := if now >= s.startedAt && now - s.startedAt >= window then Fixed(now, 0) else s;
    if current.used >= limit then FixedStep(current, Result(false, 0, CeilSeconds(window - (now - current.startedAt))))
    else FixedStep(current.(used := current.used + 1), Result(true, limit - current.used - 1, 0))
  }

  function FixedRun(s: Fixed, limit: nat, window: int, times: seq<Time>): (r: (Fixed, seq<Time>))
    requires limit > 0
  {
    if times == [] then (s, [])
    else
      var (state, admitted) := FixedRun(s, limit, window, times[..|times| - 1]);
      var step := FixedWindow(state, limit, window, times[|times| - 1]);
      (step.state, admitted + if step.result.allowed then [times[|times| - 1]] else [])
  }

  /**
   The current window opens with an admission; what came before it is at most as late, and everything up to the
   opening of the window before is a window older.
   */
  ghost predicate FixedInv(s: Fixed, a: seq<Time>, limit: nat, window: int, last: Time) {
    && 1 <= s.used <= limit && s.used <= |a| && s.startedAt <= last && a[|a| - s.used] == s.startedAt
    && (forall i :: 0 <= i < |a| ==> a[i] <= last)
    && (forall i :: 0 <= i <= |a| - s.used ==> a[i] <= s.startedAt)
    && (forall i :: 0 <= i <= |a| - s.used - limit ==> a[i] + window <= s.startedAt)
    && (forall i, j :: 0 <= i && i + 2 * limit - 1 <= j < |a| ==> a[j] - a[i] >= window)
  }

  lemma FixedStepKeeps(s: Fixed, a: seq<Time>, limit: nat, window: int, last: Time, now: Time)
    requires limit > 0 && window > 0 && FixedInv(s, a, limit, window, last) && last <= now
    ensures var step := FixedWindow(s, limit, window, now);
            FixedInv(step.state, a + if step.result.allowed then [now] else [], limit, window, now)
  {
    hide CeilSeconds;
    assert a + [] == a;
  }

  lemma {:induction false} FixedRunInv(limit: nat, window: int, times: seq<Time>)
    requires limit > 0 && window > 0 && times != [] && Sorted(times)
    ensures var (s, a) := FixedRun(Fixed(times[0], 0), limit, window, times);
            FixedInv(s, a, limit, window, times[|times| - 1])
    decreases |times|
  {
    hide CeilSeconds;
    var front, now := times[..|times| - 1], times[|times| - 1];
    if front == [] {
      assert FixedRun(Fixed(now, 0), limit, window, front) == (Fixed(now, 0), []);
      assert [] + [now] == [now];
    } else {
      FixedRunInv(limit, window, front);
      var (s, a) := FixedRun(Fixed(times[0], 0), limit, window, front);
      FixedStepKeeps(s, a, limit, window, front[|front| - 1], now);
    }
  }

  /** A fixed window, opened by its first request, admits at most 2 * limit - 1 in any interval of window length. */
  lemma FixedBound(limit: nat, window: int, times: seq<Time>, from: Time)
    requires limit > 0 && window > 0 && times != [] && Sorted(times)
    ensures CountIn(FixedRun(Fixed(times[0], 0), limit, window, times).1, from, from + window) <= 2 * limit - 1
  {
    var a := FixedRun(Fixed(times[0], 0), limit, window, times).1;
    if CountIn(a, from, from + window) > 0 {
      var i, j := SpanOf(a, from, from + window);
      FixedRunInv(limit, window, times);
    }
  }

  /** Whether the `k`-th of consecutive requests at one instant is admitted. */
  function NthFixed(s: Fixed, limit: nat, window: int, now: Time, k: nat): bool
    requires limit > 0 && k > 0
    decreases k
  {
    var step := FixedWindow(s, limit, window, now);
    if k == 1 then step.result.allowed else NthFixed(step.state, limit, window, now, k - 1)
  }

  lemma {:induction false} NthFixedWhen(s: Fixed, limit: nat, window: int, now: Time, k: nat)
    requires limit > 0 && window > 0 && k > 0 && !(now >= s.startedAt && now - s.startedAt >= window)
    ensures NthFixed(s, limit, window, now, k) <==> s.used + k <= limit
    decreases k
  {
    if k > 1 { NthFixedWhen(FixedWindow(s, limit, window, now).state, limit, window, now, k - 1); }
  }

  /** `remaining` is exactly the number of further requests at the same instant that would be admitted. */
  lemma FixedRemainingIsExact(s: Fixed, limit: nat, window: int, now: Time, k: nat)
    requires limit > 0 && window > 0 && k > 0 && FixedWindow(s, limit, window, now).result.allowed
    ensures var step := FixedWindow(s, limit, window, now);
            NthFixed(step.state, limit, window, now, k) <==> k <= step.result.remaining
  {
    hide NthFixed;
    NthFixedWhen(FixedWindow(s, limit, window, now).state, limit, window, now, k);
  }

  /** A refused caller that waits `retryAfter` seconds is admitted, and one second less is too little. */
  lemma FixedRetryIsExact(s: Fixed, limit: nat, window: int, now: Time)
    requires limit > 0 && window > 0 && s.startedAt <= now && !FixedWindow(s, limit, window, now).result.allowed
    ensures var step := FixedWindow(s, limit, window, now);
            var retry := step.result.retryAfter;
            && retry > 0
            && FixedWindow(step.state, limit, window, now + retry * SECOND).result.allowed
            && !FixedWindow(step.state, limit, window, now + (retry - 1) * SECOND).result.allowed
  {
    CeilDivBounds(window - (now - s.startedAt), SECOND);
  }

  /** The requests that reach the bound: one opens a window, the others crowd around its end. */
  function Crowd(limit: nat, window: int): seq<Time>
    requires limit > 0
  {
    [0] + Repeat(window - 1, limit - 1) + Repeat(window, limit)
  }

  function Repeat(t: Time, n: nat): seq<Time> { seq(n, _ => t) }

  lemma FixedStepSnoc(s: Fixed, limit: nat, window: int, times: seq<Time>, now: Time)
    requires limit > 0
    ensures var (state, a) := FixedRun(s, limit, window, times);
            var step := FixedWindow(state, limit, window, now);
            FixedRun(s, limit, window, times + [now]) ==
            (step.state, a + if step.result.allowed then [now] else [])
  {
    assert (times + [now])[..|times|] == times;
  }

  /** Requests at one instant of an open window are admitted while it has room. */
  lemma {:induction false} FixedRepeats(limit: nat, window: int, times: seq<Time>, t: Time, n: nat)
    requires limit > 0 && window > 0 && times != []
    requires var (s, _) := FixedRun(Fixed(times[0], 0), limit, window, times);
             s.startedAt <= t < s.startedAt + window && s.used + n <= limit
    ensures var (s, a) := FixedRun(Fixed(times[0], 0), limit, window, times);
            FixedRun(Fixed(times[0], 0), limit, window, times + Repeat(t, n)) ==
            (Fixed(s.startedAt, s.used + n), a + Repeat(t, n))
  {
    hide FixedRun, CeilSeconds;
    var (s, a) := FixedRun(Fixed(times[0], 0), limit, window, times);
    if n == 0 {
      assert times + Repeat(t, 0) == times && a + Repeat(t, 0) == a;
    } else {
      FixedRepeats(limit, window, times, t, n - 1);
      FixedStepSnoc(Fixed(times[0], 0), limit, window, times + Repeat(t, n - 1), t);
      assert Repeat(t, n) == Repeat(t, n - 1) + [t];
      assert times + Repeat(t, n) == times + Repeat(t, n - 1) + [t];
      assert a + Repeat(t, n) == a + Repeat(t, n - 1) + [t];
    }
  }

  /** The bound is reached for every limit and every window longer than one tick. */
  lemma FixedBoundReached(limit: nat, window: int)
    requires limit > 0 && window > 1
    ensures Sorted(Crowd(limit, window))
    ensures var admitted := FixedRun(Fixed(0, 0), limit, window, Crowd(limit, window)).1;
            CountIn(admitted, window - 1, 2 * window - 1) == 2 * limit - 1
  {
    hide FixedRun, CountIn;
    var first, early, late := [0], Repeat(window - 1, limit - 1), Repeat(window, limit - 1);
    FixedStepSnoc(Fixed(0, 0), limit, window, [], 0);
    NoRequests(limit, window);
    assert [] + [0] == [0];
    FixedRepeats(limit, window, first, window - 1, limit - 1);
    FixedStepSnoc(Fixed(0, 0), limit, window, first + early, window);
    FixedRepeats(limit, window, first + early + [window], window, limit - 1);
    assert Repeat(window, limit) == [window] + late;
    assert Crowd(limit, window) == first + early + [window] + late;
    CountNone(first, window - 1, 2 * window - 1);
    CountAll(early + [window] + late, window - 1, 2 * window - 1);
    CountAppend(first, early + [window] + late, window - 1, 2 * window - 1);
    assert Crowd(limit, window) == first + (early + [window] + late);
  }

  lemma NoRequests(limit: nat, window: int)
    requires limit > 0
    ensures FixedRun(Fixed(0, 0), limit, window, []) == (Fixed(0, 0), [])
  {
  }

  // ---------------------------------------------------------------- token bucket

  datatype Bucket = Bucket(tokens: real, updatedAt: Time)

  datatype BucketStep = BucketStep(state: Bucket, result: Result)

  function MinReal(a: real, b: real): real { if a <= b then a else b }

  function Refilled(b: Bucket, limit: nat, window: int, capacity: nat, now: Time): Bucket
    requires window > 0
  {
    if now <= b.updatedAt then b
    else
      var gain := (now - b.updatedAt) as real * (limit as real / window as real);
      Bucket(MinReal(capacity as real, b.tokens + gain), now)
  }

  function TokenBucket(b: Bucket, limit: nat, window: int, capacity: nat, now: Time): BucketStep
    requires limit > 0 && window > 0
  {
    var full := Refilled(b, limit, window, capacity, now);
    if full.tokens < 1.0 then
      var wait := (1.0 - full.tokens) / (limit as real / window as real);
      BucketStep(full, Result(false, 0, CeilSeconds(wait.Floor)))
    else
      var left := full.tokens - 1.0;
      BucketStep(full.(tokens := left), Result(true, if left.Floor >= 0 then left.Floor else 0, 0))
  }

  // ---- what a bucket admits, for every limit and window

  function BucketRun(b: Bucket, limit: nat, window: int, capacity: nat, times: seq<Time>): (r: (Bucket, seq<Time>))
    requires limit > 0 && window > 0
  {
    if times == [] then (b, [])
    else
      var (state, admitted) := BucketRun(b, limit, window, capacity, times[..|times| - 1]);
      var step := TokenBucket(state, limit, window, capacity, times[|times| - 1]);
      (step.state, admitted + if step.result.allowed then [times[|times| - 1]] else [])
  }

  /** Real multiplication; used hidden, through the lemma below. */
  function Gain(elapsed: int, rate: real): real { elapsed as real * rate }

  lemma GainAdds(a: int, b: int, rate: real)
    requires rate >= 0.0
    ensures Gain(a + b, rate) == Gain(a, rate) + Gain(b, rate) && Gain(0, rate) == 0.0
    ensures a >= 0 ==> Gain(a, rate) >= 0.0
  {
    Distribute(a as real, b as real, rate);
    if a > 0 && rate > 0.0 { PositiveProduct(a as real, rate); }
  }

  /** What has been admitted since any admission, and what is left, was there or has been refilled since. */
  ghost predicate BucketInv(b: Bucket, a: seq<Time>, rate: real, capacity: nat) {
    && 0.0 <= b.tokens <= capacity as real
    && (forall i :: 0 <= i < |a| ==> (|a| - i) as real + b.tokens <= capacity as real + Gain(b.updatedAt - a[i], rate))
    && (forall i, j :: 0 <= i <= j < |a| ==> (j - i + 1) as real <= capacity as real + Gain(a[j] - a[i], rate))
  }

  lemma RefillKeeps(b: Bucket, a: seq<Time>, limit: nat, window: int, capacity: nat, now: Time)
    requires limit > 0 && window > 0 && b.updatedAt <= now
    requires BucketInv(b, a, limit as real / window as real, capacity)
    ensures var full := Refilled(b, limit, window, capacity, now);
            full.updatedAt == now && BucketInv(full, a, limit as real / window as real, capacity)
  {
    var rate := limit as real / window as real;
    RateIsPositive(limit, window);
    GainAdds(now - b.updatedAt, 0, rate);
    assert Gain(now - b.updatedAt, rate) == (now - b.updatedAt) as real * rate;
    hide Gain;
    var full := Refilled(b, limit, window, capacity, now);
    forall i | 0 <= i < |a|
      ensures (|a| - i) as real + full.tokens <= capacity as real + Gain(now - a[i], rate)
    {
      GainAdds(now - b.updatedAt, b.updatedAt - a[i], rate);
      assert now - b.updatedAt + (b.updatedAt - a[i]) == now - a[i];
    }
  }

  lemma RateIsPositive(limit: nat, window: int)
    requires limit > 0 && window > 0
    ensures limit as real / window as real > 0.0
  {
  }

  lemma SpendKeeps(b: Bucket, a: seq<Time>, rate: real, capacity: nat)
    requires rate >= 0.0 && b.tokens >= 1.0 && BucketInv(b, a, rate, capacity)
    ensures BucketInv(b.(tokens := b.tokens - 1.0), a + [b.updatedAt], rate, capacity)
  {
    GainAdds(0, 0, rate);
    hide Gain;
    var more := a + [b.updatedAt];
    forall i, j | 0 <= i <= j < |more|
      ensures (j - i + 1) as real <= capacity as real + Gain(more[j] - more[i], rate)
    {
      if i < |a| == j { assert more[i] == a[i]; }
    }
  }

  lemma {:induction false} BucketRunInv(b: Bucket, limit: nat, window: int, capacity: nat, times: seq<Time>)
    requires limit > 0 && window > 0 && 0.0 <= b.tokens <= capacity as real && Sorted([b.updatedAt] + times)
    ensures var (state, a) := BucketRun(b, limit, window, capacity, times);
            && BucketInv(state, a, limit as real / window as real, capacity)
            && state.updatedAt == if times == [] then b.updatedAt else times[|times| - 1]
  {
    hide Refilled, BucketInv, CeilSeconds;
    var rate := limit as real / window as real;
    RateIsPositive(limit, window);
    if times == [] {
      NothingAdmitted(b, rate, capacity);
    } else {
      var front, now := times[..|times| - 1], times[|times| - 1];
      var all := [b.updatedAt] + times;
      assert all[0] == b.updatedAt && forall i :: 0 <= i < |times| ==> all[i + 1] == times[i];
      assert [b.updatedAt] + front == all[..|all| - 1];
      BucketRunInv(b, limit, window, capacity, front);
      var (state, a) := BucketRun(b, limit, window, capacity, front);
      RefillKeeps(state, a, limit, window, capacity, now);
      var full := Refilled(state, limit, window, capacity, now);
      if full.tokens >= 1.0 { SpendKeeps(full, a, rate, capacity); }
      assert a + [] == a;
    }
  }

  lemma NothingAdmitted(b: Bucket, rate: real, capacity: nat)
    requires 0.0 <= b.tokens <= capacity as real
    ensures BucketInv(b, [], rate, capacity)
  {
  }

  /** Any closed span of length `d` admits at most what the bucket holds and what is refilled in it, over any run. */
  lemma BucketSpan(b: Bucket, limit: nat, window: int, capacity: nat, times: seq<Time>, start: Time, d: nat)
    requires limit > 0 && window > 0 && 0.0 <= b.tokens <= capacity as real && Sorted([b.updatedAt] + times)
    ensures var admitted := BucketRun(b, limit, window, capacity, times).1;
            CountIn(admitted, start, start + d + 1) <= capacity + d * limit / window
  {
    hide BucketRun, CountIn;
    var a := BucketRun(b, limit, window, capacity, times).1;
    if CountIn(a, start, start + d + 1) > 0 {
      var i, j := SpanOf(a, start, start + d + 1);
      BucketRunInv(b, limit, window, capacity, times);
      RefilledWhole(j - i + 1 - capacity, a[j] - a[i], d, limit, window);
    } else {
      RefilledWhole(0, 0, d, limit, window);
    }
  }

  lemma RefilledWhole(k: int, elapsed: int, d: nat, limit: nat, window: int)
    requires limit > 0 && window > 0 && elapsed <= d && k as real <= Gain(elapsed, limit as real / window as real)
    ensures k <= d * limit / window
  {
    var l, w := limit as real, window as real;
    var rate := l / w;
    RateIsPositive(limit, window);
    GainAdds(d - elapsed, elapsed, rate);
    assert k as real <= Gain(d, rate);
    DivMul(l, w);
    MulAssoc(d as real, rate, w);
    RealOfProduct(d, limit);
    RealOfProduct(k, window);
    ScaleUp(k as real, d as real * rate, w);
    DivBound(k, window, d * limit);
  }

  lemma ScaleUp(a: real, b: real, w: real)
    requires a <= b && w > 0.0
    ensures a * w <= b * w
  {
    ScaledSign(b - a, w);
    Distribute(b, a, w);
  }

  // ---- and when its advice is good

  /** How long a refused caller would have to wait, in nanoseconds and fractions of them. */
  function Wait(b: Bucket, limit: nat, window: int, capacity: nat, now: Time): real
    requires limit > 0 && window > 0
  {
    (1.0 - Refilled(b, limit, window, capacity, now).tokens) / (limit as real / window as real)
  }

  /**
   A refused caller that waits `retryAfter` seconds is admitted if and only if the wait did not lose a fraction of a
   nanosecond in front of a whole second: the code drops the fraction before it rounds up.
   */
  lemma BucketRetryExact(b: Bucket, limit: nat, window: int, capacity: nat, now: Time)
    requires limit > 0 && window > 0 && capacity > 0 && b.updatedAt <= now
    requires !TokenBucket(b, limit, window, capacity, now).result.allowed
    ensures var step, wait := TokenBucket(b, limit, window, capacity, now), Wait(b, limit, window, capacity, now);
            TokenBucket(step.state, limit, window, capacity, now + step.result.retryAfter * SECOND).result.allowed
            <==> wait == wait.Floor as real || wait.Floor % SECOND != 0
  {
    hide TokenBucket, Refilled, CeilSeconds, Wait;
    Refusal(b, limit, window, capacity, now);
    var full, wait := Refilled(b, limit, window, capacity, now), Wait(b, limit, window, capacity, now);
    var elapsed := CeilSeconds(wait.Floor) * SECOND;
    AllowedLater(full, limit, window, capacity, elapsed);
    WaitMeans(b, limit, window, capacity, now, elapsed);
    SecondsCover(wait);
  }

  lemma Refusal(b: Bucket, limit: nat, window: int, capacity: nat, now: Time)
    requires limit > 0 && window > 0 && b.updatedAt <= now
    requires !TokenBucket(b, limit, window, capacity, now).result.allowed
    ensures var full := Refilled(b, limit, window, capacity, now);
            && full.updatedAt == now && full.tokens < 1.0
            && TokenBucket(b, limit, window, capacity, now) ==
               BucketStep(full, Result(false, 0, CeilSeconds(Wait(b, limit, window, capacity, now).Floor)))
  {
    hide CeilSeconds;
  }

  lemma WaitMeans(b: Bucket, limit: nat, window: int, capacity: nat, now: Time, elapsed: int)
    requires limit > 0 && window > 0 && Refilled(b, limit, window, capacity, now).tokens < 1.0
    ensures var wait := Wait(b, limit, window, capacity, now);
            && wait > 0.0
            && var rate := limit as real / window as real;
            && var missing := 1.0 - Refilled(b, limit, window, capacity, now).tokens;
            (elapsed as real * rate >= missing <==> elapsed as real >= wait)
  {
    var missing, rate := 1.0 - Refilled(b, limit, window, capacity, now).tokens, limit as real / window as real;
    RateIsPositive(limit, window);
    WaitIsPositive(missing, rate);
    DivMul(missing, rate);
    EnoughRefilled(missing / rate, rate, elapsed);
    hide Refilled;
  }

  /** A waiting caller is admitted when what is refilled makes up a token. */
  lemma AllowedLater(full: Bucket, limit: nat, window: int, capacity: nat, elapsed: nat)
    requires limit > 0 && window > 0 && capacity > 0 && full.tokens < 1.0
    ensures TokenBucket(full, limit, window, capacity, full.updatedAt + elapsed).result.allowed <==>
            elapsed as real * (limit as real / window as real) >= 1.0 - full.tokens
  {
    hide CeilSeconds;
    var rate := limit as real / window as real;
    if elapsed == 0 { assert 0.0 * rate == 0.0; }
  }

  lemma WaitIsPositive(missing: real, rate: real)
    requires missing > 0.0 && rate > 0.0
    ensures missing / rate > 0.0
  {
    DivMul(missing, rate);
    if missing / rate <= 0.0 { ScaledSign(-(missing / rate), rate); }
  }

  /** Whole seconds cover a wait unless its fraction was lost in front of a whole second. */
  lemma SecondsCover(wait: real)
    requires wait > 0.0
    ensures (CeilSeconds(wait.Floor) * SECOND) as real >= wait <==>
            wait == wait.Floor as real || wait.Floor % SECOND != 0
  {
    var n := wait.Floor;
    CeilDivBounds(n, SECOND);
    var k := CeilDiv(n, SECOND);
    if n % SECOND != 0 { assert k * SECOND > n; } else { assert k * SECOND == n; }
  }

  lemma EnoughRefilled(wait: real, rate: real, elapsed: int)
    requires rate > 0.0
    ensures elapsed as real * rate >= wait * rate <==> elapsed as real >= wait
  {
    if elapsed as real >= wait {
      ScaleUp(wait, elapsed as real, rate);
    } else {
      PositiveProduct(wait - elapsed as real, rate);
      Distribute(wait, elapsed as real, rate);
    }
  }

  /** Three in ten seconds, one at a time: told to come back in 3 s at 333333333 ns, a caller is refused again then. */
  lemma RetryTooEarly()
    ensures var step := TokenBucket(Bucket(0.0, 0), 3, 10 * SECOND, 1, 333_333_333);
            && step.result == Result(false, 0, 3)
            && !TokenBucket(step.state, 3, 10 * SECOND, 1, 333_333_333 + 3 * SECOND).result.allowed
  {
    var b, now, w := Bucket(0.0, 0), 333_333_333, 10 * SECOND;
    var full := Refilled(b, 3, w, 1, now);
    assert full.tokens == 333_333_333.0 * (3.0 / 10_000_000_000.0) == 0.0999999999;
    var wait := Wait(b, 3, w, 1, now);
    assert wait == (1.0 - 0.0999999999) / (3.0 / 10_000_000_000.0);
    assert wait == 9_000_000_001.0 / 3.0;
    assert wait.Floor == 3_000_000_000;
    assert CeilSeconds(wait.Floor) == 3;
    BucketRetryExact(b, 3, w, 1, now);
  }

  /** Tokens and theoretical arrival tell the same story, in units of one interval. */
  ghost predicate Agree(b: Bucket, arrival: Time, interval: int, burst: nat) {
    b.tokens * interval as real == (Times(burst, interval) - Max(0, arrival - b.updatedAt)) as real
  }

  lemma RealOfProduct(a: int, b: int)
    ensures (a * b) as real == a as real * b as real
  {
  }

  lemma DivMul(a: real, b: real)
    requires b != 0.0
    ensures a / b * b == a
  {
  }

  lemma MulAssoc(a: real, b: real, c: real)
    ensures a * b * c == a * (b * c) && a * b == b * a
  {
  }

  lemma CommonFactor(l: real, i: real)
    requires l > 0.0 && i > 0.0 && l * i != 0.0
    ensures l / (l * i) * i == 1.0
  {
    var q := l / (l * i);
    DivMul(l, l * i);
    MulAssoc(q, i, l);
    MulAssoc(l, i, 0.0);
    DivCancel(q * i, 1.0, l);
  }

  lemma PositiveProduct(l: real, i: real)
    requires l > 0.0 && i > 0.0
    ensures l * i > 0.0
  {
  }

  /** When the limit divides the window, a token takes exactly one interval. */
  lemma Rate(limit: nat, interval: int, window: int)
    requires limit > 0 && interval > 0 && window == limit * interval
    ensures limit as real / window as real * interval as real == 1.0
  {
    RealOfProduct(limit, interval);
    PositiveProduct(limit as real, interval as real);
    CommonFactor(limit as real, interval as real);
  }

  lemma DivCancel(a: real, b: real, c: real)
    requires c != 0.0 && a * c == b * c
    ensures a == b
  {
    assert (a - b) * c == 0.0;
  }

  lemma RefillAgrees(b: Bucket, arrival: Time, limit: nat, interval: int, window: int, burst: nat, now: Time)
    requires limit > 0 && interval > 0 && window == limit * interval
    requires Agree(b, arrival, interval, burst) && b.updatedAt <= now
    ensures var r := Refilled(b, limit, window, burst, now);
            r.updatedAt == now && Agree(r, arrival, interval, burst)
  {
    var i := interval as real;
    Rate(limit, interval, window);
    RealOfProduct(burst, interval);
    var rate, elapsed := limit as real / window as real, (now - b.updatedAt) as real;
    MulAssoc(elapsed, rate, i);
    Distribute(b.tokens, elapsed * rate, i);
    ScaledMin(burst as real, b.tokens + elapsed * rate, i);
  }

  lemma Distribute(a: real, b: real, i: real)
    ensures (a + b) * i == a * i + b * i && (a - b) * i == a * i - b * i
  {
  }

  lemma ScaledSign(d: real, i: real)
    requires d >= 0.0 && i > 0.0
    ensures d * i >= 0.0
  {
  }

  lemma ScaledMin(a: real, b: real, i: real)
    requires i > 0.0
    ensures MinReal(a, b) * i == MinReal(a * i, b * i)
  {
    Distribute(a, b, i);
    if a <= b { ScaledSign(b - a, i); Distribute(b, a, i); } else { ScaledSign(a - b, i); }
  }

  lemma FloorOfQuotient(n: int, i: int, x: real)
    requires i > 0 && x * i as real == n as real
    ensures x.Floor == n / i
  {
    var q, r := n / i, n % i;
    RealOfProduct(q, i);
    assert n as real == q as real * i as real + r as real;
    Distribute(x, q as real, i as real);
    ScaledBelow(x - q as real, r, i);
  }

  lemma ScaledBelow(y: real, r: int, i: int)
    requires i > 0 && 0 <= r < i && y * i as real == r as real
    ensures 0.0 <= y < 1.0
  {
    if y < 0.0 { PositiveProduct(-y, i as real); }
    if y >= 1.0 { PositiveOrZero(y - 1.0, i as real); }
  }

  lemma PositiveOrZero(a: real, i: real)
    requires a >= 0.0 && i > 0.0
    ensures a * i >= 0.0 && (a + 1.0) * i >= i
  {
  }

  /** One request: both algorithms answer alike and keep telling the same story. */
  lemma BucketMatchesGcra(b: Bucket, arrival: Time, limit: nat, interval: int, window: int, burst: nat, now: Time)
    requires limit > 0 && burst > 0 && interval > 0 && window == limit * interval
    requires Agree(b, arrival, interval, burst) && b.updatedAt <= now
    ensures var left, right := TokenBucket(b, limit, window, burst, now), Gcra(arrival, interval, burst, now);
            && left.result == right.result
            && left.state.updatedAt == now && Agree(left.state, right.arrival, interval, burst)
  {
    hide Times, Refilled, CeilDiv, CeilSeconds, Agree;
    RefillAgrees(b, arrival, limit, interval, window, burst, now);
    var full := Refilled(b, limit, window, burst, now);
    var scaled := Times(burst, interval) - Max(0, arrival - now);
    assert full.tokens * interval as real == scaled as real by { AgreeMeans(full, arrival, interval, burst); }
    TimesAdds(burst - 1, 1, interval);
    TimesNonNegative(burst - 1, interval);
    OneToken(full.tokens, scaled, interval);
    if full.tokens < 1.0 {
      RetryMatches(full.tokens, scaled, limit, interval, window);
    } else {
      SpendAgrees(full, arrival, interval, burst);
      FloorOfQuotient(scaled - interval, interval, full.tokens - 1.0);
      RemainingMatches(burst, interval, Max(0, arrival - now) + interval);
    }
  }

  lemma AgreeMeans(b: Bucket, arrival: Time, interval: int, burst: nat)
    requires Agree(b, arrival, interval, burst)
    ensures b.tokens * interval as real == (Times(burst, interval) - Max(0, arrival - b.updatedAt)) as real
  {
  }

  lemma TimesNonNegative(k: int, d: int)
    requires k >= 0 && d >= 0
    ensures Times(k, d) >= 0
  {
    MulMonotone(0, k, d);
  }

  /** Spending a token is pushing the theoretical arrival by an interval. */
  lemma SpendAgrees(b: Bucket, arrival: Time, interval: int, burst: nat)
    requires interval > 0 && Agree(b, arrival, interval, burst)
    ensures Agree(b.(tokens := b.tokens - 1.0), Max(arrival, b.updatedAt) + interval, interval, burst)
    ensures (b.tokens - 1.0) * interval as real ==
            (Times(burst, interval) - Max(0, arrival - b.updatedAt) - interval) as real
  {
    hide Times;
    Distribute(b.tokens, 1.0, interval as real);
  }

  lemma OneToken(tokens: real, scaled: int, interval: int)
    requires interval > 0 && tokens * interval as real == scaled as real
    ensures tokens < 1.0 <==> scaled < interval
  {
    if tokens >= 1.0 { PositiveOrZero(tokens - 1.0, interval as real); }
    if tokens < 1.0 { PositiveProduct(1.0 - tokens, interval as real); }
  }

  lemma RetryMatches(tokens: real, scaled: int, limit: nat, interval: int, window: int)
    requires limit > 0 && interval > 0 && window == limit * interval && tokens * interval as real == scaled as real
    ensures limit as real / window as real != 0.0
    ensures ((1.0 - tokens) / (limit as real / window as real)).Floor == interval - scaled
  {
    var i, rate := interval as real, limit as real / window as real;
    Rate(limit, interval, window);
    var wait := (1.0 - tokens) / rate;
    DivMul(1.0 - tokens, rate);
    MulAssoc(wait, rate, i);
    Distribute(1.0, tokens, i);
  }

  lemma RemainingMatches(burst: nat, interval: int, debt: int)
    requires interval > 0
    ensures (Times(burst, interval) - debt) / interval == burst - CeilDiv(debt, interval)
  {
    var q, r := (-debt) / interval, (-debt) % interval;
    assert -debt == q * interval + r;
    assert (burst + q) * interval == burst * interval + q * interval;
    assert Times(burst, interval) - debt == (burst + q) * interval + r;
    DivUnique((burst + q) * interval + r, interval, burst + q, r);
  }

  function BucketResults(b: Bucket, limit: nat, window: int, capacity: nat, times: seq<Time>): seq<Result>
    requires limit > 0 && window > 0
    decreases |times|
  {
    if times == [] then []
    else
      var step := TokenBucket(b, limit, window, capacity, times[0]);
      [step.result] + BucketResults(step.state, limit, window, capacity, times[1..])
  }

  function GcraResults(arrival: Time, interval: int, burst: int, times: seq<Time>): seq<Result>
    requires interval > 0 && burst > 0
    decreases |times|
  {
    if times == [] then []
    else
      var step := Gcra(arrival, interval, burst, times[0]);
      [step.result] + GcraResults(step.arrival, interval, burst, times[1..])
  }

  lemma {:induction false} ResultsAgree(b: Bucket, arrival: Time, limit: nat, interval: int, window: int, burst: nat,
                                        times: seq<Time>)
    requires limit > 0 && burst > 0 && interval > 0 && window == limit * interval && window > 0
    requires Agree(b, arrival, interval, burst) && Sorted([b.updatedAt] + times)
    ensures BucketResults(b, limit, window, burst, times) == GcraResults(arrival, interval, burst, times)
    decreases |times|
  {
    hide TokenBucket, Gcra, Agree;
    if times != [] {
      var all := [b.updatedAt] + times;
      assert all[0] == b.updatedAt && all[1] == times[0];
      BucketMatchesGcra(b, arrival, limit, interval, window, burst, times[0]);
      assert [times[0]] + times[1..] == all[1..];
      ResultsAgree(TokenBucket(b, limit, window, burst, times[0]).state,
          Gcra(arrival, interval, burst, times[0]).arrival,
                   limit, interval, window, burst, times[1..]);
    }
  }

  /**
   When the limit divides the window, a full token bucket and a fresh GCRA answer every non-decreasing
   request sequence alike: allowed, remaining and retry-after.
   */
  lemma BucketIsGcra(limit: nat, interval: int, window: int, burst: nat, times: seq<Time>)
    requires limit > 0 && burst > 0 && interval > 0 && window == limit * interval && window > 0
    requires times != [] && Sorted(times)
    ensures BucketResults(Bucket(burst as real, times[0]), limit, window, burst, times) ==
            GcraResults(times[0], interval, burst, times)
  {
    RealOfProduct(burst, interval);
    assert forall i :: 0 <= i < |times| ==> times[0] <= times[i];
    ResultsAgree(Bucket(burst as real, times[0]), times[0], limit, interval, window, burst, times);
  }
}
