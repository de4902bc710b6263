/**
 What one client of the store gets, whatever the others do: the answers of its algorithm run on its own request
 times from its first request on, and with them the bounds of that algorithm.
 */
module RateLimitClients {
  import opened Common
  import opened RateLimit
  import opened RateLimitStore

  // ---------------------------------------------------------------- the answers of each algorithm on its own

  function FixedResults(s: Fixed, limit: nat, window: int, times: seq<Time>): seq<Result>
    requires limit > 0
    decreases |times|
  {
    if times == [] then []
    else
      var step := FixedWindow(s, limit, window, times[0]);
      [step.result] + FixedResults(step.state, limit, window, times[1..])
  }

  function SlidingResults(requests: seq<Time>, limit: nat, window: int, times: seq<Time>): seq<Result>
    requires limit > 0
    decreases |times|
  {
    if times == [] then []
    else
      var step := Sliding(requests, limit, window, times[0]);
      [step.result] + SlidingResults(step.requests, limit, window, times[1..])
  }

  function Answers(results: seq<Result>): seq<Option<Result>> {
    seq(|results|, i requires 0 <= i < |results| => Some(results[i]))
  }

  lemma AnswersCons(first: Result, more: seq<Result>)
    ensures Answers([first] + more) == [Some(first)] + Answers(more)
  {
  }

  /** The instants at which requests were admitted. */
  function Admissions(times: seq<Time>, answers: seq<Option<Result>>): seq<Time>
    requires |times| == |answers|
  {
    if times == [] then []
    else
      (if answers[0].Some? && answers[0].value.allowed then [times[0]] else []) + Admissions(times[1..], answers[1..])
  }

  lemma {:induction false} ServeFixed(s: Fixed, p: Policy, times: seq<Time>)
    requires ValidPolicy(p) && p.algorithm.FixedWindowAlgorithm?
    ensures ServeAll(Window(s), p, times) == Answers(FixedResults(s, p.limit, p.window, times))
    decreases |times|
  {
    hide FixedWindow, Answers;
    if times == [] {
      NoAnswers();
    } else {
      var step := FixedWindow(s, p.limit, p.window, times[0]);
      ServeFixed(step.state, p, times[1..]);
      AnswersCons(step.result, FixedResults(step.state, p.limit, p.window, times[1..]));
    }
  }

  lemma NoAnswers()
    ensures Answers([]) == []
  {
  }

  lemma {:induction false} ServeSliding(requests: seq<Time>, p: Policy, times: seq<Time>)
    requires ValidPolicy(p) && p.algorithm.SlidingWindowAlgorithm?
    ensures ServeAll(Log(requests), p, times) == Answers(SlidingResults(requests, p.limit, p.window, times))
    decreases |times|
  {
    hide Sliding, Answers;
    if times == [] {
      NoAnswers();
    } else {
      var step := Sliding(requests, p.limit, p.window, times[0]);
      ServeSliding(step.requests, p, times[1..]);
      AnswersCons(step.result, SlidingResults(step.requests, p.limit, p.window, times[1..]));
    }
  }

  lemma {:induction false} ServeGcra(at: Time, p: Policy, interval: int, times: seq<Time>)
    requires ValidPolicy(p) && p.algorithm.GcraAlgorithm? && interval == p.window / p.limit > 0
    ensures ServeAll(Arrival(at), p, times) == Answers(GcraResults(at, interval, Capacity(p), times))
    decreases |times|
  {
    hide Gcra, Answers, Capacity;
    if times == [] {
      NoAnswers();
    } else {
      var step := Gcra(at, interval, Capacity(p), times[0]);
      ServeGcra(step.arrival, p, interval, times[1..]);
      AnswersCons(step.result, GcraResults(step.arrival, interval, Capacity(p), times[1..]));
    }
  }

  lemma {:induction false} ServeBucket(b: Bucket, p: Policy, times: seq<Time>)
    requires ValidPolicy(p) && p.algorithm.TokenBucketAlgorithm?
    ensures ServeAll(Tokens(b), p, times) == Answers(BucketResults(b, p.limit, p.window, Capacity(p), times))
    decreases |times|
  {
    hide TokenBucket, Answers, Capacity;
    if times == [] {
      NoAnswers();
    } else {
      var step := TokenBucket(b, p.limit, p.window, Capacity(p), times[0]);
      ServeBucket(step.state, p, times[1..]);
      AnswersCons(step.result, BucketResults(step.state, p.limit, p.window, Capacity(p), times[1..]));
    }
  }

  lemma {:induction false} ServeRefused(p: Policy, times: seq<Time>)
    requires ValidPolicy(p) && p.algorithm.GcraAlgorithm? && p.window / p.limit <= 0
    ensures ServeAll(UNUSED, p, times) == seq(|times|, _ => None)
    decreases |times|
  {
    if times != [] { ServeRefused(p, times[1..]); }
  }

  /** The burst of a policy, or its limit where none is set. */
  predicate BurstIs(p: Policy, burst: nat) { if p.burst > 0 then burst == p.burst else burst == p.limit }

  /** The answers to a client that asks at `times`, by its algorithm alone. */
  ghost predicate RunsAlone(p: Policy, burst: nat, times: seq<Time>, answers: seq<Option<Result>>)
    requires p.limit > 0 && p.window > 0 && burst > 0 && times != []
  {
    match p.algorithm
    case FixedWindowAlgorithm => answers == Answers(FixedResults(Fixed(times[0], 0), p.limit, p.window, times))
    case SlidingWindowAlgorithm => answers == Answers(SlidingResults([], p.limit, p.window, times))
    case GcraAlgorithm =>
      var interval := p.window / p.limit;
      if interval > 0 then answers == Answers(GcraResults(times[0], interval, burst, times))
      else answers == seq(|times|, _ => None)
    case TokenBucketAlgorithm =>
      answers == Answers(BucketResults(Bucket(0.0, 0), p.limit, p.window, burst, times))
  }

  lemma ServedAlone(p: Policy, burst: nat, times: seq<Time>)
    requires p.name != "" && p.limit > 0 && p.window > 0 && burst > 0 && BurstIs(p, burst) && times != []
    ensures RunsAlone(p, burst, times, ServeAll(UNUSED, p, times))
  {
    hide FixedWindow, Sliding, Gcra, TokenBucket, Answers;
    var now, rest := times[0], times[1..];
    match p.algorithm
    case FixedWindowAlgorithm =>
      ServeFixed(Fixed(now, 0), p, times);
      assert ServeAll(UNUSED, p, times) == ServeAll(Window(Fixed(now, 0)), p, times);
    case SlidingWindowAlgorithm =>
      ServeSliding([], p, times);
      assert ServeAll(UNUSED, p, times) == ServeAll(Log([]), p, times);
    case GcraAlgorithm =>
      if p.window / p.limit > 0 {
        ServeGcra(now, p, p.window / p.limit, times);
        assert ServeAll(UNUSED, p, times) == ServeAll(Arrival(now), p, times);
      } else {
        ServeRefused(p, times);
      }
    case TokenBucketAlgorithm => ServeBucket(UNUSED.bucket, p, times);
  }

  /**
   A client new to the store is answered, whoever is served in between, as its algorithm alone answers its request
   times: the window opens with its first request, the log is empty, the theoretical arrival is the first request, the
   bucket is empty at the epoch. A GCRA policy with more requests than nanoseconds in its window is an error.
   */
  lemma ClientRunsAlone(entries: Entries, maxKeys: nat, ttl: int, rs: seq<Request>, p: Policy, burst: nat, key: string)
    requires p.name != "" && p.limit > 0 && p.window > 0 && burst > 0 && BurstIs(p, burst)
    requires var k := NormalizedKey(p.name, key);
             && k !in entries && Kept(entries, maxKeys, ttl, rs, k) && TimesFor(rs, k) != []
             && forall i :: 0 <= i < |rs| && Concerns(rs[i], k) ==> rs[i].policy == p
    ensures var k := NormalizedKey(p.name, key);
            RunsAlone(p, burst, TimesFor(rs, k), ResultsFor(entries, maxKeys, ttl, rs, k))
  {
    hide Kept, TimesFor, ResultsFor, RunsAlone, ServeAll, NormalizedKey, Concerns;
    var k := NormalizedKey(p.name, key);
    ClientIsAlone(entries, maxKeys, ttl, rs, p, key);
    ServedAlone(p, burst, TimesFor(rs, k));
  }

  // ---------------------------------------------------------------- the bounds of each algorithm, for the client

  function ServeAfter(state: EntryState, p: Policy, times: seq<Time>): EntryState
    requires ValidPolicy(p)
    decreases |times|
  {
    if times == [] then state
    else
      match Serve(state, p, times[0])
      case Unsupported => ServeAfter(state, p, times[1..])
      case Served(next, _) => ServeAfter(next, p, times[1..])
  }

  lemma {:induction false} OneAnswerEach(state: EntryState, p: Policy, times: seq<Time>)
    requires ValidPolicy(p)
    ensures |ServeAll(state, p, times)| == |times|
    decreases |times|
  {
    hide Serve;
    if times != [] {
      OneAnswerEach(state, p, times[1..]);
      if Serve(state, p, times[0]).Served? { OneAnswerEach(Serve(state, p, times[0]).state, p, times[1..]); }
    }
  }

  /** The instants at which a client that asks at `times` is admitted. */
  function Admitted(state: EntryState, p: Policy, times: seq<Time>): seq<Time>
    requires ValidPolicy(p)
  {
    OneAnswerEach(state, p, times);
    Admissions(times, ServeAll(state, p, times))
  }

  lemma AdmittedCons(state: EntryState, p: Policy, now: Time, rest: seq<Time>)
    requires ValidPolicy(p) && Serve(state, p, now).Served?
    ensures var served := Serve(state, p, now);
            && Admitted(state, p, [now] + rest) ==
               (if served.result.allowed then [now] else []) + Admitted(served.state, p, rest)
            && ServeAfter(state, p, [now] + rest) == ServeAfter(served.state, p, rest)
  {
    hide Serve;
    var served := Serve(state, p, now);
    assert ([now] + rest)[1..] == rest;
    OneAnswerEach(served.state, p, rest);
    assert ServeAll(state, p, [now] + rest)[1..] == ServeAll(served.state, p, rest);
  }

  predicate Answerable(p: Policy) { p.limit > 0 && (p.algorithm.GcraAlgorithm? ==> p.window / p.limit > 0) }

  lemma AlwaysServed(state: EntryState, p: Policy, now: Time)
    requires ValidPolicy(p)
    ensures Serve(state, p, now).Served? <==> Answerable(p)
  {
  }

  lemma {:induction false} AdmittedSnoc(state: EntryState, p: Policy, front: seq<Time>, now: Time)
    requires ValidPolicy(p) && Answerable(p)
    ensures var served := Serve(ServeAfter(state, p, front), p, now);
            && served.Served?
            && Admitted(state, p, front + [now]) ==
               Admitted(state, p, front) + (if served.result.allowed then [now] else [])
            && ServeAfter(state, p, front + [now]) == served.state
    decreases |front|
  {
    hide Serve, ServeAfter, Admitted, Answerable;
    AlwaysServed(ServeAfter(state, p, front), p, now);
    if front == [] {
      assert front + [now] == [now] + [];
      AlwaysServed(state, p, now);
      NothingServed(state, p);
      AdmittedCons(state, p, now, []);
      NothingServed(Serve(state, p, now).state, p);
    } else {
      var t, rest := front[0], front[1..];
      assert front + [now] == [t] + (rest + [now]) && front == [t] + rest;
      AlwaysServed(state, p, t);
      AdmittedCons(state, p, t, rest + [now]);
      AdmittedCons(state, p, t, rest);
      AdmittedSnoc(Serve(state, p, t).state, p, rest, now);
    }
  }

  lemma NothingServed(state: EntryState, p: Policy)
    requires ValidPolicy(p)
    ensures Admitted(state, p, []) == [] && ServeAfter(state, p, []) == state
  {
  }

  lemma {:induction false} FixedAlone(p: Policy, times: seq<Time>)
    requires ValidPolicy(p) && p.algorithm.FixedWindowAlgorithm? && times != []
    ensures var (s, a) := FixedRun(Fixed(times[0], 0), p.limit, p.window, times);
            ServeAfter(UNUSED, p, times) == Window(s) && Admitted(UNUSED, p, times) == a
    decreases |times|
  {
    hide FixedWindow, Admitted, ServeAfter;
    var front, now := times[..|times| - 1], times[|times| - 1];
    assert times == front + [now];
    AdmittedSnoc(UNUSED, p, front, now);
    if front == [] {
      NothingServed(UNUSED, p);
      assert FixedRun(Fixed(now, 0), p.limit, p.window, front) == (Fixed(now, 0), []);
    } else {
      FixedAlone(p, front);
    }
  }

  lemma {:induction false} SlidingAlone(p: Policy, times: seq<Time>)
    requires ValidPolicy(p) && p.algorithm.SlidingWindowAlgorithm?
    ensures var (s, a) := SlidingRun(p.limit, p.window, times);
            (times != [] ==> ServeAfter(UNUSED, p, times) == Log(s)) && Admitted(UNUSED, p, times) == a
    decreases |times|
  {
    hide Sliding, Admitted, ServeAfter;
    NothingServed(UNUSED, p);
    if times != [] {
      var front, now := times[..|times| - 1], times[|times| - 1];
      assert times == front + [now];
      AdmittedSnoc(UNUSED, p, front, now);
      SlidingAlone(p, front);
    }
  }

  lemma {:induction false} GcraAlone(p: Policy, times: seq<Time>)
    requires ValidPolicy(p) && p.algorithm.GcraAlgorithm? && times != [] && p.window / p.limit > 0
    ensures var interval := p.window / p.limit;
            && ServeAfter(UNUSED, p, times) == Arrival(GcraState(times[0], interval, Capacity(p), times))
            && Admitted(UNUSED, p, times) == GcraAdmitted(times[0], interval, Capacity(p), times)
    decreases |times|
  {
    hide Gcra, Admitted, ServeAfter;
    var front, now := times[..|times| - 1], times[|times| - 1];
    assert times == front + [now];
    AdmittedSnoc(UNUSED, p, front, now);
    if front == [] {
      NothingServed(UNUSED, p);
      assert GcraState(now, p.window / p.limit, Capacity(p), front) == now;
    } else {
      GcraAlone(p, front);
    }
  }

  lemma {:induction false} BucketAlone(b: Bucket, p: Policy, times: seq<Time>)
    requires ValidPolicy(p) && p.algorithm.TokenBucketAlgorithm?
    ensures var (s, a) := BucketRun(b, p.limit, p.window, Capacity(p), times);
            ServeAfter(Tokens(b), p, times) == Tokens(s) && Admitted(Tokens(b), p, times) == a
    decreases |times|
  {
    hide TokenBucket, Admitted, ServeAfter;
    NothingServed(Tokens(b), p);
    if times != [] {
      var front, now := times[..|times| - 1], times[|times| - 1];
      assert times == front + [now];
      AdmittedSnoc(Tokens(b), p, front, now);
      BucketAlone(b, p, front);
    }
  }

  /** Before the clock's epoch the bucket stays empty, so what it admits is what it admits afterwards. */
  lemma {:induction false} BucketFromEpoch(p: Policy, times: seq<Time>, start: Time, d: nat)
    requires ValidPolicy(p) && p.algorithm.TokenBucketAlgorithm? && Sorted(times)
    ensures CountIn(Admitted(UNUSED, p, times), start, start + d + 1) <= Capacity(p) + d * p.limit / p.window
    decreases |times|
  {
    hide Admitted, CountIn, Capacity;
    if times != [] && times[0] < 0 {
      var rest := times[1..];
      assert times == [times[0]] + rest && Sorted(rest);
      EpochRefuses(p, times[0]);
      AdmittedCons(UNUSED, p, times[0], rest);
      assert [] + Admitted(UNUSED, p, rest) == Admitted(UNUSED, p, rest);
      BucketFromEpoch(p, rest, start, d);
    } else {
      BucketAlone(Bucket(0.0, 0), p, times);
      assert Sorted([0] + times);
      BucketSpan(Bucket(0.0, 0), p.limit, p.window, Capacity(p), times, start, d);
    }
  }

  lemma EpochRefuses(p: Policy, now: Time)
    requires ValidPolicy(p) && p.algorithm.TokenBucketAlgorithm? && now < 0
    ensures var served := Serve(UNUSED, p, now);
            served.Served? && served.state == UNUSED && !served.result.allowed
  {
  }

  /** The instants at which the store admits the client of entry `k`. */
  ghost function AdmittedBy(entries: Entries, maxKeys: nat, ttl: int, rs: seq<Request>, k: string): seq<Time>
    requires |ResultsFor(entries, maxKeys, ttl, rs, k)| == |TimesFor(rs, k)|
  {
    Admissions(TimesFor(rs, k), ResultsFor(entries, maxKeys, ttl, rs, k))
  }

  ghost predicate Bounded(p: Policy, burst: nat, admitted: seq<Time>, start: Time, d: nat)
    requires p.limit > 0 && p.window > 0
  {
    match p.algorithm
    case FixedWindowAlgorithm => CountIn(admitted, start, start + p.window) <= 2 * p.limit - 1
    case SlidingWindowAlgorithm => CountIn(admitted, start, start + p.window) <= p.limit
    case GcraAlgorithm =>
      p.window >= p.limit ==> CountIn(admitted, start, start + d + 1) <= burst + d / (p.window / p.limit)
    case TokenBucketAlgorithm => CountIn(admitted, start, start + d + 1) <= burst + d * p.limit / p.window
  }

  /**
   What a client new to the store is admitted, whoever is served in between, in any span of its run: a fixed window at
   most 2 * limit - 1 in any interval of window length, a sliding window at most the limit in one, GCRA its burst and
   one more per interval, a bucket its capacity and what is refilled.
   */
  lemma ClientIsBounded(entries: Entries, maxKeys: nat, ttl: int, rs: seq<Request>, p: Policy, burst: nat, key: string,
                        start: Time, d: nat)
    requires p.name != "" && p.limit > 0 && p.window > 0 && burst > 0 && BurstIs(p, burst)
    requires var k := NormalizedKey(p.name, key);
             && k !in entries && Kept(entries, maxKeys, ttl, rs, k) && Sorted(TimesFor(rs, k))
             && forall i :: 0 <= i < |rs| && Concerns(rs[i], k) ==> rs[i].policy == p
    ensures var k := NormalizedKey(p.name, key);
            && |ResultsFor(entries, maxKeys, ttl, rs, k)| == |TimesFor(rs, k)|
            && Bounded(p, burst, AdmittedBy(entries, maxKeys, ttl, rs, k), start, d)
  {
    hide Kept, TimesFor, ResultsFor, ServeAll, NormalizedKey, Concerns, CountIn, Admissions, Serve;
    var k := NormalizedKey(p.name, key);
    var times := TimesFor(rs, k);
    ClientIsAlone(entries, maxKeys, ttl, rs, p, key);
    OneAnswerEach(UNUSED, p, times);
    assert AdmittedBy(entries, maxKeys, ttl, rs, k) == Admitted(UNUSED, p, times);
    BoundAlone(p, burst, times, start, d);
  }

  lemma BoundAlone(p: Policy, burst: nat, times: seq<Time>, start: Time, d: nat)
    requires ValidPolicy(p) && burst > 0 && BurstIs(p, burst) && Sorted(times)
    ensures Bounded(p, burst, Admitted(UNUSED, p, times), start, d)
  {
    hide CountIn, Admitted, FixedRun, SlidingRun, Sorted;
    match p.algorithm
    case FixedWindowAlgorithm =>
      if times == [] {
        NothingServed(UNUSED, p);
        NothingCounted(start, start + p.window);
      } else {
        FixedAlone(p, times);
        FixedBound(p.limit, p.window, times, start);
      }
    case SlidingWindowAlgorithm =>
      SlidingAlone(p, times);
      SlidingBound(p.limit, p.window, times, start);
    case GcraAlgorithm => if p.window >= p.limit { GcraBounded(p, burst, times, start, d); }
    case TokenBucketAlgorithm => BucketFromEpoch(p, times, start, d);
  }

  lemma GcraBounded(p: Policy, burst: nat, times: seq<Time>, start: Time, d: nat)
    requires ValidPolicy(p) && burst > 0 && BurstIs(p, burst) && p.algorithm.GcraAlgorithm? && p.window >= p.limit
    ensures p.window / p.limit > 0
    ensures CountIn(Admitted(UNUSED, p, times), start, start + d + 1) <= burst + d / (p.window / p.limit)
  {
    hide CountIn, Admitted, GcraAdmitted, GcraState;
    WholeIntervals(p);
    if times == [] {
      NothingServed(UNUSED, p);
      NothingCounted(start, start + d + 1);
    } else {
      GcraAlone(p, times);
      GcraSpan(times[0], p.window / p.limit, Capacity(p), times, start, d);
    }
  }

  lemma NothingCounted(lo: Time, hi: Time)
    ensures CountIn([], lo, hi) == 0
  {
  }

  lemma WholeIntervals(p: Policy)
    requires p.limit > 0
    ensures p.window >= p.limit <==> p.window / p.limit > 0
  {
  }
}
