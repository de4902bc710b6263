/** The in-memory store: one entry per policy and client, a bounded table, and idle pruning. */
module RateLimitStore {
  import opened Common
  import opened Decimal
  import opened RateLimit

  datatype Algorithm = TokenBucketAlgorithm | FixedWindowAlgorithm | SlidingWindowAlgorithm | GcraAlgorithm

  /** The window is in nanoseconds. */
  datatype Policy = Policy(name: string, algorithm: Algorithm, limit: nat, window: int, burst: nat)

  predicate ValidPolicy(p: Policy) { p.name != "" && p.limit > 0 && p.window > 0 }

  function Capacity(p: Policy): (c: nat)
    ensures p.limit > 0 ==> c > 0
  {
    if p.burst == 0 then p.limit else p.burst
  }

  datatype EntryState = Tokens(bucket: Bucket) | Window(fixed: Fixed) | Log(requests: seq<Time>) | Arrival(at: Time)

  /** The first alternative of the variant, default-constructed: no tokens, and the clock's epoch. */
  const UNUSED := Tokens(Bucket(0.0, 0))

  datatype Entry = Entry(algorithm: Algorithm, state: EntryState, updatedAt: Time)

  datatype Served = Unsupported | Served(state: EntryState, result: Result)

  /** `Unsupported` is the exception for a GCRA interval below one nanosecond. */
  function Serve(state: EntryState, p: Policy, now: Time): Served
    requires ValidPolicy(p)
  {
    match p.algorithm
    case TokenBucketAlgorithm =>
      var bucket := if state.Tokens? then state.bucket else Bucket(Capacity(p) as real, now);
      var step := TokenBucket(bucket, p.limit, p.window, Capacity(p), now);
      Served(Tokens(step.state), step.result)
    case FixedWindowAlgorithm =>
      var fixed := if state.Window? then state.fixed else Fixed(now, 0);
      var step := FixedWindow(fixed, p.limit, p.window, now);
      Served(Window(step.state), step.result)
    case SlidingWindowAlgorithm =>
      var step := Sliding(if state.Log? then state.requests else [], p.limit, p.window, now);
      Served(Log(step.requests), step.result)
    case GcraAlgorithm =>
      var interval := p.window / p.limit;
      if interval <= 0 then Unsupported
      else
        var step := Gcra(if state.Arrival? then state.at else now, interval, Capacity(p), now);
        Served(Arrival(step.arrival), step.result)
  }

  function UserKey(key: string): string { if key == "" then "anonymous" else key }

  function NormalizedKey(name: string, key: string): string { ToText(|name|) + ":" + (name + UserKey(key)) }

  predicate Idle(e: Entry, ttl: int, now: Time) { now >= e.updatedAt && now - e.updatedAt >= ttl }

  type Entries = map<string, Entry>

  function Pruned(entries: Entries, ttl: int, now: Time): Entries {
    map k | k in entries && !Idle(entries[k], ttl, now) :: entries[k]
  }

  class InMemoryStore {
    const maxKeys: nat
    const idleTtl: int
    var entries: Entries

    constructor (maxKeys: nat, idleTtl: int)
      requires maxKeys > 0 && idleTtl > 0
      ensures this.maxKeys == maxKeys && this.idleTtl == idleTtl && entries == map[]
    {
      this.maxKeys, this.idleTtl, entries := maxKeys, idleTtl, map[];
    }

    /** `None` is an exception: an invalid policy, or a GCRA policy with too small an interval. */
    method Acquire(key: string, policy: Policy, now: Time) returns (result: Option<Result>)
      requires |entries| <= maxKeys
      modifies this
      ensures |entries| <= maxKeys
      ensures Answer(entries, result) == Acquired(old(entries), maxKeys, idleTtl, Request(key, policy, now))
      ensures policy.name == "" || policy.limit == 0 || policy.window <= 0 ==> result == None && entries == old(entries)
      ensures policy.name != "" && policy.limit > 0 && policy.window > 0 ==>
                Serves(old(entries), entries, maxKeys, idleTtl, NormalizedKey(policy.name, key), policy, now, result)
    {
      if ValidPolicy(policy) { AcquiredServes(entries, maxKeys, idleTtl, Request(key, policy, now)); }
      hide Serve, Pruned, NormalizedKey, Idle, Serves;
      if !ValidPolicy(policy) { return None; }
      var normalized := NormalizedKey(policy.name, key);
      var state := UNUSED;
      if normalized !in entries {
        if |entries| >= maxKeys {
          PrunedFits(entries, idleTtl, now);
          entries := Pruned(entries, idleTtl, now);
          if |entries| >= maxKeys { return Some(Result(false, 0, 1)); }
        }
      } else if entries[normalized].algorithm == policy.algorithm {
        state := entries[normalized].state;
      }
      var table := entries;
      entries := table[normalized := Entry(policy.algorithm, state, now)];
      TableGrows(table, normalized, entries[normalized]);
      var served := Serve(state, policy, now);
      if served.Unsupported? { return None; }
      entries := table[normalized := Entry(policy.algorithm, served.state, now)];
      TableGrows(table, normalized, entries[normalized]);
      return Some(served.result);
    }
  }

  /** The table a request finds: pruned only when a new key meets a full one. */
  function TableFor(entries: Entries, maxKeys: nat, ttl: int, k: string, now: Time): Entries {
    if k !in entries && |entries| >= maxKeys then Pruned(entries, ttl, now) else entries
  }

  /** The state a request starts from: a new entry and a changed algorithm start over. */
  function StateFor(entries: Entries, k: string, algorithm: Algorithm): EntryState {
    if k in entries && entries[k].algorithm == algorithm then entries[k].state else UNUSED
  }

  datatype Request = Request(key: string, policy: Policy, now: Time)

  datatype Answer = Answer(entries: Entries, result: Option<Result>)

  /** One request: refused when there is no room for a new entry, and served from its own entry otherwise. */
  function Acquired(entries: Entries, maxKeys: nat, ttl: int, r: Request): Answer {
    var k, p := NormalizedKey(r.policy.name, r.key), r.policy;
    if !ValidPolicy(p) then Answer(entries, None)
    else
      var table, state := TableFor(entries, maxKeys, ttl, k, r.now), StateFor(entries, k, p.algorithm);
      if k !in entries && |table| >= maxKeys then Answer(table, Some(Result(false, 0, 1)))
      else
        match Serve(state, p, r.now)
        case Unsupported => Answer(table[k := Entry(p.algorithm, state, r.now)], None)
        case Served(next, result) => Answer(table[k := Entry(p.algorithm, next, r.now)], Some(result))
  }

  /** Not asked for since `ttl`. */
  predicate Old(e: Entry, ttl: int, at: Time) { e.updatedAt <= at && e.updatedAt + ttl <= at }

  /**
   What a valid request does to the table. Only its own entry changes; others go only when a new client meets a full
   table, and then exactly the old ones; the request is turned away, for a second, exactly when there are none.
   */
  ghost predicate Serves(was: Entries, now: Entries, maxKeys: nat, ttl: int, own: string, p: Policy, at: Time,
                         result: Option<Result>) {
    var crowded := own !in was && |was| >= maxKeys;
    && (forall k :: k != own && k in now ==> k in was && now[k] == was[k])
    && (forall k :: k != own && k in was ==> (k !in now <==> crowded && Old(was[k], ttl, at)))
    && (own !in now <==> crowded && forall k :: k in was ==> !Old(was[k], ttl, at))
    && (own !in now ==> result == Some(Result(false, 0, 1)))
    && (own in now ==> now[own].algorithm == p.algorithm && now[own].updatedAt == at)
  }

  lemma AcquiredServes(entries: Entries, maxKeys: nat, ttl: int, r: Request)
    requires |entries| <= maxKeys && ValidPolicy(r.policy)
    ensures var a := Acquired(entries, maxKeys, ttl, r);
            Serves(entries, a.entries, maxKeys, ttl, NormalizedKey(r.policy.name, r.key), r.policy, r.now, a.result)
  {
    hide Serve, NormalizedKey;
    var k := NormalizedKey(r.policy.name, r.key);
    if k !in entries && |entries| >= maxKeys { PrunedShrinks(entries, ttl, r.now); }
  }

  lemma PrunedShrinks(entries: Entries, ttl: int, now: Time)
    ensures |Pruned(entries, ttl, now)| < |entries| <==> exists k :: k in entries && Old(entries[k], ttl, now)
  {
    var pruned := Pruned(entries, ttl, now);
    if k :| k in entries && Old(entries[k], ttl, now) {
      assert pruned.Keys <= entries.Keys - {k};
      SubsetSize(pruned.Keys, entries.Keys - {k});
    } else {
      assert pruned == entries;
    }
  }

  // ---------------------------------------------------------------- one client among others

  predicate Concerns(r: Request, k: string) { NormalizedKey(r.policy.name, r.key) == k }

  /** What the requests for entry `k` are answered, in a run over all requests. */
  function ResultsFor(entries: Entries, maxKeys: nat, ttl: int, rs: seq<Request>, k: string): seq<Option<Result>>
    decreases |rs|
  {
    if rs == [] then []
    else
      var a := Acquired(entries, maxKeys, ttl, rs[0]);
      (if Concerns(rs[0], k) then [a.result] else []) + ResultsFor(a.entries, maxKeys, ttl, rs[1..], k)
  }

  /** Throughout the run, entry `k` finds room when it is asked for, and is never pruned once it is there. */
  predicate Kept(entries: Entries, maxKeys: nat, ttl: int, rs: seq<Request>, k: string)
    decreases |rs|
  {
    rs == [] ||
    (var next := Acquired(entries, maxKeys, ttl, rs[0]).entries;
     (k in entries || Concerns(rs[0], k) ==> k in next) && Kept(next, maxKeys, ttl, rs[1..], k))
  }

  function TimesFor(rs: seq<Request>, k: string): seq<Time> {
    if rs == [] then [] else (if Concerns(rs[0], k) then [rs[0].now] else []) + TimesFor(rs[1..], k)
  }

  /** The algorithm of `p` on its own. */
  function ServeAll(state: EntryState, p: Policy, times: seq<Time>): seq<Option<Result>>
    requires ValidPolicy(p)
    decreases |times|
  {
    if times == [] then []
    else
      match Serve(state, p, times[0])
      case Unsupported => [None] + ServeAll(state, p, times[1..])
      case Served(next, result) => [Some(result)] + ServeAll(next, p, times[1..])
  }

  /** A request leaves other entries as they are, unless it prunes them. */
  lemma OthersUntouched(entries: Entries, maxKeys: nat, ttl: int, r: Request, k: string)
    requires !Concerns(r, k)
    ensures var next := Acquired(entries, maxKeys, ttl, r).entries;
            && (k in next ==> k in entries && next[k] == entries[k])
  {
    hide Serve, NormalizedKey, Idle;
  }

  lemma OwnEntry(entries: Entries, maxKeys: nat, ttl: int, r: Request, k: string)
    requires Concerns(r, k) && ValidPolicy(r.policy) && k in Acquired(entries, maxKeys, ttl, r).entries
    ensures var a, state := Acquired(entries, maxKeys, ttl, r), StateFor(entries, k, r.policy.algorithm);
            match Serve(state, r.policy, r.now)
            case Unsupported => a.result == None && StateFor(a.entries, k, r.policy.algorithm) == state
            case Served(next, result) => a.result == Some(result) && StateFor(a.entries, k, r.policy.algorithm) == next
  {
    hide Serve, NormalizedKey, Idle;
  }

  /**
   Whoever else is served in between, a client is answered as its algorithm alone would answer its own request times,
   as long as its entry finds room and is not pruned.
   */
  lemma {:induction false} ClientIsAlone(entries: Entries, maxKeys: nat, ttl: int, rs: seq<Request>, p: Policy,
                                         key: string)
    requires var k := NormalizedKey(p.name, key);
             && ValidPolicy(p) && Kept(entries, maxKeys, ttl, rs, k)
             && forall i :: 0 <= i < |rs| && Concerns(rs[i], k) ==> rs[i].policy == p
    ensures var k := NormalizedKey(p.name, key);
            ResultsFor(entries, maxKeys, ttl, rs, k) == ServeAll(StateFor(entries, k, p.algorithm), p, TimesFor(rs, k))
    decreases |rs|
  {
    hide Acquired, Serve, NormalizedKey, StateFor;
    var k := NormalizedKey(p.name, key);
    if rs != [] {
      var r := rs[0];
      var next := Acquired(entries, maxKeys, ttl, r).entries;
      ClientIsAlone(next, maxKeys, ttl, rs[1..], p, key);
      var times := TimesFor(rs, k);
      if Concerns(r, k) {
        OwnEntry(entries, maxKeys, ttl, r, k);
        assert times[0] == r.now && times[1..] == TimesFor(rs[1..], k);
      } else {
        OthersUntouched(entries, maxKeys, ttl, r, k);
        SameState(entries, next, k, p.algorithm);
        assert times == TimesFor(rs[1..], k);
      }
    }
  }

  lemma SameState(a: Entries, b: Entries, k: string, algorithm: Algorithm)
    requires (k in a <==> k in b) && (k in a && k in b ==> a[k] == b[k])
    ensures StateFor(a, k, algorithm) == StateFor(b, k, algorithm)
  {
  }

  lemma TableGrows(entries: Entries, k: string, e: Entry)
    ensures |entries[k := e]| == if k in entries then |entries| else |entries| + 1
  {
    var more := entries[k := e];
    if k in entries {
      assert more.Keys == entries.Keys;
    } else {
      assert more.Keys == entries.Keys + {k};
    }
  }

  lemma PrunedFits(entries: Entries, ttl: int, now: Time)
    ensures |Pruned(entries, ttl, now)| <= |entries|
    ensures forall k :: k in Pruned(entries, ttl, now) <==> k in entries && !Idle(entries[k], ttl, now)
  {
    var pruned := Pruned(entries, ttl, now);
    assert pruned.Keys <= entries.Keys;
    SubsetSize(pruned.Keys, entries.Keys);
  }

  lemma SubsetSize(a: set<string>, b: set<string>)
    requires a <= b
    ensures |a| <= |b|
  {
    assert b == a + (b - a);
  }

  /** Two requests share an entry exactly when policy name and client agree; the empty key is the client "anonymous". */
  lemma KeysDoNotCollide(name1: string, key1: string, name2: string, key2: string)
    ensures NormalizedKey(name1, key1) == NormalizedKey(name2, key2) <==>
            name1 == name2 && UserKey(key1) == UserKey(key2)
  {
    hide ToText, UserKey;
    if NormalizedKey(name1, key1) == NormalizedKey(name2, key2) {
      var rest1, rest2 := name1 + UserKey(key1), name2 + UserKey(key2);
      ColonAfterDigits(|name1|, rest1);
      ColonAfterDigits(|name2|, rest2);
      var s := NormalizedKey(name1, key1);
      assert s[..|ToText(|name1|)|] == ToText(|name1|) && s[..|ToText(|name2|)|] == ToText(|name2|);
      TextInjective(|name1|, |name2|);
      assert rest1 == s[|ToText(|name1|)| + 1..] == rest2;
      assert rest1[..|name1|] == name1 && rest2[..|name2|] == name2;
      assert rest1[|name1|..] == UserKey(key1) && rest2[|name2|..] == UserKey(key2);
    }
  }

  lemma ColonAfterDigits(n: nat, rest: string)
    ensures Find(ToText(n) + ":" + rest, ':', 0) == |ToText(n)|
  {
    hide ToText;
    var digits := ToText(n);
    var s := digits + ":" + rest;
    forall i | 0 <= i < |digits| ensures s[i] != ':' { assert s[i] == digits[i] && digits[i] in digits; }
    FindUnique(s, ':', 0, |digits|);
  }

  /**
   A token-bucket entry begins empty at the clock's epoch and fills from there, so a client's first request
   finds a full bucket exactly when the clock has run long enough.
   */
  lemma FreshBucketIsFull(p: Policy, now: nat)
    requires ValidPolicy(p)
    ensures Refilled(UNUSED.bucket, p.limit, p.window, Capacity(p), now).tokens == Capacity(p) as real
            <==> now * p.limit >= Capacity(p) * p.window
  {
    var c, l, w := Capacity(p) as real, p.limit as real, p.window as real;
    var gain := now as real * (l / w);
    GainScaled(now, p.limit, p.window);
    RealOfProduct(Capacity(p), p.window);
    RealOfProduct(now, p.limit);
    if gain >= c { ScaleOrder(c, gain, w); } else { ScaleOrder(gain, c, w); }
    if gain < c { StrictOrder(gain, c, w); }
  }

  /**
   The token bucket of a store entry and GCRA answer a client's whole request sequence alike, when the limit divides
   the window, if and only if the clock had run for a full refill at the first request.
   */
  lemma StoreBucketIsGcra(p: Policy, interval: int, times: seq<Time>)
    requires ValidPolicy(p) && interval > 0 && p.window == p.limit * interval && times != [] && Sorted(times)
    ensures BucketResults(UNUSED.bucket, p.limit, p.window, Capacity(p), times) ==
            GcraResults(times[0], interval, Capacity(p), times)
            <==> times[0] * p.limit >= Capacity(p) * p.window
  {
    hide BucketResults, GcraResults, TokenBucket, Gcra, Refilled;
    var now, c := times[0], Capacity(p);
    var b, full := UNUSED.bucket, Bucket(c as real, now);
    BucketIsGcra(p.limit, interval, p.window, c, times);
    FirstResults(p, interval, times);
    if now * p.limit >= c * p.window {
      ClockIsPositive(now, p);
      FreshBucketIsFull(p, now);
      SameRefill(p, now);
    } else if now > 0 {
      FreshBucketIsFull(p, now);
      PartlyFull(p, now);
      FirstDiffers(p, interval, now);
    } else {
      AtTheEpoch(p, now);
      FirstDiffers(p, interval, now);
    }
  }

  lemma AtTheEpoch(p: Policy, now: Time)
    requires ValidPolicy(p) && now <= 0
    ensures Refilled(UNUSED.bucket, p.limit, p.window, Capacity(p), now).tokens < Capacity(p) as real
  {
  }

  lemma ClockIsPositive(now: Time, p: Policy)
    requires ValidPolicy(p) && now * p.limit >= Capacity(p) * p.window
    ensures now > 0
  {
    MulMonotone(1, Capacity(p), p.window);
    if now <= 0 { MulMonotone(now, 0, p.limit); }
  }

  lemma FirstResults(p: Policy, interval: int, times: seq<Time>)
    requires ValidPolicy(p) && interval > 0 && times != []
    ensures forall b: Bucket {:trigger BucketResults(b, p.limit, p.window, Capacity(p), times)} ::
              var step := TokenBucket(b, p.limit, p.window, Capacity(p), times[0]);
              BucketResults(b, p.limit, p.window, Capacity(p), times) ==
              [step.result] + BucketResults(step.state, p.limit, p.window, Capacity(p), times[1..])
    ensures GcraResults(times[0], interval, Capacity(p), times)[0] ==
            Gcra(times[0], interval, Capacity(p), times[0]).result
  {
  }

  lemma SameRefill(p: Policy, now: Time)
    requires ValidPolicy(p) && now > 0
    requires Refilled(UNUSED.bucket, p.limit, p.window, Capacity(p), now).tokens == Capacity(p) as real
    ensures TokenBucket(UNUSED.bucket, p.limit, p.window, Capacity(p), now) ==
            TokenBucket(Bucket(Capacity(p) as real, now), p.limit, p.window, Capacity(p), now)
  {
  }

  lemma PartlyFull(p: Policy, now: Time)
    requires ValidPolicy(p) && now > 0
    ensures Refilled(UNUSED.bucket, p.limit, p.window, Capacity(p), now).tokens <= Capacity(p) as real
  {
  }

  /** A bucket that is not full refuses, or has less to spare, where a fresh GCRA admits. */
  lemma FirstDiffers(p: Policy, interval: int, now: Time)
    requires ValidPolicy(p) && interval > 0
    requires Refilled(UNUSED.bucket, p.limit, p.window, Capacity(p), now).tokens < Capacity(p) as real
    ensures TokenBucket(UNUSED.bucket, p.limit, p.window, Capacity(p), now).result !=
            Gcra(now, interval, Capacity(p), now).result
  {
    hide Refilled;
    var c := Capacity(p);
    TimesNonNegative(c - 1, interval);
    assert CeilDiv(interval, interval) == 1 by {
      CeilDivLeast(interval, interval, 1);
      CeilDivBounds(interval, interval);
    }
    assert Gcra(now, interval, c, now).result == Result(true, c - 1, 0);
    var full := Refilled(UNUSED.bucket, p.limit, p.window, c, now);
    if full.tokens >= 1.0 { assert (full.tokens - 1.0).Floor < c - 1; }
  }

  /** At the clock's epoch, one request a second: the bucket refuses the first request and GCRA admits it. */
  lemma FirstRequestRefused()
    ensures TokenBucket(UNUSED.bucket, 1, SECOND, 1, 0).result == Result(false, 0, 1)
    ensures Gcra(0, SECOND, 1, 0).result == Result(true, 0, 0)
  {
    var rate := 1.0 / SECOND as real;
    assert 1.0 / rate == SECOND as real;
    assert CeilSeconds(SECOND) == 1;
  }

  lemma GainScaled(now: nat, limit: nat, window: int)
    requires window > 0
    ensures now as real * (limit as real / window as real) * window as real == now as real * limit as real
  {
    DivMul(limit as real, window as real);
    MulAssoc(now as real, limit as real / window as real, window as real);
  }

  lemma ScaleOrder(a: real, b: real, w: real)
    requires a <= b && w > 0.0
    ensures a * w <= b * w
  {
    PositiveOrZero(b - a, w);
    Distribute(b, a, w);
  }

  lemma StrictOrder(a: real, b: real, w: real)
    requires a < b && w > 0.0
    ensures a * w < b * w
  {
    PositiveProduct(b - a, w);
    Distribute(b, a, w);
  }
}
