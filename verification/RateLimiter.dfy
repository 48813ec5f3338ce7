/**
 The fixed-window limiter of `ratelimit.py`. Time is a real number (the monotonic clock),
 a bucket is the number of calls allowed in its window and the instant the window ends.
 */
module RateLimiting {
  type Key = string
  datatype Window = Window(count: nat, resetAt: real)
  type Buckets = map<Key, Window>
  datatype Result = Result(allowed: bool, remaining: int, retryAfter: int)
  datatype Config = Config(limit: int, window: int)
  datatype Call = Call(key: Key, now: real)

  const EVICT_AT := 1024

  function Max(a: int, b: int): int {
    if a < b then b else a
  }

  /** The clamping done by the constructor. */
  function MakeConfig(limit: int, windowSeconds: int): Config {
    Config(Max(1, limit), Max(1, windowSeconds))
  }

  predicate ValidConfig(c: Config) {
    c.limit >= 1 && c.window >= 1
  }

  /** `round(x)`: to the nearest integer, ties to the even one. */
  function Round(x: real): (n: int)
    ensures -0.5 <= n as real - x <= 0.5
    ensures n as real - x in {-0.5, 0.5} ==> n % 2 == 0
  {
    var f := x.Floor;
    var rest := x - f as real;
    if rest < 0.5 || (rest == 0.5 && f % 2 == 0) then f else f + 1
  }

  // ----- one call ----------------------------------------------------------------

  predicate Live(w: Window, now: real) {
    now < w.resetAt
  }

  function DropExpired(b: Buckets, now: real): Buckets {
    map k | k in b && Live(b[k], now) :: b[k]
  }

  function Evict(b: Buckets, now: real): Buckets {
    if |b| < EVICT_AT then b else DropExpired(b, now)
  }

  /** The bucket a call counts in: the live one, or a new empty window. */
  function Current(c: Config, b: Buckets, key: Key, now: real): Window {
    if key in b && Live(b[key], now) then b[key] else Window(0, now + c.window as real)
  }

  /** The call on buckets that are never evicted. */
  function CheckPlain(c: Config, b: Buckets, call: Call): (Buckets, Result) {
    var w := Current(c, b, call.key, call.now);
    var resetIn := Max(0, Round(w.resetAt - call.now));
    if w.count >= c.limit then
      (b[call.key := w], Result(false, 0, Max(1, resetIn)))
    else
      (b[call.key := w.(count := w.count + 1)], Result(true, c.limit - (w.count + 1), 0))
  }

  /** The call as the source makes it: evict, then count. */
  function Check(c: Config, b: Buckets, call: Call): (Buckets, Result) {
    CheckPlain(c, Evict(b, call.now), call)
  }

  class RateLimiter {
    const limit: int
    const window: int
    var buckets: Buckets

    ghost function Conf(): Config {
      Config(limit, window)
    }

    constructor (limit: int, windowSeconds: int)
      ensures Conf() == MakeConfig(limit, windowSeconds) && ValidConfig(Conf())
      ensures this.limit == (if limit < 1 then 1 else limit) && this.window == if windowSeconds < 1 then 1 else windowSeconds
      ensures buckets == map[]
    {
      this.limit := Max(1, limit);
      this.window := Max(1, windowSeconds);
      buckets := map[];
    }

    method CheckCall(key: Key, now: real) returns (r: Result)
      requires ValidConfig(Conf())
      modifies this
      ensures (buckets, r) == Check(Conf(), old(buckets), Call(key, now))
    {
      EvictExpired(now);
      ghost var kept := buckets;
      if key !in buckets || now >= buckets[key].resetAt {
        buckets := buckets[key := Window(0, now + window as real)];
      }
      var resetIn := Max(0, Round(buckets[key].resetAt - now));
      assert buckets == kept[key := Current(Conf(), kept, key, now)];
      if buckets[key].count >= limit {
        return Result(false, 0, Max(1, resetIn));
      }
      buckets := buckets[key := buckets[key].(count := buckets[key].count + 1)];
      assert buckets == kept[key := buckets[key]];
      return Result(true, limit - buckets[key].count, 0);
    }

    method EvictExpired(now: real)
      modifies this
      ensures buckets == Evict(old(buckets), now)
      ensures |old(buckets)| < 1024 ==> buckets == old(buckets)
      ensures |old(buckets)| >= 1024 ==>
                forall k :: (k in buckets <==> k in old(buckets) && now < old(buckets)[k].resetAt)
                            && (k in buckets ==> buckets[k] == old(buckets)[k])
    {
      if |buckets| < EVICT_AT {
        return;
      }
      var expired := set k | k in buckets && now >= buckets[k].resetAt;
      ghost var doomed := expired;
      while expired != {}
        invariant expired <= doomed
        invariant buckets == old(buckets) - (doomed - expired)
        decreases expired
      {
        var k :| k in expired;
        buckets := buckets - {k};
        expired := expired - {k};
      }
    }
  }

  // ----- runs ----------------------------------------------------------------------

  predicate TimeOrdered(calls: seq<Call>) {
    forall i, j :: 0 <= i < j < |calls| ==> calls[i].now <= calls[j].now
  }

  function Run(c: Config, b: Buckets, calls: seq<Call>): (Buckets, seq<Result>) {
    if calls == [] then (b, []) else
      var n := |calls| - 1;
      var (b0, rs) := Run(c, b, calls[..n]);
      var (b1, r) := Check(c, b0, calls[n]);
      (b1, rs + [r])
  }

  function RunPlain(c: Config, b: Buckets, calls: seq<Call>): (Buckets, seq<Result>) {
    if calls == [] then (b, []) else
      var n := |calls| - 1;
      var (b0, rs) := RunPlain(c, b, calls[..n]);
      var (b1, r) := CheckPlain(c, b0, calls[n]);
      (b1, rs + [r])
  }

  /** The same live windows at `now` and at every later instant. */
  ghost predicate SameLive(a: Buckets, b: Buckets, now: real) {
    forall k :: (k in a && Live(a[k], now)) || (k in b && Live(b[k], now)) ==>
      k in a && k in b && a[k] == b[k]
  }

  lemma OneCallSimulates(c: Config, a: Buckets, b: Buckets, last: real, call: Call)
    requires ValidConfig(c) && SameLive(a, b, last) && last <= call.now
    ensures Check(c, a, call).1 == CheckPlain(c, b, call).1
    ensures SameLive(Check(c, a, call).0, CheckPlain(c, b, call).0, call.now)
  {
    var kept := Evict(a, call.now);
    assert SameLive(kept, b, call.now);
    assert Current(c, kept, call.key, call.now) == Current(c, b, call.key, call.now);
  }

  lemma {:induction false} EvictionSimulates(c: Config, b: Buckets, calls: seq<Call>, last: real)
    requires ValidConfig(c) && TimeOrdered(calls)
    requires forall i :: 0 <= i < |calls| ==> calls[i].now <= last
    ensures Run(c, b, calls).1 == RunPlain(c, b, calls).1
    ensures SameLive(Run(c, b, calls).0, RunPlain(c, b, calls).0, last)
  {
    if calls == [] {
    } else {
      var n := |calls| - 1;
      EvictionSimulates(c, b, calls[..n], calls[n].now);
      OneCallSimulates(c, Run(c, b, calls[..n]).0, RunPlain(c, b, calls[..n]).0, calls[n].now, calls[n]);
    }
  }

  /** Lazy eviction never changes an answer. */
  lemma {:induction false} EvictionInvisible(c: Config, calls: seq<Call>)
    requires ValidConfig(c) && TimeOrdered(calls)
    ensures Run(c, map[], calls).1 == RunPlain(c, map[], calls).1
  {
    EvictionSimulates(c, map[], calls, if calls == [] then 0.0 else calls[|calls| - 1].now);
  }

  /** After any call the table is small or holds no stale window. */
  lemma MemoryBounded(c: Config, b: Buckets, call: Call)
    requires ValidConfig(c)
    ensures var after := Check(c, b, call).0;
            |after| <= 1024 || forall k :: k in after ==> Live(after[k], call.now)
  {
    var kept := Evict(b, call.now);
    var after := Check(c, b, call).0;
    assert after.Keys == kept.Keys + {call.key};
    assert |after.Keys| <= |kept.Keys| + 1;
    assert |after| == |after.Keys| && |kept| == |kept.Keys|;
  }

  // ----- the sliding bound -----------------------------------------------------------

  function Counted(call: Call, r: Result, key: Key, from: real, until: real): nat {
    if call.key == key && r.allowed && from <= call.now < until then 1 else 0
  }

  /** Allowed calls of `key` with `from <= now < until`. */
  function AllowedIn(calls: seq<Call>, rs: seq<Result>, key: Key, from: real, until: real): nat
    requires |calls| == |rs|
  {
    if calls == [] then 0 else
      var n := |calls| - 1;
      AllowedIn(calls[..n], rs[..n], key, from, until) + Counted(calls[n], rs[n], key, from, until)
  }

  lemma {:induction false} RunLength(c: Config, b: Buckets, calls: seq<Call>)
    ensures |Run(c, b, calls).1| == |RunPlain(c, b, calls).1| == |calls|
  {
    if calls == [] {
    } else {
      RunLength(c, b, calls[..|calls| - 1]);
    }
  }

  /** Every window began at or before `last`, is in use and is not over-full. */
  ghost predicate InBounds(c: Config, b: Buckets, last: real) {
    forall k :: k in b ==> 1 <= b[k].count <= c.limit && b[k].resetAt <= last + c.window as real
  }

  lemma AnswerInBounds(c: Config, b: Buckets, last: real, call: Call)
    requires ValidConfig(c) && InBounds(c, b, last) && last <= call.now
    ensures GoodAnswer(c, CheckPlain(c, b, call).1)
  {
    assert Current(c, b, call.key, call.now).resetAt - call.now <= c.window as real;
  }

  /** A blocked caller is told to wait at least a second and at most one window. */
  predicate GoodAnswer(c: Config, r: Result) {
    if r.allowed then 0 <= r.remaining < c.limit && r.retryAfter == 0
    else r.remaining == 0 && 1 <= r.retryAfter <= c.window
  }

  /**
   `total` calls were allowed since `from`, in `j` earlier windows and the current one.
   Either all these windows began at or after `from`, or the first began before it, and
   then the call that opened it is not among the counted ones.
   */
  ghost predicate CountedSince(c: Config, b: Buckets, key: Key, from: real, total: nat, j: nat) {
    key in b &&
    ((total <= j * c.limit + b[key].count && b[key].resetAt >= from + ((j + 1) * c.window) as real)
     || (total < j * c.limit + b[key].count && b[key].resetAt > from + (j * c.window) as real))
  }

  lemma CountedStep(c: Config, b: Buckets, last: real, call: Call, key: Key, from: real, until: real,
                    total: nat, i: nat)
    returns (j: nat)
    requires ValidConfig(c) && InBounds(c, b, last) && last <= call.now < until
    requires total == 0 || CountedSince(c, b, key, from, total, i)
    ensures var (b', r) := CheckPlain(c, b, call);
            var total' := total + Counted(call, r, key, from, until);
            total' == 0 || CountedSince(c, b', key, from, total', j)
  {
    if total == 0 {
      j := 0;
    } else if call.key == key && !Live(b[key], call.now) {
      // The old window is over and full at most; a new one opens at `call.now`.
      j := i + 1;
      assert j * c.limit == i * c.limit + c.limit;
      assert (j + 1) * c.window == (i + 1) * c.window + c.window == i * c.window + c.window + c.window;
    } else {
      j := i;
    }
  }

  lemma {:induction false} CountedRun(c: Config, calls: seq<Call>, key: Key, from: real, until: real, last: real)
    returns (j: nat)
    requires ValidConfig(c) && TimeOrdered(calls) && last < until
    requires forall i :: 0 <= i < |calls| ==> calls[i].now <= last
    ensures |RunPlain(c, map[], calls).1| == |calls|
    ensures InBounds(c, RunPlain(c, map[], calls).0, last)
    ensures forall i :: 0 <= i < |calls| ==> GoodAnswer(c, RunPlain(c, map[], calls).1[i])
    ensures var (b, rs) := RunPlain(c, map[], calls);
            var total := AllowedIn(calls, rs, key, from, until);
            total == 0 || CountedSince(c, b, key, from, total, j)
  {
    j := 0;
    if calls == [] {
    } else {
      var n := |calls| - 1;
      var (b, rs) := RunPlain(c, map[], calls[..n]);
      j := CountedRun(c, calls[..n], key, from, until, calls[n].now);
      var total := AllowedIn(calls[..n], rs, key, from, until);
      AnswerInBounds(c, b, calls[n].now, calls[n]);
      assert RunPlain(c, map[], calls).1 == rs + [CheckPlain(c, b, calls[n]).1];
      assert RunPlain(c, map[], calls).1[..n] == rs;
      j := CountedStep(c, b, calls[n].now, calls[n], key, from, until, total, j);
    }
  }

  lemma MulMonotone(a: nat, b: nat, w: int)
    requires w >= 0 && a <= b
    ensures a * w <= b * w
  {
    assert b * w == a * w + (b - a) * w;
  }

  /** The current window began before `until`, so few windows can lie behind it. */
  lemma FewWindows(c: Config, b: Buckets, key: Key, from: real, k: nat, total: nat, j: nat)
    requires ValidConfig(c) && CountedSince(c, b, key, from, total, j) && k >= 1
    requires b[key].count <= c.limit
    requires b[key].resetAt < from + ((k + 1) * c.window) as real
    ensures total < (k + 1) * c.limit
  {
    assert (k + 1) * c.limit == k * c.limit + c.limit;
    if j > k {
      MulMonotone(k + 1, j, c.window);
      assert false;
    } else if j == k {
    } else {
      MulMonotone(j + 1, k, c.limit);
      assert (j + 1) * c.limit == j * c.limit + c.limit;
    }
  }

  /** A call at or after `until` adds nothing to the count before it. */
  lemma LateCallUncounted(c: Config, calls: seq<Call>, key: Key, from: real, until: real)
    requires calls != [] && calls[|calls| - 1].now >= until
    ensures |RunPlain(c, map[], calls).1| == |calls| && |RunPlain(c, map[], calls[..|calls| - 1]).1| == |calls| - 1
    ensures AllowedIn(calls, RunPlain(c, map[], calls).1, key, from, until)
            == AllowedIn(calls[..|calls| - 1], RunPlain(c, map[], calls[..|calls| - 1]).1, key, from, until)
  {
    var n := |calls| - 1;
    RunLength(c, map[], calls);
    RunLength(c, map[], calls[..n]);
    assert RunPlain(c, map[], calls).1[..n] == RunPlain(c, map[], calls[..n]).1;
  }

  /** On buckets that are never evicted, while the last call lies within the stretch. */
  lemma BoundWithin(c: Config, calls: seq<Call>, key: Key, from: real, k: nat)
    requires ValidConfig(c) && TimeOrdered(calls) && k >= 1
    requires calls != [] && calls[|calls| - 1].now < from + (k * c.window) as real
    ensures |RunPlain(c, map[], calls).1| == |calls|
    ensures AllowedIn(calls, RunPlain(c, map[], calls).1, key, from, from + (k * c.window) as real)
              < (k + 1) * c.limit
  {
    var until := from + (k * c.window) as real;
    var last := calls[|calls| - 1].now;
    var j := CountedRun(c, calls, key, from, until, last);
    var (b, rs) := RunPlain(c, map[], calls);
    var total := AllowedIn(calls, rs, key, from, until);
    MulMonotone(1, k + 1, c.limit);
    if total > 0 {
      assert (k + 1) * c.window == k * c.window + c.window;
      FewWindows(c, b, key, from, k, total, j);
    }
  }

  /** On buckets that are never evicted. */
  lemma {:induction false} SlidingBoundPlain(c: Config, calls: seq<Call>, key: Key, from: real, k: nat)
    requires ValidConfig(c) && TimeOrdered(calls) && k >= 1
    ensures |RunPlain(c, map[], calls).1| == |calls|
    ensures AllowedIn(calls, RunPlain(c, map[], calls).1, key, from, from + (k * c.window) as real)
              < (k + 1) * c.limit
  {
    if calls == [] {
      MulMonotone(1, k + 1, c.limit);
    } else if calls[|calls| - 1].now < from + (k * c.window) as real {
      BoundWithin(c, calls, key, from, k);
    } else {
      LateCallUncounted(c, calls, key, from, from + (k * c.window) as real);
      SlidingBoundPlain(c, calls[..|calls| - 1], key, from, k);
    }
  }

  /**
   The limiter itself, eviction included: `k` consecutive windows' worth of time hold
   fewer than `(k + 1) * limit` allowed calls of one key, whatever the other keys do.
   */
  lemma SlidingBound(c: Config, calls: seq<Call>, key: Key, from: real, k: nat)
    requires ValidConfig(c) && TimeOrdered(calls) && k >= 1
    ensures |Run(c, map[], calls).1| == |calls|
    ensures AllowedIn(calls, Run(c, map[], calls).1, key, from, from + (k * c.window) as real)
              < (k + 1) * c.limit
  {
    RunLength(c, map[], calls);
    EvictionInvisible(c, calls);
    SlidingBoundPlain(c, calls, key, from, k);
  }

  /** Every answer of every run. */
  lemma AnswersInBounds(c: Config, calls: seq<Call>, i: nat)
    requires ValidConfig(c) && TimeOrdered(calls) && i < |calls|
    ensures |Run(c, map[], calls).1| == |calls| && GoodAnswer(c, Run(c, map[], calls).1[i])
  {
    EvictionInvisible(c, calls);
    var last := calls[|calls| - 1].now;
    var _ := CountedRun(c, calls, "", 0.0, last + 1.0, last);
  }

  // ----- nobody is blocked early ---------------------------------------------------------

  /** `until` lies beyond every call: the count of allowed calls since `from`. */
  lemma {:induction false} LaterCountsLess(calls: seq<Call>, rs: seq<Result>, key: Key, from: real, later: real,
      until: real)
    requires |calls| == |rs| && from <= later
    ensures AllowedIn(calls, rs, key, later, until) <= AllowedIn(calls, rs, key, from, until)
  {
    if calls == [] {
    } else {
      var n := |calls| - 1;
      LaterCountsLess(calls[..n], rs[..n], key, from, later, until);
    }
  }

  ghost predicate OpenedAt(calls: seq<Call>, key: Key, start: real) {
    exists i :: 0 <= i < |calls| && calls[i] == Call(key, start)
  }

  /** A window begins at a call of its key, and its count is the calls allowed since then, all before its end. */
  ghost predicate Earned(c: Config, calls: seq<Call>, b: Buckets, rs: seq<Result>, key: Key, until: real) {
    |calls| == |rs|
    && if key in b then
         var start := b[key].resetAt - c.window as real;
         OpenedAt(calls, key, start) && b[key].count == AllowedIn(calls, rs, key, start, until)
         && AllowedIn(calls, rs, key, b[key].resetAt, until) == 0
       else forall i :: 0 <= i < |calls| ==> calls[i].key != key
  }

  lemma {:induction false} StrangersUncounted(calls: seq<Call>, rs: seq<Result>, key: Key, from: real, until: real)
    requires |calls| == |rs| && forall i :: 0 <= i < |calls| ==> calls[i].key != key
    ensures AllowedIn(calls, rs, key, from, until) == 0
  {
    if calls == [] {
    } else {
      StrangersUncounted(calls[..|calls| - 1], rs[..|rs| - 1], key, from, until);
    }
  }

  /** When the old window is over, or there is none, nothing was allowed from now on. */
  lemma FreshCountsNone(c: Config, calls: seq<Call>, b: Buckets, rs: seq<Result>, key: Key, now: real, until: real)
    requires Earned(c, calls, b, rs, key, until) && (key in b ==> !Live(b[key], now))
    ensures forall from: real :: from >= now ==> AllowedIn(calls, rs, key, from, until) == 0
  {
    forall from: real | from >= now ensures AllowedIn(calls, rs, key, from, until) == 0 {
      if key in b {
        LaterCountsLess(calls, rs, key, b[key].resetAt, from, until);
      } else {
        StrangersUncounted(calls, rs, key, from, until);
      }
    }
  }

  lemma AllowedSnoc(calls: seq<Call>, rs: seq<Result>, call: Call, r: Result, key: Key, from: real, until: real)
    requires |calls| == |rs|
    ensures AllowedIn(calls + [call], rs + [r], key, from, until)
            == AllowedIn(calls, rs, key, from, until) + Counted(call, r, key, from, until)
  {
    assert (calls + [call])[..|calls|] == calls && (rs + [r])[..|rs|] == rs;
  }

  /** What the call counts in: a window opened by a call, this one included, and the calls allowed since. */
  lemma CurrentEarned(c: Config, calls: seq<Call>, b: Buckets, rs: seq<Result>, call: Call, until: real)
    requires ValidConfig(c) && Earned(c, calls, b, rs, call.key, until) && InBounds(c, b, call.now)
    ensures var w := Current(c, b, call.key, call.now);
            var start := w.resetAt - c.window as real;
            start <= call.now < w.resetAt && (start == call.now || OpenedAt(calls, call.key, start))
            && w.count == AllowedIn(calls, rs, call.key, start, until)
            && AllowedIn(calls, rs, call.key, w.resetAt, until) == 0
  {
    if call.key in b && Live(b[call.key], call.now) {
    } else {
      FreshCountsNone(c, calls, b, rs, call.key, call.now, until);
    }
  }

  lemma {:induction false} EarnedStep(c: Config, calls: seq<Call>, b: Buckets, rs: seq<Result>, call: Call, key: Key,
      until: real)
    requires ValidConfig(c) && Earned(c, calls, b, rs, key, until) && InBounds(c, b, call.now) && call.now < until
    ensures var (b', r) := CheckPlain(c, b, call);
            Earned(c, calls + [call], b', rs + [r], key, until)
  {
    var (b', r) := CheckPlain(c, b, call);
    forall i | 0 <= i < |calls| ensures (calls + [call])[i] == calls[i] {}
    assert (calls + [call])[|calls|] == call;
    if call.key == key {
      CurrentEarned(c, calls, b, rs, call, until);
    }
    if key in b' {
      AllowedSnoc(calls, rs, call, r, key, b'[key].resetAt - c.window as real, until);
      AllowedSnoc(calls, rs, call, r, key, b'[key].resetAt, until);
    }
  }

  lemma {:induction false} CountIsEarned(c: Config, calls: seq<Call>, key: Key, last: real, until: real)
    requires ValidConfig(c) && TimeOrdered(calls) && last < until
    requires forall i :: 0 <= i < |calls| ==> calls[i].now <= last
    ensures Earned(c, calls, RunPlain(c, map[], calls).0, RunPlain(c, map[], calls).1, key, until)
  {
    RunLength(c, map[], calls);
    if calls == [] {
    } else {
      var n := |calls| - 1;
      var (b, rs) := RunPlain(c, map[], calls[..n]);
      CountIsEarned(c, calls[..n], key, calls[n].now, until);
      var _ := CountedRun(c, calls[..n], key, 0.0, until, calls[n].now);
      EarnedStep(c, calls[..n], b, rs, calls[n], key, until);
      assert calls[..n] + [calls[n]] == calls;
    }
  }

  /** The answer to a call into a window with `used` calls that has `rest` seconds to go. */
  predicate Told(limit: int, used: int, rest: real, r: Result) {
    if used < limit then r.allowed && r.remaining == limit - used - 1 && r.retryAfter == 0
    else
      && !r.allowed && r.remaining == 0
      && (if rest < 1.5 then r.retryAfter == 1
          else -0.5 <= r.retryAfter as real - rest <= 0.5
               && (r.retryAfter as real - rest in {-0.5, 0.5} ==> r.retryAfter % 2 == 0))
  }

  /** On buckets that are never evicted, for the window that the call counts in. */
  lemma PlainAnswer(c: Config, calls: seq<Call>, call: Call, until: real) returns (start: real)
    requires ValidConfig(c) && TimeOrdered(calls) && call.now < until
    requires forall i :: 0 <= i < |calls| ==> calls[i].now <= call.now
    ensures start <= call.now < start + c.window as real && (start == call.now || OpenedAt(calls, call.key, start))
    ensures |RunPlain(c, map[], calls).1| == |calls|
    ensures Told(c.limit, AllowedIn(calls, RunPlain(c, map[], calls).1, call.key, start, until),
                 start + c.window as real - call.now, CheckPlain(c, RunPlain(c, map[], calls).0, call).1)
  {
    var (b, rs) := RunPlain(c, map[], calls);
    CountIsEarned(c, calls, call.key, call.now, until);
    var _ := CountedRun(c, calls, call.key, 0.0, until, call.now);
    start := AnswerInWindow(c, calls, b, rs, call, until);
  }

  lemma AnswerInWindow(c: Config, calls: seq<Call>, b: Buckets, rs: seq<Result>, call: Call, until: real)
    returns (start: real)
    requires ValidConfig(c) && Earned(c, calls, b, rs, call.key, until) && InBounds(c, b, call.now)
    ensures start <= call.now < start + c.window as real && (start == call.now || OpenedAt(calls, call.key, start))
    ensures Told(c.limit, AllowedIn(calls, rs, call.key, start, until), start + c.window as real - call.now,
                 CheckPlain(c, b, call).1)
  {
    CurrentEarned(c, calls, b, rs, call, until);
    var w := Current(c, b, call.key, call.now);
    start := w.resetAt - c.window as real;
    AnswerToWindow(c, b, call, w);
    assert start + c.window as real - call.now == w.resetAt - call.now;
  }

  lemma AnswerToWindow(c: Config, b: Buckets, call: Call, w: Window)
    requires ValidConfig(c) && w == Current(c, b, call.key, call.now)
    ensures Told(c.limit, w.count, w.resetAt - call.now, CheckPlain(c, b, call).1)
  {
  }

  /** Eviction changes neither the answers before nor this one. */
  lemma SameAnswer(c: Config, calls: seq<Call>, call: Call)
    requires ValidConfig(c) && TimeOrdered(calls + [call])
    ensures TimeOrdered(calls) && forall i :: 0 <= i < |calls| ==> calls[i].now <= call.now
    ensures Run(c, map[], calls).1 == RunPlain(c, map[], calls).1 && |Run(c, map[], calls).1| == |calls|
    ensures Check(c, Run(c, map[], calls).0, call).1 == CheckPlain(c, RunPlain(c, map[], calls).0, call).1
  {
    assert forall i :: 0 <= i < |calls| ==> (calls + [call])[i] == calls[i];
    assert (calls + [call])[|calls|] == call;
    RunLength(c, map[], calls);
    EvictionSimulates(c, map[], calls, call.now);
    OneCallSimulates(c, Run(c, map[], calls).0, RunPlain(c, map[], calls).0, call.now, call);
  }

  /**
   Every answer of the limiter, eviction included, from the history alone: a window begins at
   a call and lasts the window's length; a call is allowed if fewer than `limit` were since
   it began, and told how many are left; otherwise it is told to wait until the window ends,
   to the nearest second and at least one.
   */
  lemma {:induction false} AnswerExact(c: Config, calls: seq<Call>, call: Call, until: real) returns (start: real)
    requires ValidConfig(c) && TimeOrdered(calls + [call]) && call.now < until
    ensures start <= call.now < start + c.window as real && (start == call.now || OpenedAt(calls, call.key, start))
    ensures |Run(c, map[], calls).1| == |calls|
    ensures Told(c.limit, AllowedIn(calls, Run(c, map[], calls).1, call.key, start, until),
                 start + c.window as real - call.now, Check(c, Run(c, map[], calls).0, call).1)
  {
    SameAnswer(c, calls, call);
    start := PlainAnswer(c, calls, call, until);
  }

  /** A call is blocked only after `limit` allowed calls of its key within one window's length. */
  lemma BlockedOnlyWhenFull(c: Config, calls: seq<Call>, call: Call, until: real)
    requires ValidConfig(c) && TimeOrdered(calls + [call]) && call.now < until
    requires !Check(c, Run(c, map[], calls).0, call).1.allowed
    ensures |Run(c, map[], calls).1| == |calls|
    ensures AllowedIn(calls, Run(c, map[], calls).1, call.key, call.now - c.window as real, until) >= c.limit
  {
    SameAnswer(c, calls, call);
    var (b, rs) := RunPlain(c, map[], calls);
    CountIsEarned(c, calls, call.key, call.now, until);
    LaterCountsLess(calls, rs, call.key, call.now - c.window as real, b[call.key].resetAt - c.window as real, until);
  }

  // ----- the bound is sharp ----------------------------------------------------------------

  /** The buckets after one call, and after many. */
  function Step(c: Config, b: Buckets, call: Call): Buckets {
    var w := Current(c, b, call.key, call.now);
    b[call.key := if w.count >= c.limit then w else w.(count := w.count + 1)]
  }

  function After(c: Config, b: Buckets, calls: seq<Call>): Buckets {
    if calls == [] then b else Step(c, After(c, b, calls[..|calls| - 1]), calls[|calls| - 1])
  }

  /** Whether a call is of `key`, within the stretch, and allowed. */
  predicate Hit(c: Config, b: Buckets, call: Call, key: Key, from: real, until: real) {
    call.key == key && from <= call.now < until && Current(c, b, key, call.now).count < c.limit
  }

  function Hits(c: Config, b: Buckets, calls: seq<Call>, key: Key, from: real, until: real): nat {
    if calls == [] then 0 else
      var n := |calls| - 1;
      Hits(c, b, calls[..n], key, from, until)
      + if Hit(c, After(c, b, calls[..n]), calls[n], key, from, until) then 1 else 0
  }

  lemma {:induction false} HitsAreAllowed(c: Config, b: Buckets, calls: seq<Call>, key: Key, from: real, until: real)
    ensures var (b', rs) := RunPlain(c, b, calls);
            |rs| == |calls| && After(c, b, calls) == b'
            && Hits(c, b, calls, key, from, until) == AllowedIn(calls, rs, key, from, until)
  {
    if calls == [] {
    } else {
      var n := |calls| - 1;
      HitsAreAllowed(c, b, calls[..n], key, from, until);
      var rs := RunPlain(c, b, calls[..n]).1;
      assert RunPlain(c, b, calls).1[..n] == rs;
    }
  }

  lemma AfterSnoc(c: Config, b: Buckets, calls: seq<Call>, call: Call, key: Key, from: real, until: real)
    ensures After(c, b, calls + [call]) == Step(c, After(c, b, calls), call)
    ensures Hits(c, b, calls + [call], key, from, until)
            == Hits(c, b, calls, key, from, until)
               + if Hit(c, After(c, b, calls), call, key, from, until) then 1 else 0
  {
    assert (calls + [call])[..|calls|] == calls;
  }

  lemma {:induction false} AfterAppend(c: Config, b: Buckets, calls: seq<Call>, more: seq<Call>, key: Key,
      from: real, until: real)
    ensures After(c, b, calls + more) == After(c, After(c, b, calls), more)
    ensures Hits(c, b, calls + more, key, from, until)
            == Hits(c, b, calls, key, from, until) + Hits(c, After(c, b, calls), more, key, from, until)
    decreases |more|
  {
    if more == [] {
      assert calls + more == calls;
    } else {
      var n := |more| - 1;
      AfterAppend(c, b, calls, more[..n], key, from, until);
      AfterSnoc(c, b, calls + more[..n], more[n], key, from, until);
      assert calls + more == calls + more[..n] + [more[n]];
    }
  }

  /** All calls are of one key at one instant. */
  ghost predicate AtOnce(calls: seq<Call>, key: Key, now: real) {
    forall i :: 0 <= i < |calls| ==> calls[i] == Call(key, now)
  }

  function Burst(key: Key, now: real, n: nat): (calls: seq<Call>)
    ensures |calls| == n && AtOnce(calls, key, now)
  {
    if n == 0 then [] else Burst(key, now, n - 1) + [Call(key, now)]
  }

  function Within(now: real, from: real, until: real, n: nat): nat {
    if from <= now < until then n else 0
  }

  lemma SoleKey(b: Buckets, key: Key, w: Window)
    requires b.Keys <= {key}
    ensures b[key := w] == map[key := w]
  {
  }

  /** A call that finds room in the window of the only key there is. */
  lemma OneMore(c: Config, b: Buckets, key: Key, now: real, w: Window)
    requires b.Keys <= {key} && Current(c, b, key, now) == w && w.count < c.limit
    ensures Step(c, b, Call(key, now)) == map[key := w.(count := w.count + 1)]
  {
    SoleKey(b, key, w.(count := w.count + 1));
  }

  /** Calls at one instant into a window with room for them are all allowed. */
  lemma {:induction false} BurstAllowed(c: Config, calls: seq<Call>, key: Key, now: real, from: real, until: real,
      w: Window)
    requires AtOnce(calls, key, now) && Live(w, now) && w.count + |calls| <= c.limit
    ensures After(c, map[key := w], calls) == map[key := w.(count := w.count + |calls|)]
    ensures Hits(c, map[key := w], calls, key, from, until) == Within(now, from, until, |calls|)
  {
    if calls == [] {
    } else {
      var n := |calls| - 1;
      BurstAllowed(c, calls[..n], key, now, from, until, w);
      OneMore(c, map[key := w.(count := w.count + n)], key, now, w.(count := w.count + n));
    }
  }

  /** ... and so are calls that find the old window over. */
  lemma {:induction false} BurstOpens(c: Config, calls: seq<Call>, key: Key, now: real, from: real, until: real,
      b: Buckets)
    requires AtOnce(calls, key, now) && ValidConfig(c) && 1 <= |calls| <= c.limit
    requires b.Keys <= {key} && (key in b ==> !Live(b[key], now))
    ensures After(c, b, calls) == map[key := Window(|calls|, now + c.window as real)]
    ensures Hits(c, b, calls, key, from, until) == Within(now, from, until, |calls|)
  {
    var n := |calls| - 1;
    var w := Window(n, now + c.window as real);
    if n == 0 {
      assert calls[..n] == [];
      OneMore(c, b, key, now, w);
    } else {
      BurstOpens(c, calls[..n], key, now, from, until, b);
      OneMore(c, map[key := w], key, now, w);
    }
  }

  function Times(k: nat, n: nat): nat {
    if k == 0 then 0 else Times(k - 1, n) + n
  }

  lemma {:induction false} TimesIsProduct(k: nat, n: nat)
    ensures Times(k, n) == k * n
  {
    if k == 0 {
    } else {
      TimesIsProduct(k - 1, n);
      assert k * n == (k - 1) * n + n;
    }
  }

  /** One call opens a window, the rest of its limit comes just before it ends, then `k` full windows follow. */
  function Spree(c: Config, key: Key, k: nat): seq<Call>
    requires ValidConfig(c)
  {
    if k == 0 then Burst(key, 0.0, 1) + Burst(key, c.window as real - 0.5, c.limit - 1)
    else Spree(c, key, k - 1) + Burst(key, Times(k, c.window) as real, c.limit)
  }

  lemma BurstMember(key: Key, now: real, n: nat)
    ensures forall call :: call in Burst(key, now, n) ==> call.now == now
  {
  }

  lemma OrderedAppend(calls: seq<Call>, more: seq<Call>, now: real)
    requires TimeOrdered(calls) && forall call :: call in calls ==> call.now <= now
    requires forall call :: call in more ==> call.now == now
    ensures TimeOrdered(calls + more) && forall call :: call in calls + more ==> call.now <= now
  {
    forall i, j | 0 <= i < j < |calls + more| ensures (calls + more)[i].now <= (calls + more)[j].now {
      assert (calls + more)[i] in calls || (calls + more)[i] in more;
      assert j >= |calls| ==> (calls + more)[j] in more;
    }
  }

  lemma {:induction false} SpreeOrdered(c: Config, key: Key, k: nat)
    requires ValidConfig(c)
    ensures TimeOrdered(Spree(c, key, k))
    ensures forall call :: call in Spree(c, key, k) ==> call.now <= Times(k + 1, c.window) as real
  {
    if k == 0 {
      var now := c.window as real - 0.5;
      BurstMember(key, 0.0, 1);
      BurstMember(key, now, c.limit - 1);
      OrderedAppend(Burst(key, 0.0, 1), Burst(key, now, c.limit - 1), now);
    } else {
      var now := Times(k, c.window) as real;
      SpreeOrdered(c, key, k - 1);
      BurstMember(key, now, c.limit);
      OrderedAppend(Spree(c, key, k - 1), Burst(key, now, c.limit), now);
    }
  }

  /** After the calls the last window is full and ends at `end`; `total` calls fell into the stretch. */
  ghost predicate Fills(c: Config, calls: seq<Call>, key: Key, from: real, until: real, end: real, total: int)
    requires ValidConfig(c)
  {
    After(c, map[], calls) == map[key := Window(c.limit, end)] && Hits(c, map[], calls, key, from, until) == total
  }

  /** A window opened before the stretch is filled within it. */
  lemma FirstWindow(c: Config, first: seq<Call>, rest: seq<Call>, key: Key, from: real, until: real)
    requires ValidConfig(c) && 0.0 < from < c.window as real && from < until
    requires AtOnce(first, key, 0.0) && |first| == 1 && AtOnce(rest, key, from) && |rest| == c.limit - 1
    ensures Fills(c, first + rest, key, from, until, c.window as real, c.limit - 1)
  {
    BurstOpens(c, first, key, 0.0, from, until, map[]);
    AfterAppend(c, map[], first, rest, key, from, until);
    BurstAllowed(c, rest, key, from, from, until, Window(1, c.window as real));
  }

  /** A full window follows where the last one ended. */
  lemma NextWindow(c: Config, calls: seq<Call>, more: seq<Call>, key: Key, now: real, from: real, until: real,
      total: int)
    requires ValidConfig(c) && from <= now < until
    requires Fills(c, calls, key, from, until, now, total) && AtOnce(more, key, now) && |more| == c.limit
    ensures Fills(c, calls + more, key, from, until, now + c.window as real, total + c.limit)
  {
    AfterAppend(c, map[], calls, more, key, from, until);
    BurstOpens(c, more, key, now, from, until, map[key := Window(c.limit, now)]);
  }

  lemma SpreeStep(c: Config, key: Key, k: nat)
    requires ValidConfig(c) && k >= 1
    ensures Spree(c, key, k) == Spree(c, key, k - 1) + Burst(key, Times(k, c.window) as real, c.limit)
    ensures Times(k + 1, c.window) as real == Times(k, c.window) as real + c.window as real
    ensures Times(k, c.limit) + c.limit - 1 == Times(k - 1, c.limit) + c.limit - 1 + c.limit
  {
  }

  lemma {:induction false} SpreeCount(c: Config, key: Key, k: nat, until: real)
    requires ValidConfig(c) && c.window as real - 0.5 < until && Times(k, c.window) as real < until
    ensures Fills(c, Spree(c, key, k), key, c.window as real - 0.5, until,
                  Times(k + 1, c.window) as real, Times(k, c.limit) + c.limit - 1)
  {
    var from := c.window as real - 0.5;
    if k == 0 {
      FirstWindow(c, Burst(key, 0.0, 1), Burst(key, from, c.limit - 1), key, from, until);
    } else {
      SpreeCount(c, key, k - 1, until);
      SpreeStep(c, key, k);
      NextWindow(c, Spree(c, key, k - 1), Burst(key, Times(k, c.window) as real, c.limit), key,
                 Times(k, c.window) as real, from, until, Times(k - 1, c.limit) + c.limit - 1);
    }
  }

  /** The limiter itself, eviction included, allows just as many. */
  lemma FillsAllowed(c: Config, calls: seq<Call>, key: Key, from: real, until: real, end: real, total: int)
    requires ValidConfig(c) && TimeOrdered(calls) && Fills(c, calls, key, from, until, end, total)
    ensures |Run(c, map[], calls).1| == |calls| && AllowedIn(calls, Run(c, map[], calls).1, key, from, until) == total
  {
    HitsAreAllowed(c, map[], calls, key, from, until);
    EvictionInvisible(c, calls);
  }

  /**
   For every limit, window length and `k` the bound is reached: half a second before the
   first window ends begins a stretch of `k` windows' length with one call less than it.
   */
  lemma {:induction false} SlidingBoundReached(c: Config, key: Key, k: nat)
    requires ValidConfig(c) && k >= 1
    ensures var calls := Spree(c, key, k);
            var from := c.window as real - 0.5;
            TimeOrdered(calls) && |Run(c, map[], calls).1| == |calls|
            && AllowedIn(calls, Run(c, map[], calls).1, key, from, from + (k * c.window) as real)
               == (k + 1) * c.limit - 1
  {
    var until := c.window as real - 0.5 + (k * c.window) as real;
    TimesIsProduct(k, c.window);
    TimesIsProduct(k, c.limit);
    assert (k + 1) * c.limit == k * c.limit + c.limit;
    MulMonotone(1, k, c.window);
    SpreeOrdered(c, key, k);
    SpreeCount(c, key, k, until);
    FillsAllowed(c, Spree(c, key, k), key, c.window as real - 0.5, until,
                 Times(k + 1, c.window) as real, Times(k, c.limit) + c.limit - 1);
  }
}
