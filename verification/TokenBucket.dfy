/** The in-process rate limiter: one lazily refilled bucket per key. Times and token counts are reals. */
module TokenBucket {
  datatype Bucket = Bucket(tokens: real, last: real)

  datatype Limits = Limits(rps: int, burst: int) {
    /** What NewTokenBucket does with its arguments. */
    static function Create(rps: int, burst: int): (l: Limits)
      ensures rps >= 0 ==> l.burst >= 0 && l.burst as real >= 0.0
      ensures l.rps == rps && l.burst == if burst >= 1 then burst else rps + rps
    {
      Limits(rps, if burst <= 0 then 2 * rps else burst)
    }

    function Fresh(now: real): Bucket { Bucket(burst as real, now) }

    function Cap(tokens: real): real { if tokens > burst as real then burst as real else tokens }

    /** A clock that stands still or runs backwards refills nothing. */
    function Refill(b: Bucket, now: real): Bucket {
      if now > b.last then Bucket(Cap(b.tokens + (now - b.last) * rps as real), now) else b
    }

    function Admits(b: Bucket, now: real): bool { Refill(b, now).tokens >= 1.0 }

    function After(b: Bucket, now: real): Bucket {
      var r := Refill(b, now);
      if r.tokens < 1.0 then r else r.(tokens := r.tokens - 1.0)
    }
  }

  type Buckets = map<string, Bucket>

  /** The bucket a call on `key` finds, created full if there is none. */
  function Found(l: Limits, buckets: Buckets, key: string, now: real): Bucket {
    if key in buckets then buckets[key] else l.Fresh(now)
  }

  class Limiter {
    const limits: Limits
    var buckets: Buckets

    constructor (rps: int, burst: int)
      ensures limits == Limits.Create(rps, burst) && buckets == map[]
    {
      limits := Limits.Create(rps, burst);
      buckets := map[];
    }

    method Allow(key: string, now: real) returns (allowed: bool)
      modifies this
      ensures allowed == limits.Admits(Found(limits, old(buckets), key, now), now)
      ensures buckets == old(buckets)[key := limits.After(Found(limits, old(buckets), key, now), now)]
    {
      if key !in buckets {
        buckets := buckets[key := limits.Fresh(now)];
      }
      var b := buckets[key];
      var elapsed := now - b.last;
      if elapsed > 0.0 {
        b := b.(tokens := b.tokens + elapsed * limits.rps as real);
        if b.tokens > limits.burst as real {
          b := b.(tokens := limits.burst as real);
        }
        b := b.(last := now);
      }
      if b.tokens < 1.0 {
        buckets := buckets[key := b];
        return false;
      }
      buckets := buckets[key := b.(tokens := b.tokens - 1.0)];
      allowed := true;
    }
  }

  // ---- runs ----

  datatype Call = Call(key: string, now: real)

  /** Verdicts and final buckets of a run of calls on any keys. */
  function Serve(l: Limits, buckets: Buckets, calls: seq<Call>): (r: (seq<bool>, Buckets))
    ensures |r.0| == |calls|
    decreases |calls|
  {
    if calls == [] then ([], buckets)
    else
      var b := Found(l, buckets, calls[0].key, calls[0].now);
      var (verdicts, final) := Serve(l, buckets[calls[0].key := l.After(b, calls[0].now)], calls[1..]);
      ([l.Admits(b, calls[0].now)] + verdicts, final)
  }

  /** Times of the calls on one key, and the verdicts given to them. */
  function TimesOf(calls: seq<Call>, key: string): seq<real> {
    if calls == [] then []
    else if calls[0].key == key then [calls[0].now] + TimesOf(calls[1..], key)
    else TimesOf(calls[1..], key)
  }

  function VerdictsOf(calls: seq<Call>, verdicts: seq<bool>, key: string): seq<bool>
    requires |verdicts| == |calls|
  {
    if calls == [] then []
    else if calls[0].key == key then [verdicts[0]] + VerdictsOf(calls[1..], verdicts[1..], key)
    else VerdictsOf(calls[1..], verdicts[1..], key)
  }

  /** Verdicts and final bucket of a run on a single bucket. */
  function Run(l: Limits, b: Bucket, times: seq<real>): (r: (seq<bool>, Bucket))
    ensures |r.0| == |times|
    decreases |times|
  {
    if times == [] then ([], b)
    else
      var (verdicts, final) := Run(l, l.After(b, times[0]), times[1..]);
      ([l.Admits(b, times[0])] + verdicts, final)
  }

  /** A run on a key that has no bucket yet: its first call creates one, full. */
  function RunNew(l: Limits, times: seq<real>): (r: seq<bool>)
    ensures |r| == |times|
  {
    if times == [] then [] else Run(l, l.Fresh(times[0]), times).0
  }

  /** What a key's own calls would get on its own bucket, or on a new one if it has none. */
  function Alone(l: Limits, buckets: Buckets, key: string, times: seq<real>): seq<bool> {
    if key in buckets then Run(l, buckets[key], times).0 else RunNew(l, times)
  }

  /** Keys do not affect each other: in every run, from any table, each key sees the run of its own calls, on its
      own bucket if it has one and on a new one otherwise. */
  lemma {:induction false} KeysAreIndependent(l: Limits, buckets: Buckets, calls: seq<Call>, key: string)
    ensures var (verdicts, final) := Serve(l, buckets, calls); var times := TimesOf(calls, key);
            && VerdictsOf(calls, verdicts, key) == Alone(l, buckets, key, times)
            && (key in final <==> key in buckets || times != [])
            && (key in buckets ==> final[key] == Run(l, buckets[key], times).1)
            && (key !in buckets && times != [] ==> final[key] == Run(l, l.Fresh(times[0]), times).1)
    decreases |calls|
  {
    if calls != [] {
      var c := calls[0];
      var next := buckets[c.key := l.After(Found(l, buckets, c.key, c.now), c.now)];
      KeysAreIndependent(l, next, calls[1..], key);
      var (verdicts, _) := Serve(l, buckets, calls);
      assert verdicts[1..] == Serve(l, next, calls[1..]).0;
      if c.key == key {
        assert TimesOf(calls, key) == [c.now] + TimesOf(calls[1..], key);
      }
    }
  }

  // ---- how much a segment admits ----

  function Admitted(verdicts: seq<bool>): nat {
    if verdicts == [] then 0 else (if verdicts[0] then 1 else 0) + Admitted(verdicts[1..])
  }

  ghost predicate BucketOk(l: Limits, b: Bucket) { 0.0 <= b.tokens <= l.burst as real }

  ghost predicate LimitsOk(l: Limits) { l.rps >= 0 && l.burst >= 0 }

  lemma NonNegativeProduct(x: real, y: real)
    requires x >= 0.0 && y >= 0.0
    ensures x * y >= 0.0
  {
  }

  lemma Distribute(r: real, x: real, y: real)
    ensures r * (x + y) == r * x + r * y
  {
  }

  lemma Rearrange(r: real, x: real, y: real)
    ensures r * (x - y) == r * x - r * y
  {
  }

  /** Tokens held, less everything that has flowed in since time zero. No call raises it. */
  ghost function Credit(l: Limits, b: Bucket): real { b.tokens - l.rps as real * b.last }

  lemma CallBounds(l: Limits, b: Bucket, now: real)
    requires LimitsOk(l) && BucketOk(l, b)
    ensures BucketOk(l, l.After(b, now)) && l.After(b, now).last >= b.last
    ensures (if l.Admits(b, now) then 1.0 else 0.0) + Credit(l, l.After(b, now)) <= Credit(l, b)
  {
    if now > b.last {
      var r := l.rps as real;
      NonNegativeProduct(r, now - b.last);
      Distribute(r, now - b.last, b.last);
      assert now - b.last + b.last == now;
      assert (now - b.last) * r == r * (now - b.last);
    }
  }

  lemma {:induction false} CreditFalls(l: Limits, b: Bucket, times: seq<real>)
    requires LimitsOk(l) && BucketOk(l, b)
    ensures var (verdicts, final) := Run(l, b, times);
            && BucketOk(l, final) && final.last >= b.last
            && Admitted(verdicts) as real + Credit(l, final) <= Credit(l, b)
    decreases |times|
  {
    if times != [] {
      var next := l.After(b, times[0]);
      CallBounds(l, b, times[0]);
      CreditFalls(l, next, times[1..]);
      AdmittedFirst(l, b, times);
    }
  }

  /** What was spent and what is left are covered by what was held and what flowed in. */
  ghost predicate Covered(l: Limits, b: Bucket, final: Bucket, spent: real) {
    && spent + final.tokens <= b.tokens + l.rps as real * (final.last - b.last)
    && spent <= l.burst as real + l.rps as real * (final.last - b.last)
  }

  /** Token conservation: what a segment admits, plus what is left, is covered by what was there and what
      flowed in while the bucket's own clock advanced. Any clock, even one that jumps back. */
  lemma SegmentBound(l: Limits, b: Bucket, times: seq<real>)
    requires LimitsOk(l) && BucketOk(l, b)
    ensures var (verdicts, final) := Run(l, b, times);
            && BucketOk(l, final) && final.last >= b.last
            && Covered(l, b, final, Admitted(verdicts) as real)
  {
    CreditFalls(l, b, times);
    var (verdicts, final) := Run(l, b, times);
    CreditCovers(l, b, final, Admitted(verdicts) as real);
  }

  lemma CreditCovers(l: Limits, b: Bucket, final: Bucket, spent: real)
    requires BucketOk(l, b) && BucketOk(l, final) && spent + Credit(l, final) <= Credit(l, b)
    ensures Covered(l, b, final, spent)
  {
    SpentAndHeld(l.rps as real, b.tokens, b.last, final.tokens, final.last, spent);
  }

  /** The same in numbers. */
  lemma SpentAndHeld(r: real, tokens: real, last: real, tokens': real, last': real, spent: real)
    requires spent + (tokens' - r * last') <= tokens - r * last
    ensures spent + tokens' <= tokens + r * (last' - last)
  {
    Rearrange(r, last', last);
  }

  predicate NonDecreasing(times: seq<real>) { forall i, j :: 0 <= i < j < |times| ==> times[i] <= times[j] }

  lemma {:induction false} LastIsLatest(l: Limits, b: Bucket, times: seq<real>, until: real)
    requires b.last <= until && forall i :: 0 <= i < |times| ==> times[i] <= until
    ensures Run(l, b, times).1.last <= until
    decreases |times|
  {
    if times != [] {
      LastIsLatest(l, l.After(b, times[0]), times[1..], until);
    }
  }

  /** In real time: with a clock that never runs back, no window of length `until - from` admits more than
      burst + rps * (until - from), however long the key was idle before. */
  lemma WindowBound(l: Limits, b: Bucket, times: seq<real>, start: real, until: real)
    requires LimitsOk(l) && BucketOk(l, b) && times != [] && NonDecreasing(times)
    requires b.last <= times[0] && start <= times[0] && times[|times| - 1] <= until
    ensures Admitted(Run(l, b, times).0) as real <= l.burst as real + l.rps as real * (until - start)
  {
    FirstCall(l, b, times[0]);
    AdmittedFirst(l, b, times);
    WindowTail(l, l.After(b, times[0]), times[1..], if l.Admits(b, times[0]) then 1.0 else 0.0, start, until);
  }

  lemma WindowTail(l: Limits, b: Bucket, times: seq<real>, first: real, start: real, until: real)
    requires LimitsOk(l) && BucketOk(l, b) && start <= b.last <= until
    requires forall i :: 0 <= i < |times| ==> times[i] <= until
    requires first + b.tokens <= l.burst as real
    ensures first + Admitted(Run(l, b, times).0) as real <= l.burst as real + l.rps as real * (until - start)
  {
    CreditFalls(l, b, times);
    LastIsLatest(l, b, times, until);
    var (verdicts, final) := Run(l, b, times);
    CreditBound(l, b, final, first, Admitted(verdicts) as real, start, until);
  }

  lemma CreditBound(l: Limits, b: Bucket, final: Bucket, first: real, more: real, start: real, until: real)
    requires LimitsOk(l) && start <= b.last && final.last <= until && final.tokens >= 0.0
    requires first + b.tokens <= l.burst as real && more + Credit(l, final) <= Credit(l, b)
    ensures first + more <= l.burst as real + l.rps as real * (until - start)
  {
    var r := l.rps as real;
    Monotone(r, final.last, until);
    Monotone(r, start, b.last);
    Distribute(r, until - start, start);
    assert until - start + start == until;
  }

  lemma AdmittedFirst(l: Limits, b: Bucket, times: seq<real>)
    requires times != []
    ensures Admitted(Run(l, b, times).0)
         == (if l.Admits(b, times[0]) then 1 else 0) + Admitted(Run(l, l.After(b, times[0]), times[1..]).0)
  {
    assert Run(l, b, times).0[1..] == Run(l, l.After(b, times[0]), times[1..]).0;
  }

  /** However long the key was idle, a call finds at most `burst` tokens. */
  lemma FirstCall(l: Limits, b: Bucket, now: real)
    requires LimitsOk(l) && BucketOk(l, b) && b.last <= now
    ensures BucketOk(l, l.After(b, now)) && l.After(b, now).last == now
    ensures (if l.Admits(b, now) then 1.0 else 0.0) + l.After(b, now).tokens <= l.burst as real
  {
    CallBounds(l, b, now);
  }

  lemma Monotone(r: real, x: real, y: real)
    requires r >= 0.0 && x <= y
    ensures r * x <= r * y
  {
    NonNegativeProduct(r, y - x);
    Distribute(r, y - x, x);
  }

  // ---- denied calls leave no trace ----

  /** Refilling in two instalments is refilling once. */
  lemma RefillTwice(l: Limits, b: Bucket, t: real, u: real)
    requires LimitsOk(l) && b.tokens <= l.burst as real && b.last <= t <= u
    ensures l.Refill(l.Refill(b, t), u) == l.Refill(b, u)
  {
    var r := l.rps as real;
    if b.last < t < u {
      NonNegativeProduct(t - b.last, r);
      NonNegativeProduct(u - t, r);
      Distribute(r, t - b.last, u - t);
      assert t - b.last + (u - t) == u - b.last;
    }
  }

  /** The calls of `times` whose mask bit is set. */
  function Kept<T>(xs: seq<T>, keep: seq<bool>): seq<T>
    requires |keep| == |xs|
  {
    if xs == [] then []
    else if keep[0] then [xs[0]] + Kept(xs[1..], keep[1..])
    else Kept(xs[1..], keep[1..])
  }

  /** `b'` is `b` except that some refills have not been taken yet. */
  ghost predicate Lags(l: Limits, b': Bucket, b: Bucket, t: real) {
    b'.last <= t && b'.tokens <= l.burst as real && l.Refill(b', t) == l.Refill(b, t)
  }

  /** With a clock that never runs back, deleting any denied calls from a run changes no other verdict. */
  lemma {:induction false} DeniedCallsAreInvisible(l: Limits, b: Bucket, b': Bucket, times: seq<real>, keep: seq<bool>)
    requires LimitsOk(l) && b.tokens <= l.burst as real && NonDecreasing(times) && |keep| == |times|
    requires times != [] ==> b.last <= times[0] && Lags(l, b', b, times[0])
    requires forall i :: 0 <= i < |times| && !keep[i] ==> !Run(l, b, times).0[i]
    ensures Run(l, b', Kept(times, keep)).0 == Kept(Run(l, b, times).0, keep)
    decreases |times|
  {
    if times != [] {
      var t := times[0];
      var next := l.After(b, t);
      var (verdicts, _) := Run(l, b, times);
      assert verdicts[1..] == Run(l, next, times[1..]).0;
      assert forall i :: 0 <= i < |times| - 1 ==> verdicts[1..][i] == verdicts[i + 1];
      var next' := if keep[0] then l.After(b', t) else b';
      if |times| > 1 {
        var u := times[1];
        RefillTwice(l, b, t, u);
        RefillTwice(l, b', t, u);
        if keep[0] {
          assert next' == next;
        } else {
          assert !verdicts[0] && next == l.Refill(b, t);
        }
      }
      DeniedCallsAreInvisible(l, next, next', times[1..], keep[1..]);
    }
  }

  /** For whole runs: from the same bucket, the kept calls get the same verdicts. */
  lemma DeletingDeniedCalls(l: Limits, b: Bucket, times: seq<real>, keep: seq<bool>)
    requires LimitsOk(l) && BucketOk(l, b) && NonDecreasing(times) && |keep| == |times|
    requires times != [] ==> b.last <= times[0]
    requires forall i :: 0 <= i < |times| && !keep[i] ==> !Run(l, b, times).0[i]
    ensures Run(l, b, Kept(times, keep)).0 == Kept(Run(l, b, times).0, keep)
  {
    DeniedCallsAreInvisible(l, b, b, times, keep);
  }

  /** A full bucket is the same whenever it was created. */
  lemma FullIsFull(l: Limits, t: real, times: seq<real>)
    requires LimitsOk(l) && times != [] && t <= times[0]
    ensures Run(l, l.Fresh(t), times) == Run(l, l.Fresh(times[0]), times)
  {
    NonNegativeProduct(times[0] - t, l.rps as real);
    assert l.Refill(l.Fresh(t), times[0]) == l.Fresh(times[0]);
  }

  lemma {:induction false} KeptFrom(times: seq<real>, keep: seq<bool>, start: real)
    requires |keep| == |times| && forall i :: 0 <= i < |times| ==> start <= times[i]
    ensures forall i :: 0 <= i < |Kept(times, keep)| ==> start <= Kept(times, keep)[i]
  {
    if times != [] {
      KeptFrom(times[1..], keep[1..], start);
    }
  }

  /** So it does not matter which earlier time the bucket of a new key dates from. */
  lemma RunNewFrom(l: Limits, t: real, times: seq<real>)
    requires LimitsOk(l) && (times != [] ==> t <= times[0])
    ensures RunNew(l, times) == Run(l, l.Fresh(t), times).0
  {
    if times != [] {
      FullIsFull(l, t, times);
    }
  }

  /** The same for a new key, even if the call that would have created its bucket is deleted. */
  lemma DeletingDeniedCallsNewKey(l: Limits, times: seq<real>, keep: seq<bool>)
    requires LimitsOk(l) && NonDecreasing(times) && |keep| == |times|
    requires forall i :: 0 <= i < |times| && !keep[i] ==> !RunNew(l, times)[i]
    ensures RunNew(l, Kept(times, keep)) == Kept(RunNew(l, times), keep)
  {
    if times != [] {
      KeptFrom(times, keep, times[0]);
      RunNewFrom(l, times[0], times);
      RunNewFrom(l, times[0], Kept(times, keep));
      DeletingDeniedCalls(l, l.Fresh(times[0]), times, keep);
    }
  }

  // ---- whole runs of the limiter ----

  lemma {:induction false} RunSplits(l: Limits, b: Bucket, times: seq<real>, n: nat)
    requires n <= |times|
    ensures var (verdicts, mid) := Run(l, b, times[..n]);
            && Run(l, b, times).0 == verdicts + Run(l, mid, times[n..]).0
            && Run(l, b, times).1 == Run(l, mid, times[n..]).1
    decreases n
  {
    if n == 0 {
      assert times[0..] == times && times[..0] == [];
    } else {
      RunSplits(l, l.After(b, times[0]), times[1..], n - 1);
      assert times[..n][1..] == times[1..][..n - 1] && times[1..][n - 1..] == times[n..];
    }
  }

  function Later(x: real, y: real): real { if x < y then y else x }

  /** The latest time among the first `n` calls; before any call, the time of the first. */
  function Clock(times: seq<real>, n: nat): real
    requires n <= |times| && times != []
  {
    if n == 0 then times[0] else Later(Clock(times, n - 1), times[n - 1])
  }

  lemma LastOfOne(l: Limits, b: Bucket, t: real)
    ensures Run(l, b, [t]) == ([l.Admits(b, t)], l.After(b, t)) && l.After(b, t).last == Later(b.last, t)
  {
    var b' := l.After(b, t);
    assert [t][0] == t && [t][1..] == [] && Run(l, b', []) == ([], b');
    assert [l.Admits(b, t)] + [] == [l.Admits(b, t)];
  }

  /** A new key's bucket always carries that clock. */
  lemma {:induction false} LastIsClock(l: Limits, times: seq<real>, n: nat)
    requires times != [] && n <= |times|
    ensures Run(l, l.Fresh(times[0]), times[..n]).1.last == Clock(times, n)
    decreases n
  {
    if n > 0 {
      LastIsClock(l, times, n - 1);
      var b := l.Fresh(times[0]);
      RunSplits(l, b, times[..n], n - 1);
      assert times[..n][..n - 1] == times[..n - 1] && times[..n][n - 1..] == [times[n - 1]];
      LastOfOne(l, Run(l, b, times[..n - 1]).1, times[n - 1]);
    }
  }

  /** The segment of a run is the run on the bucket that the calls before it left. */
  lemma SegmentOfRun(l: Limits, times: seq<real>, i: nat, j: nat) returns (mid: Bucket)
    requires times != [] && i <= j <= |times|
    ensures mid == Run(l, l.Fresh(times[0]), times[..i]).1 && mid.last == Clock(times, i)
    ensures Run(l, mid, times[i..j]).1.last == Clock(times, j)
    ensures RunNew(l, times)[i..j] == Run(l, mid, times[i..j]).0
  {
    var b := l.Fresh(times[0]);
    mid := Run(l, b, times[..i]).1;
    LastIsClock(l, times, i);
    LastIsClock(l, times, j);
    RunSplits(l, b, times, j);
    RunSplits(l, b, times[..j], i);
    assert times[..j][..i] == times[..i] && times[..j][i..] == times[i..j];
  }

  /** At most burst plus rate times the time that has passed. */
  ghost predicate Limited(l: Limits, verdicts: seq<bool>, advance: real) {
    Admitted(verdicts) as real <= l.burst as real + l.rps as real * advance
  }

  lemma RunIsLimited(l: Limits, b: Bucket, times: seq<real>)
    requires LimitsOk(l) && BucketOk(l, b)
    ensures var (verdicts, final) := Run(l, b, times);
            BucketOk(l, final) && Limited(l, verdicts, final.last - b.last)
  {
    SegmentBound(l, b, times);
  }

  lemma SegmentIsLimited(l: Limits, times: seq<real>, i: nat, j: nat)
    requires LimitsOk(l) && times != [] && i <= j <= |times|
    ensures Limited(l, RunNew(l, times)[i..j], Clock(times, j) - Clock(times, i))
  {
    var mid := SegmentOfRun(l, times, i, j);
    RunIsLimited(l, l.Fresh(times[0]), times[..i]);
    RunIsLimited(l, mid, times[i..j]);
    var final := Run(l, mid, times[i..j]).1;
    SameAdvance(l, RunNew(l, times)[i..j], final.last - mid.last, Clock(times, j) - Clock(times, i));
  }

  lemma SameAdvance(l: Limits, verdicts: seq<bool>, x: real, y: real)
    requires x == y && Limited(l, verdicts, x)
    ensures Limited(l, verdicts, y)
  {
  }

  /** The limiter's promise. In every run from an empty table, on any keys and with any clock, any contiguous segment
      of one key's calls admits at most burst plus rate times the advance of that key's clock. */
  lemma EveryRunIsLimited(l: Limits, calls: seq<Call>, key: string, i: nat, j: nat)
    requires LimitsOk(l) && i <= j <= |TimesOf(calls, key)| && TimesOf(calls, key) != []
    ensures var times, verdicts := TimesOf(calls, key), VerdictsOf(calls, Serve(l, map[], calls).0, key);
            |verdicts| == |times| && Limited(l, verdicts[i..j], Clock(times, j) - Clock(times, i))
  {
    var times := TimesOf(calls, key);
    KeysAreIndependent(l, map[], calls, key);
    SegmentIsLimited(l, times, i, j);
  }

  // ---- exactly which calls are admitted ----

  /** One call more since `i` would still be within burst and rate. */
  ghost predicate RoomSince(l: Limits, times: seq<real>, verdicts: seq<bool>, i: nat, j: nat)
    requires i <= j < |times| == |verdicts|
  {
    Admitted(verdicts[i..j]) as real + 1.0 <= Allowance(l, times[j] - times[i])
  }

  /** Burst plus rate times the time that has passed. */
  function Allowance(l: Limits, elapsed: real): real { l.burst as real + l.rps as real * elapsed }

  /** The bucket that call `j` on a new key finds, and what it holds once it is refilled. */
  function Before(l: Limits, times: seq<real>, j: nat): Bucket
    requires times != [] && j <= |times|
  {
    Run(l, l.Fresh(times[0]), times[..j]).1
  }

  function Level(l: Limits, times: seq<real>, j: nat): real
    requires j < |times|
  {
    l.Refill(Before(l, times, j), times[j]).tokens
  }

  lemma CallAt(l: Limits, times: seq<real>, j: nat)
    requires j < |times| && LimitsOk(l)
    ensures RunNew(l, times)[j] == (Level(l, times, j) >= 1.0)
    ensures Before(l, times, j + 1) == l.After(Before(l, times, j), times[j])
    ensures BucketOk(l, Before(l, times, j))
  {
    var b := l.Fresh(times[0]);
    RunSplits(l, b, times, j);
    RunSplits(l, b, times[..j + 1], j);
    assert times[..j + 1][..j] == times[..j] && times[..j + 1][j..] == [times[j]];
    assert times[j..] == [times[j]] + times[j + 1..];
    assert Run(l, Before(l, times, j), times[j..]).0[0] == l.Admits(Before(l, times, j), times[j]);
    LastOfOne(l, Before(l, times, j), times[j]);
    CreditFalls(l, b, times[..j]);
  }

  lemma LastBefore(l: Limits, times: seq<real>, j: nat)
    requires j <= |times| && times != [] && NonDecreasing(times)
    ensures Before(l, times, j).last == if j == 0 then times[0] else times[j - 1]
  {
    LastIsClock(l, times, j);
    ClockIsLast(times, j);
  }

  lemma {:induction false} ClockIsLast(times: seq<real>, j: nat)
    requires j <= |times| && times != [] && NonDecreasing(times)
    ensures Clock(times, j) == if j == 0 then times[0] else times[j - 1]
    decreases j
  {
    if j > 0 {
      ClockIsLast(times, j - 1);
    }
  }

  lemma {:induction false} AdmittedSnoc(verdicts: seq<bool>, last: bool)
    ensures Admitted(verdicts + [last]) == Admitted(verdicts) + if last then 1 else 0
  {
    if verdicts == [] {
      assert [] + [last] == [last] && [last][1..] == [];
    } else {
      assert (verdicts + [last])[1..] == verdicts[1..] + [last];
      AdmittedSnoc(verdicts[1..], last);
    }
  }

  lemma AdmittedMore(verdicts: seq<bool>, i: nat, j: nat)
    requires i <= j < |verdicts|
    ensures Admitted(verdicts[i..j + 1]) == Admitted(verdicts[i..j]) + if verdicts[j] then 1 else 0
  {
    assert verdicts[i..j + 1] == verdicts[i..j] + [verdicts[j]];
    AdmittedSnoc(verdicts[i..j], verdicts[j]);
  }

  /** The bucket was full at call `i`, and nothing was lost since: it holds the burst and what flowed in, less what was
      admitted. */
  ghost predicate FullSince(l: Limits, times: seq<real>, i: nat, j: nat)
    requires i <= j < |times|
  {
    Level(l, times, j) == LeftOf(l, times[i], times[j], Admitted(RunNew(l, times)[i..j]) as real)
  }

  /** A full bucket with its inflow, less what was spent. */
  function LeftOf(l: Limits, start: real, now: real, spent: real): real {
    Allowance(l, now - start) - spent
  }

  lemma FullNow(l: Limits, times: seq<real>, j: nat)
    requires j < |times| && Level(l, times, j) == l.burst as real
    ensures FullSince(l, times, j, j)
  {
    assert RunNew(l, times)[j..j] == [];
    assert l.rps as real * (times[j] - times[j]) == 0.0;
  }

  /** What flows into a bucket between two times. */
  function Inflow(l: Limits, start: real, until: real): real { (until - start) * l.rps as real }

  lemma RefillLevel(l: Limits, b: Bucket, now: real)
    requires b.last <= now && b.tokens <= l.burst as real
    ensures l.Refill(b, now).tokens == l.Cap(b.tokens + Inflow(l, b.last, now))
  {
    assert b.last == now ==> (now - b.last) * l.rps as real == 0.0;
  }

  lemma TakeOne(l: Limits, b: Bucket, now: real)
    ensures l.After(b, now).tokens == l.Refill(b, now).tokens - if l.Admits(b, now) then 1.0 else 0.0
  {
  }

  /** What one call and the time up to the next make of the level. */
  lemma NextLevel(l: Limits, times: seq<real>, j: nat)
    requires LimitsOk(l) && NonDecreasing(times) && j + 1 < |times|
    ensures var left := Level(l, times, j) - if RunNew(l, times)[j] then 1.0 else 0.0;
            Level(l, times, j + 1) == l.Cap(left + Inflow(l, times[j], times[j + 1]))
  {
    CallAt(l, times, j);
    TakeOne(l, Before(l, times, j), times[j]);
    CallAt(l, times, j + 1);
    LastBefore(l, times, j + 1);
    assert times[j] <= times[j + 1];
    RefillLevel(l, Before(l, times, j + 1), times[j + 1]);
  }

  /** The same in numbers. */
  lemma Carried(l: Limits, start: real, t: real, u: real, level: real, spent: real, took: real)
    requires level == LeftOf(l, start, t, spent)
    ensures level - took + Inflow(l, t, u) == LeftOf(l, start, u, spent + took)
  {
    var r := l.rps as real;
    Distribute(r, t - start, u - t);
    assert t - start + (u - t) == u - start;
    assert (u - t) * r == r * (u - t);
  }

  lemma FullSinceNext(l: Limits, times: seq<real>, i: nat, j: nat)
    requires LimitsOk(l) && NonDecreasing(times) && i <= j && j + 1 < |times| && FullSince(l, times, i, j)
    requires Level(l, times, j + 1) != l.burst as real
    ensures FullSince(l, times, i, j + 1)
  {
    var verdicts := RunNew(l, times);
    var took := if verdicts[j] then 1.0 else 0.0;
    NextLevel(l, times, j);
    AdmittedMore(verdicts, i, j);
    Carried(l, times[i], times[j], times[j + 1], Level(l, times, j), Admitted(verdicts[i..j]) as real, took);
  }

  lemma {:induction false} SomeFullCall(l: Limits, times: seq<real>, j: nat) returns (i: nat)
    requires LimitsOk(l) && NonDecreasing(times) && j < |times|
    ensures i <= j && FullSince(l, times, i, j)
    decreases j
  {
    if j == 0 {
      assert times[..0] == [];
    } else {
      i := SomeFullCall(l, times, j - 1);
    }
    if j == 0 || Level(l, times, j) == l.burst as real {
      FullNow(l, times, j);
      i := j;
    } else {
      FullSinceNext(l, times, i, j - 1);
    }
  }

  lemma PartOfOrdered(times: seq<real>, i: nat, j: nat)
    requires NonDecreasing(times) && i <= j < |times|
    ensures var window := times[i..j + 1];
            NonDecreasing(window) && window != [] && window[0] == times[i] && window[|window| - 1] == times[j]
  {
  }

  lemma BucketBefore(l: Limits, times: seq<real>, i: nat)
    requires LimitsOk(l) && NonDecreasing(times) && i < |times|
    ensures var b := Before(l, times, i); BucketOk(l, b) && b.last <= times[i]
  {
    CallAt(l, times, i);
    LastBefore(l, times, i);
    assert i > 0 ==> times[i - 1] <= times[i];
  }

  lemma VerdictsIn(l: Limits, times: seq<real>, i: nat, j: nat)
    requires times != [] && i <= j <= |times|
    ensures RunNew(l, times)[i..j] == Run(l, Before(l, times, i), times[i..j]).0
  {
    var _ := SegmentOfRun(l, times, i, j);
  }

  lemma WindowIsLimited(l: Limits, times: seq<real>, i: nat, j: nat)
    requires LimitsOk(l) && NonDecreasing(times) && i <= j < |times|
    ensures Limited(l, RunNew(l, times)[i..j + 1], times[j] - times[i])
  {
    BucketBefore(l, times, i);
    PartOfOrdered(times, i, j);
    VerdictsIn(l, times, i, j + 1);
    WindowFits(l, Before(l, times, i), times[i..j + 1], times[i], times[j]);
  }

  lemma WindowFits(l: Limits, b: Bucket, window: seq<real>, start: real, until: real)
    requires LimitsOk(l) && BucketOk(l, b) && NonDecreasing(window)
    requires window != [] && b.last <= start == window[0] && window[|window| - 1] == until
    ensures Limited(l, Run(l, b, window).0, until - start)
  {
    WindowBound(l, b, window, start, until);
  }

  /** An admitted call leaves every window that ends with it within the limit. */
  lemma WindowHolds(l: Limits, times: seq<real>, i: nat, j: nat)
    requires LimitsOk(l) && NonDecreasing(times) && i <= j < |times| && RunNew(l, times)[j]
    ensures RoomSince(l, times, RunNew(l, times), i, j)
  {
    WindowIsLimited(l, times, i, j);
    AdmittedMore(RunNew(l, times), i, j);
  }

  lemma NoRoom(l: Limits, times: seq<real>, i: nat, j: nat)
    requires i <= j < |times| && FullSince(l, times, i, j) && Level(l, times, j) < 1.0
    ensures !RoomSince(l, times, RunNew(l, times), i, j)
  {
  }

  /** The limiter's rule without buckets. On a new key, with a clock that never runs back, a call is admitted exactly
      when for every earlier call, and for itself, the calls admitted from that one on, this one included, are at most
      burst plus rate times the time since. */
  lemma CallIsAdmittedIff(l: Limits, times: seq<real>, j: nat)
    requires LimitsOk(l) && NonDecreasing(times) && j < |times|
    ensures RunNew(l, times)[j] <==> forall i :: 0 <= i <= j ==> RoomSince(l, times, RunNew(l, times), i, j)
  {
    if RunNew(l, times)[j] {
      forall i | 0 <= i <= j ensures RoomSince(l, times, RunNew(l, times), i, j) {
        WindowHolds(l, times, i, j);
      }
    } else {
      var i := SomeFullCall(l, times, j);
      CallAt(l, times, j);
      NoRoom(l, times, i, j);
    }
  }

  /** The same for every key of every run of the limiter from an empty table. */
  lemma EveryCallIsAdmittedIff(l: Limits, calls: seq<Call>, key: string, j: nat)
    requires LimitsOk(l) && NonDecreasing(TimesOf(calls, key)) && j < |TimesOf(calls, key)|
    ensures var times, verdicts := TimesOf(calls, key), VerdictsOf(calls, Serve(l, map[], calls).0, key);
            && |verdicts| == |times|
            && (verdicts[j] <==> forall i :: 0 <= i <= j ==> RoomSince(l, times, verdicts, i, j))
  {
    KeysAreIndependent(l, map[], calls, key);
    CallIsAdmittedIff(l, TimesOf(calls, key), j);
  }
}
