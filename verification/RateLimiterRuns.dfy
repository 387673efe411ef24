/**
 Whole runs of the limiter under concurrent callers.

 The limiter guards its two tiers by two locks, so a request is two atomic steps,
 `Begin` (global debit) and `Finish` (per-address debit), and any interleaving of
 the steps of different requests may happen. `Cleanup` may happen at any time.
 */
module RateLimiterRuns {
  import opened RateLimiter

  datatype Event =
    | Plain(now: real)
    | Begin(ip: IpAddr, now: real)
    | Finish(ip: IpAddr, now: real)
    | Cleanup(now: real)

  /** The limiter together with the requests that passed `Begin` and not yet `Finish`. */
  datatype System = System(limiter: Limiter, inFlight: multiset<IpAddr>)

  ghost predicate Enabled(s: System, e: Event) {
    e.Finish? ==> e.ip in s.inFlight
  }

  /** One step, with the answer given to the caller; `ttl` is the eviction threshold. */
  ghost function Step(s: System, e: Event, ttl: real): (System, bool) {
    match e
    case Plain(now) =>
      var (l, ok) := s.limiter.DebitGlobal(now);
      (s.(limiter := l), ok)
    case Begin(ip, now) =>
      var (l, ok) := s.limiter.DebitGlobal(now);
      (System(l, if ok then s.inFlight + multiset{ip} else s.inFlight), ok)
    case Finish(ip, now) =>
      var (l, ok) := s.limiter.DebitIp(ip, now);
      (System(l, s.inFlight - multiset{ip}), ok)
    case Cleanup(now) =>
      (s.(limiter := s.limiter.Evict(now, ttl)), true)
  }

  /** `evs` can happen from `s`, with clock readings that never run backwards from `now`. */
  ghost predicate IsRun(s: System, evs: seq<Event>, now: real, ttl: real)
    decreases |evs|
  {
    evs == [] ||
    (Enabled(s, evs[0]) && now <= evs[0].now &&
     IsRun(Step(s, evs[0], ttl).0, evs[1..], evs[0].now, ttl))
  }

  ghost function After(s: System, evs: seq<Event>, ttl: real): System
    decreases |evs|
  {
    if evs == [] then s else After(Step(s, evs[0], ttl).0, evs[1..], ttl)
  }

  /** The answers the callers see, in order; a cleanup has no caller. */
  ghost function Answers(s: System, evs: seq<Event>, ttl: real): seq<bool>
    decreases |evs|
  {
    if evs == [] then []
    else
      (if evs[0].Cleanup? then [] else [Step(s, evs[0], ttl).1])
      + Answers(Step(s, evs[0], ttl).0, evs[1..], ttl)
  }

  ghost function WithoutCleanups(evs: seq<Event>): seq<Event>
    decreases |evs|
  {
    if evs == [] then []
    else (if evs[0].Cleanup? then [] else [evs[0]]) + WithoutCleanups(evs[1..])
  }

  ghost function Initial(globalPerMinute: nat, now: real): System {
    System(NewLimiter(globalPerMinute, now), multiset{})
  }

  lemma StepKeepsValid(s: System, e: Event, ttl: real, now: real)
    requires s.limiter.Valid(now) && now <= e.now
    ensures Step(s, e, ttl).0.limiter.Valid(e.now)
    ensures Step(s, e, ttl).0.limiter.perIpMax == s.limiter.perIpMax
    ensures Step(s, e, ttl).0.limiter.global.maxTokens == s.limiter.global.maxTokens
  {
    TryAcquireKeepsValid(s.limiter.global, e.now);
    if e.Finish? {
      var b := if e.ip in s.limiter.perIp then s.limiter.perIp[e.ip] else NewBucket(s.limiter.perIpMax, e.now);
      TryAcquireKeepsValid(b, e.now);
    }
  }

  // ---- Eviction cannot be observed ----

  /**
   `a` is a system that has evicted buckets, `b` one that has not: they differ only in
   buckets of `b` that have been idle for at least a minute and so are full again.
   */
  ghost predicate Similar(a: System, b: System, now: real) {
    && a.inFlight == b.inFlight
    && a.limiter.global == b.limiter.global
    && a.limiter.perIpMax == b.limiter.perIpMax
    && b.limiter.Valid(now)
    && (forall ip :: ip in a.limiter.perIp ==> ip in b.limiter.perIp && a.limiter.perIp[ip] == b.limiter.perIp[ip])
    && (forall ip :: ip in b.limiter.perIp && ip !in a.limiter.perIp ==> now - b.limiter.perIp[ip].lastRefill >= 60.0)
  }

  /** A fresh bucket and one idle for a minute give the same answer and end up equal. */
  lemma IdleActsLikeFresh(b: Bucket, now: real)
    requires b.Valid(now) && now - b.lastRefill >= 60.0
    ensures b.TryAcquire(now) == NewBucket(b.maxTokens, now).TryAcquire(now)
  {
    FullAfterAMinute(b, now);
  }

  lemma SimilarStep(a: System, b: System, e: Event, ttl: real, now: real)
    requires Similar(a, b, now) && now <= e.now && !e.Cleanup?
    ensures Step(a, e, ttl).1 == Step(b, e, ttl).1
    ensures Similar(Step(a, e, ttl).0, Step(b, e, ttl).0, e.now)
  {
    StepKeepsValid(b, e, ttl, now);
    if e.Finish? && e.ip in b.limiter.perIp && e.ip !in a.limiter.perIp {
      IdleActsLikeFresh(b.limiter.perIp[e.ip], e.now);
    }
  }

  lemma SimilarAfterCleanup(a: System, b: System, e: Event, ttl: real, now: real)
    requires Similar(a, b, now) && now <= e.now && e.Cleanup? && ttl >= 60.0
    ensures Similar(Step(a, e, ttl).0, b, e.now)
  {
  }

  lemma {:induction false} SimilarRuns(a: System, b: System, evs: seq<Event>, ttl: real, now: real)
    requires Similar(a, b, now) && IsRun(a, evs, now, ttl) && ttl >= 60.0
    ensures IsRun(b, WithoutCleanups(evs), now, ttl)
    ensures Answers(a, evs, ttl) == Answers(b, WithoutCleanups(evs), ttl)
    decreases |evs|
  {
    if evs != [] {
      var e := evs[0];
      var a' := Step(a, e, ttl).0;
      if e.Cleanup? {
        SimilarAfterCleanup(a, b, e, ttl, now);
        SimilarRuns(a', b, evs[1..], ttl, e.now);
        LaterStart(b, WithoutCleanups(evs[1..]), now, e.now, ttl);
        assert WithoutCleanups(evs) == WithoutCleanups(evs[1..]);
      } else {
        SimilarStep(a, b, e, ttl, now);
        SimilarRuns(a', Step(b, e, ttl).0, evs[1..], ttl, e.now);
        assert WithoutCleanups(evs) == [e] + WithoutCleanups(evs[1..]);
        assert WithoutCleanups(evs)[1..] == WithoutCleanups(evs[1..]);
      }
    }
  }

  lemma LaterStart(s: System, evs: seq<Event>, now: real, later: real, ttl: real)
    requires now <= later && IsRun(s, evs, later, ttl)
    ensures IsRun(s, evs, now, ttl)
  {
  }

  /**
   Eviction is invisible: inserting `cleanup_stale` calls anywhere in any concurrent run
   changes no answer given to any caller.
   */
  lemma EvictionInvisible(globalPerMinute: nat, start: real, evs: seq<Event>)
    requires IsRun(Initial(globalPerMinute, start), evs, start, EVICTION_SECONDS)
    ensures var s := Initial(globalPerMinute, start);
            && IsRun(s, WithoutCleanups(evs), start, EVICTION_SECONDS)
            && Answers(s, evs, EVICTION_SECONDS) == Answers(s, WithoutCleanups(evs), EVICTION_SECONDS)
  {
    var s := Initial(globalPerMinute, start);
    SimilarRuns(s, s, evs, EVICTION_SECONDS, start);
  }

  // ---- When the eviction of one bucket could be observed ----

  ghost predicate Ordered(times: seq<real>, now: real)
    decreases |times|
  {
    times == [] || (now <= times[0] && Ordered(times[1..], times[0]))
  }

  ghost function BucketAnswers(b: Bucket, times: seq<real>): seq<bool>
    decreases |times|
  {
    if times == [] then []
    else [b.TryAcquire(times[0]).1] + BucketAnswers(b.TryAcquire(times[0]).0, times[1..])
  }

  /** Some sequence of later requests tells the two buckets apart. */
  ghost predicate Distinguishable(a: Bucket, b: Bucket, now: real) {
    exists times :: Ordered(times, now) && BucketAnswers(a, times) != BucketAnswers(b, times)
  }

  /** Two buckets of one capacity at different levels are told apart by a finite request pattern. */
  lemma {:induction false} LevelsDistinguish(a: Bucket, b: Bucket, now: real) returns (times: seq<real>)
    requires a.Valid(now) && b.Valid(now) && a.maxTokens == b.maxTokens >= 1.0
    requires a.lastRefill == b.lastRefill == now
    requires a.tokens < b.tokens
    ensures Ordered(times, now) && BucketAnswers(a, times) != BucketAnswers(b, times)
    decreases a.tokens.Floor
  {
    if a.tokens >= 1.0 {
      // Both grant one request; their distance stays.
      assert a.Level(now) == a.tokens && b.Level(now) == b.tokens;
      var a', b' := a.TryAcquire(now).0, b.TryAcquire(now).0;
      var rest := LevelsDistinguish(a', b', now);
      times := [now] + rest;
      assert times[1..] == rest;
      assert BucketAnswers(a, times)[1..] == BucketAnswers(a', rest);
      assert BucketAnswers(b, times)[1..] == BucketAnswers(b', rest);
    } else {
      // Wait until `b` holds exactly one token; `a` is then still short of it.
      var wait := WaitForOneToken(a, b, now);
      times := [now + wait];
      assert BucketAnswers(a, times)[0] != BucketAnswers(b, times)[0];
    }
  }

  lemma WaitForOneToken(a: Bucket, b: Bucket, now: real) returns (wait: real)
    requires a.Valid(now) && b.Valid(now) && a.maxTokens == b.maxTokens >= 1.0
    requires a.lastRefill == b.lastRefill == now
    requires a.tokens < b.tokens && a.tokens < 1.0
    ensures wait >= 0.0 && a.Level(now + wait) < 1.0 <= b.Level(now + wait)
  {
    if b.tokens >= 1.0 {
      wait := 0.0;
    } else {
      wait := (1.0 - b.tokens) / b.refillRate;
      assert wait * b.refillRate == 1.0 - b.tokens;
    }
  }

  lemma {:induction false} SameLevelSameAnswers(a: Bucket, b: Bucket, now: real, times: seq<real>)
    requires a.Valid(now) && b.Valid(now) && a.maxTokens == b.maxTokens
    requires a.Level(now) == b.Level(now) && Ordered(times, now)
    ensures BucketAnswers(a, times) == BucketAnswers(b, times)
    decreases |times|
  {
    if times != [] {
      LevelFromEarlier(a, now, times[0]);
      LevelFromEarlier(b, now, times[0]);
      TryAcquireKeepsValid(a, times[0]);
      TryAcquireKeepsValid(b, times[0]);
      SameLevelSameAnswers(a.TryAcquire(times[0]).0, b.TryAcquire(times[0]).0, times[0], times[1..]);
    }
  }

  /** The level at a later time is determined by the level now. */
  lemma LevelFromEarlier(b: Bucket, now: real, later: real)
    requires b.Valid(now) && now <= later
    ensures b.Valid(later)
    ensures b.Level(later) == b.(tokens := b.Level(now), lastRefill := now).Level(later)
  {
    MulNonNegative(later - now, b.refillRate);
    assert (later - b.lastRefill) * b.refillRate
        == (now - b.lastRefill) * b.refillRate + (later - now) * b.refillRate;
  }

  /**
   Dropping a bucket of the limiter is observable exactly when the bucket is not full
   at that moment, so a threshold is safe just when it guarantees fullness.
   */
  lemma EvictionObservableIff(b: Bucket, now: real)
    requires b.Valid(now) && b.maxTokens >= 1.0
    ensures Distinguishable(b, NewBucket(b.maxTokens, now), now) <==> b.Level(now) < b.maxTokens
  {
    var full := NewBucket(b.maxTokens, now);
    var settled := b.(tokens := b.Level(now), lastRefill := now);
    MulNonNegative(now - b.lastRefill, b.refillRate);
    if b.Level(now) < b.maxTokens {
      var times := LevelsDistinguish(settled, full, now);
      SameLevelSameAnswers(b, settled, now, times);
    } else {
      forall times | Ordered(times, now)
        ensures BucketAnswers(b, times) == BucketAnswers(full, times)
      {
        SameLevelSameAnswers(b, full, now, times);
      }
    }
  }

  // ---- A bucket refuses exactly what some interval could not bear ----

  /** The bucket after the first `k` requests of `times`. */
  ghost function Nth(b: Bucket, times: seq<real>, k: nat): Bucket
    requires k <= |times|
  {
    if k == 0 then b else Nth(b, times, k - 1).TryAcquire(times[k - 1]).0
  }

  ghost predicate Granted(b: Bucket, times: seq<real>, k: nat)
    requires k < |times|
  {
    Nth(b, times, k).TryAcquire(times[k]).1
  }

  /** How many of the requests `i..k` were granted. */
  ghost function GrantedIn(b: Bucket, times: seq<real>, i: nat, k: nat): nat
    requires i <= k <= |times|
  {
    if i == k then 0 else GrantedIn(b, times, i, k - 1) + (if Granted(b, times, k - 1) then 1 else 0)
  }

  ghost predicate Increasing(times: seq<real>) {
    forall i, j :: 0 <= i <= j < |times| ==> times[i] <= times[j]
  }

  /** What the interval from request `i` to request `k` still allows for. */
  ghost function Headroom(b: Bucket, times: seq<real>, i: nat, k: nat): real
    requires i <= k < |times|
  {
    b.maxTokens + Gain(b.maxTokens, times[i], times[k]) - GrantedIn(b, times, i, k) as real
  }

  lemma {:induction false} NthValid(b: Bucket, times: seq<real>, k: nat)
    requires Increasing(times) && k < |times| && b.Valid(times[0])
    ensures Nth(b, times, k).Valid(times[k]) && Nth(b, times, k).maxTokens == b.maxTokens
  {
    if k > 0 {
      NthValid(b, times, k - 1);
      TryAcquireKeepsValid(Nth(b, times, k - 1), times[k - 1]);
      LevelGrowth(Nth(b, times, k), times[k - 1], times[k]);
    } else {
      assert Nth(b, times, k) == b;
    }
  }

  lemma LevelAfterTry(b: Bucket, t0: real, t1: real)
    requires b.Valid(t0) && t0 <= t1
    ensures var (b', ok) := b.TryAcquire(t0);
            var uncapped := b.Level(t0) - (if ok then 1.0 else 0.0) + Gain(b.maxTokens, t0, t1);
            b'.Level(t1) == if uncapped <= b.maxTokens then uncapped else b.maxTokens
  {
    assert (t1 - t0) * b.refillRate == Gain(b.maxTokens, t0, t1);
  }

  /** The level moves by the grant and the refill, cut off at the capacity. */
  lemma LevelRecurrence(b: Bucket, times: seq<real>, k: nat)
    requires Increasing(times) && 0 < k < |times| && b.Valid(times[0])
    ensures var before := Nth(b, times, k - 1).Level(times[k - 1])
                          - (if Granted(b, times, k - 1) then 1.0 else 0.0)
                          + Gain(b.maxTokens, times[k - 1], times[k]);
            Nth(b, times, k).Level(times[k]) == if before <= b.maxTokens then before else b.maxTokens
  {
    NthValid(b, times, k - 1);
    LevelAfterTry(Nth(b, times, k - 1), times[k - 1], times[k]);
  }

  lemma HeadroomStep(b: Bucket, times: seq<real>, i: nat, k: nat)
    requires i < k < |times|
    ensures Headroom(b, times, i, k)
         == Headroom(b, times, i, k - 1) - (if Granted(b, times, k - 1) then 1.0 else 0.0)
            + Gain(b.maxTokens, times[k - 1], times[k])
  {
    GainIsAdditive(b.maxTokens, times[i], times[k - 1], times[k]);
  }

  lemma HeadroomHere(b: Bucket, times: seq<real>, k: nat)
    requires k < |times|
    ensures Headroom(b, times, k, k) == b.maxTokens
  {
  }

  /** The level never exceeds the headroom of any interval ending here. */
  lemma {:induction false} LevelBelowHeadroom(b: Bucket, times: seq<real>, i: nat, k: nat)
    requires Increasing(times) && i <= k < |times| && b.Valid(times[0])
    ensures Nth(b, times, k).Level(times[k]) <= Headroom(b, times, i, k)
    decreases k
  {
    if i == k {
      NthValid(b, times, k);
      HeadroomHere(b, times, k);
    } else {
      LevelBelowHeadroom(b, times, i, k - 1);
      LevelRecurrence(b, times, k);
      HeadroomStep(b, times, i, k);
    }
  }

  /** ... and equals the headroom of one of them, when the bucket started out full. */
  lemma {:induction false} LevelIsSomeHeadroom(b: Bucket, times: seq<real>, k: nat) returns (i: nat)
    requires Increasing(times) && k < |times| && b.Valid(times[0])
    requires b.Level(times[0]) == b.maxTokens
    ensures i <= k && Nth(b, times, k).Level(times[k]) == Headroom(b, times, i, k)
  {
    if k == 0 {
      i := 0;
      HeadroomHere(b, times, 0);
    } else {
      i := LevelIsSomeHeadroom(b, times, k - 1);
      LevelRecurrence(b, times, k);
      HeadroomStep(b, times, i, k);
      HeadroomHere(b, times, k);
      if Nth(b, times, k).Level(times[k]) == b.maxTokens {
        i := k;
      }
    }
  }

  /**
   A bucket that starts full is the most permissive limiter the rate bound allows: it
   refuses a request if and only if granting it would break the bound on some interval
   ending with that request.
   */
  lemma RefusedIffSomeIntervalIsFull(b: Bucket, times: seq<real>, k: nat)
    requires Increasing(times) && k < |times| && b.Valid(times[0])
    requires b.Level(times[0]) == b.maxTokens
    ensures !Granted(b, times, k)
       <==> exists i: nat :: i <= k &&
              GrantedIn(b, times, i, k) as real + 1.0 > b.maxTokens + Gain(b.maxTokens, times[i], times[k])
  {
    var level := Nth(b, times, k).Level(times[k]);
    if Granted(b, times, k) {
      forall i: nat | i <= k
        ensures GrantedIn(b, times, i, k) as real + 1.0 <= b.maxTokens + Gain(b.maxTokens, times[i], times[k])
      {
        LevelBelowHeadroom(b, times, i, k);
        assert level <= Headroom(b, times, i, k);
      }
    } else {
      var i := LevelIsSomeHeadroom(b, times, k);
      assert level == Headroom(b, times, i, k);
      assert GrantedIn(b, times, i, k) as real + 1.0 > b.maxTokens + Gain(b.maxTokens, times[i], times[k]);
    }
  }

  function Trues(answers: seq<bool>): nat {
    if answers == [] then 0
    else Trues(answers[..|answers| - 1]) + (if answers[|answers| - 1] then 1 else 0)
  }

  lemma {:induction false} NthFromFront(b: Bucket, times: seq<real>, k: nat)
    requires 0 < k <= |times|
    ensures Nth(b, times, k) == Nth(b.TryAcquire(times[0]).0, times[1..], k - 1)
  {
    if k > 1 {
      NthFromFront(b, times, k - 1);
    }
  }

  lemma {:induction false} AnswersAreGrants(b: Bucket, times: seq<real>)
    ensures |BucketAnswers(b, times)| == |times|
    ensures forall k: nat :: k < |times| ==> BucketAnswers(b, times)[k] == Granted(b, times, k)
    decreases |times|
  {
    if times != [] {
      var b' := b.TryAcquire(times[0]).0;
      AnswersAreGrants(b', times[1..]);
      forall k: nat | 0 < k < |times|
        ensures BucketAnswers(b, times)[k] == Granted(b, times, k)
      {
        NthFromFront(b, times, k);
        assert BucketAnswers(b, times)[k] == BucketAnswers(b', times[1..])[k - 1];
        assert Granted(b', times[1..], k - 1) == Granted(b, times, k);
      }
    }
  }

  lemma {:induction false} GrantsAreTrues(b: Bucket, times: seq<real>, answers: seq<bool>, i: nat, k: nat)
    requires i <= k <= |times| == |answers|
    requires forall j: nat :: j < |times| ==> answers[j] == Granted(b, times, j)
    ensures GrantedIn(b, times, i, k) == Trues(answers[i..k])
    decreases k
  {
    if i < k {
      GrantsAreTrues(b, times, answers, i, k - 1);
      var part := answers[i..k];
      assert part[..|part| - 1] == answers[i..k - 1];
      assert part[|part| - 1] == answers[k - 1] == Granted(b, times, k - 1);
    }
  }

  lemma {:induction false} OrderedIsIncreasing(times: seq<real>, now: real)
    requires Ordered(times, now)
    ensures Increasing(times)
    ensures times != [] ==> now <= times[0]
    decreases |times|
  {
    if times != [] {
      OrderedIsIncreasing(times[1..], times[0]);
      forall i, j | 0 <= i <= j < |times| ensures times[i] <= times[j] {
        if i > 0 {
          assert times[i] == times[1..][i - 1] && times[j] == times[1..][j - 1];
        } else if j > 0 {
          assert times[1] == times[1..][0] && times[j] == times[1..][j - 1];
        }
      }
    }
  }

  /** Granting request `k` would put more than the allowance into the interval from request `i` on. */
  ghost predicate WouldExceed(max: real, times: seq<real>, answers: seq<bool>, i: nat, k: nat)
    requires i <= k < |times| == |answers|
  {
    Trues(answers[i..k]) as real + 1.0 > max + Gain(max, times[i], times[k])
  }

  ghost predicate WouldExceedSomewhere(max: real, times: seq<real>, answers: seq<bool>, k: nat)
    requires k < |times| == |answers|
  {
    exists i: nat :: i <= k && WouldExceed(max, times, answers, i, k)
  }

  /** One answer per request, refusing exactly those whose grant would break the rate bound. */
  ghost predicate Tight(max: real, times: seq<real>, answers: seq<bool>) {
    && |answers| == |times|
    && forall k: nat :: k < |times| ==> (!answers[k] <==> WouldExceedSomewhere(max, times, answers, k))
  }

  /** An answer depends on those before it, so there is one way to be tight. */
  lemma {:induction false} TightIsUnique(max: real, times: seq<real>, a: seq<bool>, b: seq<bool>, k: nat)
    requires Tight(max, times, a) && Tight(max, times, b) && k <= |times|
    ensures a[..k] == b[..k]
  {
    if k > 0 {
      TightIsUnique(max, times, a, b, k - 1);
      var n: nat := k - 1;
      forall i: nat | i <= n ensures WouldExceed(max, times, a, i, n) <==> WouldExceed(max, times, b, i, n) {
        assert a[i..n] == a[..n][i..] && b[i..n] == b[..n][i..];
      }
      assert a[n] == b[n];
      assert a[..k] == a[..n] + [a[n]] && b[..k] == b[..n] + [b[n]];
    }
  }

  /**
   The same in terms of what can be observed: a full bucket's answers to a sequence of
   requests are the only ones that refuse exactly the requests the rate bound excludes.
   */
  lemma BucketIsTightest(max: real, start: real, times: seq<real>, answers: seq<bool>)
    requires 0.0 <= max && Ordered(times, start)
    ensures Tight(max, times, answers) <==> answers == BucketAnswers(NewBucket(max, start), times)
  {
    BucketIsTight(max, start, times);
    if Tight(max, times, answers) {
      var mine := BucketAnswers(NewBucket(max, start), times);
      TightIsUnique(max, times, answers, mine, |times|);
      assert answers == answers[..|times|] && mine == mine[..|times|];
    }
  }

  lemma BucketIsTight(max: real, start: real, times: seq<real>)
    requires 0.0 <= max && Ordered(times, start)
    ensures Tight(max, times, BucketAnswers(NewBucket(max, start), times))
  {
    var b := NewBucket(max, start);
    var answers := BucketAnswers(b, times);
    AnswersAreGrants(b, times);
    OrderedIsIncreasing(times, start);
    forall k: nat | k < |times|
      ensures !answers[k] <==> WouldExceedSomewhere(max, times, answers, k)
    {
      MulNonNegative(times[0] - start, b.refillRate);
      RefusedIffSomeIntervalIsFull(b, times, k);
      forall i: nat | i <= k
        ensures WouldExceed(max, times, answers, i, k)
           <==> GrantedIn(b, times, i, k) as real + 1.0 > b.maxTokens + Gain(b.maxTokens, times[i], times[k])
      {
        GrantsAreTrues(b, times, answers, i, k);
      }
    }
  }

  // ---- Every address sees its own bucket and nothing else ----

  /** When the requests of `ip` reach the per-address tier. */
  ghost function FinishTimes(evs: seq<Event>, ip: IpAddr): seq<real>
    decreases |evs|
  {
    if evs == [] then []
    else (if evs[0].Finish? && evs[0].ip == ip then [evs[0].now] else []) + FinishTimes(evs[1..], ip)
  }

  /** What those requests are answered. */
  ghost function FinishAnswers(s: System, evs: seq<Event>, ip: IpAddr, ttl: real): seq<bool>
    decreases |evs|
  {
    if evs == [] then []
    else (if evs[0].Finish? && evs[0].ip == ip then [Step(s, evs[0], ttl).1] else [])
         + FinishAnswers(Step(s, evs[0], ttl).0, evs[1..], ip, ttl)
  }

  /** `b` behaves from `now` on like the bucket `ip` has, or would get, in `s`. */
  ghost predicate Shadows(b: Bucket, s: System, ip: IpAddr, now: real) {
    && b.Valid(now) && b.maxTokens == s.limiter.perIpMax
    && b.Level(now) == IpLevel(s, ip, now)
  }

  lemma ShadowLater(b: Bucket, s: System, ip: IpAddr, now: real, later: real)
    requires s.limiter.Valid(now) && Shadows(b, s, ip, now) && now <= later
    ensures Shadows(b, s, ip, later)
  {
    LevelFromEarlier(b, now, later);
    MulNonNegative(later - now, b.refillRate);
    if ip in s.limiter.perIp {
      LevelFromEarlier(s.limiter.perIp[ip], now, later);
    }
  }

  lemma ShadowStep(b: Bucket, s: System, e: Event, ip: IpAddr, ttl: real)
    requires s.limiter.Valid(e.now) && Shadows(b, s, ip, e.now) && ttl >= 60.0
    ensures var s' := Step(s, e, ttl).0;
            if e.Finish? && e.ip == ip
            then Step(s, e, ttl).1 == b.TryAcquire(e.now).1 && Shadows(b.TryAcquire(e.now).0, s', ip, e.now)
            else Shadows(b, s', ip, e.now)
  {
    IpLevelStep(s, e, ip, ttl, e.now);
    StepKeepsValid(s, e, ttl, e.now);
    TryAcquireKeepsValid(b, e.now);
    if e.Finish? && ip !in s.limiter.perIp {
      assert NewBucket(s.limiter.perIpMax, e.now).Level(e.now) == s.limiter.perIpMax;
    }
  }

  lemma {:induction false} ShadowRun(b: Bucket, s: System, evs: seq<Event>, ip: IpAddr, now: real, ttl: real)
    requires s.limiter.Valid(now) && IsRun(s, evs, now, ttl) && ttl >= 60.0
    requires Shadows(b, s, ip, now)
    ensures Ordered(FinishTimes(evs, ip), now)
    ensures FinishAnswers(s, evs, ip, ttl) == BucketAnswers(b, FinishTimes(evs, ip))
    decreases |evs|
  {
    if evs != [] {
      var e, rest := evs[0], FinishTimes(evs[1..], ip);
      ShadowLater(b, s, ip, now, e.now);
      ValidLater(s, now, e.now);
      ShadowStep(b, s, e, ip, ttl);
      StepKeepsValid(s, e, ttl, now);
      if e.Finish? && e.ip == ip {
        ShadowRun(b.TryAcquire(e.now).0, Step(s, e, ttl).0, evs[1..], ip, e.now, ttl);
        assert FinishTimes(evs, ip) == [e.now] + rest && ([e.now] + rest)[1..] == rest;
      } else {
        ShadowRun(b, Step(s, e, ttl).0, evs[1..], ip, e.now, ttl);
        assert FinishTimes(evs, ip) == rest;
      }
    }
  }

  /**
   Non-interference and completeness of the per-address tier: in any concurrent run with
   evictions anywhere, the answers an address gets depend only on when its own requests
   arrive, and a request is refused if and only if granting it would exceed the
   address' allowance on some interval ending with it.
   */
  lemma AddressRefusedIffOverItsRate(globalPerMinute: nat, start: real, evs: seq<Event>, ip: IpAddr)
    requires IsRun(Initial(globalPerMinute, start), evs, start, EVICTION_SECONDS)
    ensures var max := if globalPerMinute >= 50 then globalPerMinute as real / 10.0 else 5.0;
            var times := FinishTimes(evs, ip);
            var answers := FinishAnswers(Initial(globalPerMinute, start), evs, ip, EVICTION_SECONDS);
            && answers == BucketAnswers(NewBucket(max, start), times)
            && Tight(max, times, answers)
  {
    var s := Initial(globalPerMinute, start);
    var max := s.limiter.perIpMax;
    ShadowRun(NewBucket(max, start), s, evs, ip, start, EVICTION_SECONDS);
    BucketIsTight(max, start, FinishTimes(evs, ip));
  }

  /** When the global bucket is asked, and what it answers. */
  ghost function DebitTimes(evs: seq<Event>): seq<real>
    decreases |evs|
  {
    if evs == [] then []
    else (if IsGlobalDebit(evs[0]) then [evs[0].now] else []) + DebitTimes(evs[1..])
  }

  ghost function DebitAnswers(s: System, evs: seq<Event>, ttl: real): seq<bool>
    decreases |evs|
  {
    if evs == [] then []
    else (if IsGlobalDebit(evs[0]) then [Step(s, evs[0], ttl).1] else [])
         + DebitAnswers(Step(s, evs[0], ttl).0, evs[1..], ttl)
  }

  lemma {:induction false} GlobalTierIsOneBucket(s: System, evs: seq<Event>, now: real, ttl: real)
    requires IsRun(s, evs, now, ttl)
    ensures Ordered(DebitTimes(evs), now)
    ensures DebitAnswers(s, evs, ttl) == BucketAnswers(s.limiter.global, DebitTimes(evs))
    decreases |evs|
  {
    if evs != [] {
      var e, rest := evs[0], DebitTimes(evs[1..]);
      GlobalTierIsOneBucket(Step(s, e, ttl).0, evs[1..], e.now, ttl);
      if IsGlobalDebit(e) {
        assert DebitTimes(evs) == [e.now] + rest && ([e.now] + rest)[1..] == rest;
      } else {
        assert DebitTimes(evs) == rest;
      }
    }
  }

  /** The global tier, likewise, refuses exactly the requests that would exceed its rate. */
  lemma GlobalRefusedIffOverItsRate(globalPerMinute: nat, start: real, evs: seq<Event>)
    requires IsRun(Initial(globalPerMinute, start), evs, start, EVICTION_SECONDS)
    ensures var times := DebitTimes(evs);
            var answers := DebitAnswers(Initial(globalPerMinute, start), evs, EVICTION_SECONDS);
            && Tight(globalPerMinute as real, times, answers)
  {
    GlobalTierIsOneBucket(Initial(globalPerMinute, start), evs, start, EVICTION_SECONDS);
    BucketIsTight(globalPerMinute as real, start, DebitTimes(evs));
  }

  // ---- Rate bounds over every interval of every run ----

  /** What `ip` could spend at once at `now`; an absent bucket counts as a full one. */
  ghost function IpLevel(s: System, ip: IpAddr, now: real): real {
    if ip in s.limiter.perIp then s.limiter.perIp[ip].Level(now) else s.limiter.perIpMax
  }

  ghost predicate Admits(s: System, e: Event, ip: IpAddr, ttl: real) {
    e.Finish? && e.ip == ip && Step(s, e, ttl).1
  }

  /** How often requests of `ip` are let through in `evs`. */
  ghost function AdmittedFor(s: System, evs: seq<Event>, ip: IpAddr, ttl: real): nat
    decreases |evs|
  {
    if evs == [] then 0
    else (if Admits(s, evs[0], ip, ttl) then 1 else 0) + AdmittedFor(Step(s, evs[0], ttl).0, evs[1..], ip, ttl)
  }

  /** How many events of `evs` of the given kind were answered with `answer`. */
  ghost function Count(s: System, evs: seq<Event>, kind: Event -> bool, answer: bool, ttl: real): nat
    decreases |evs|
  {
    if evs == [] then 0
    else (if kind(evs[0]) && Step(s, evs[0], ttl).1 == answer then 1 else 0)
         + Count(Step(s, evs[0], ttl).0, evs[1..], kind, answer, ttl)
  }

  ghost function EndTime(evs: seq<Event>, start: real): real {
    if evs == [] then start else evs[|evs| - 1].now
  }

  lemma {:induction false} EndIsLater(s: System, evs: seq<Event>, now: real, ttl: real)
    requires IsRun(s, evs, now, ttl)
    ensures now <= EndTime(evs, now)
    decreases |evs|
  {
    if evs != [] {
      EndIsLater(Step(s, evs[0], ttl).0, evs[1..], evs[0].now, ttl);
    }
  }

  /** One step spends from `ip`'s level exactly what it admits for `ip`. */
  lemma IpLevelStep(s: System, e: Event, ip: IpAddr, ttl: real, now: real)
    requires s.limiter.Valid(now) && now <= e.now && ttl >= 60.0
    ensures IpLevel(Step(s, e, ttl).0, ip, e.now)
         == IpLevel(s, ip, e.now) - (if Admits(s, e, ip, ttl) then 1.0 else 0.0)
  {
    if e.Finish? && e.ip == ip {
      var b := if ip in s.limiter.perIp then s.limiter.perIp[ip] else NewBucket(s.limiter.perIpMax, e.now);
      TryAcquireKeepsValid(b, e.now);
    } else if e.Cleanup? && ip in s.limiter.perIp && e.now - s.limiter.perIp[ip].lastRefill >= ttl {
      FullAfterAMinute(s.limiter.perIp[ip], e.now);
    }
  }

  lemma IpLevelInRange(s: System, ip: IpAddr, now: real)
    requires s.limiter.Valid(now)
    ensures 0.0 <= IpLevel(s, ip, now) <= s.limiter.perIpMax
  {
    if ip in s.limiter.perIp {
      LevelInRange(s.limiter.perIp[ip], now);
    }
  }

  lemma IpLevelGrowth(s: System, ip: IpAddr, t0: real, t1: real)
    requires s.limiter.Valid(t0) && t0 <= t1
    ensures IpLevel(s, ip, t1) <= IpLevel(s, ip, t0) + Gain(s.limiter.perIpMax, t0, t1)
  {
    MulNonNegative(t1 - t0, s.limiter.perIpMax / 60.0);
    if ip in s.limiter.perIp {
      LevelGrowth(s.limiter.perIp[ip], t0, t1);
    }
  }

  /** The run spends at most what `ip` starts with plus what the elapsed time refills. */
  lemma {:induction false} AdmittedWithinBudget(s: System, evs: seq<Event>, ip: IpAddr, ttl: real, now: real)
    requires s.limiter.Valid(now) && IsRun(s, evs, now, ttl) && ttl >= 60.0
    ensures AdmittedFor(s, evs, ip, ttl) as real
         <= IpLevel(s, ip, now) + Gain(s.limiter.perIpMax, now, EndTime(evs, now))
    decreases |evs|
  {
    IpLevelInRange(s, ip, now);
    if evs != [] {
      var e, s' := evs[0], Step(s, evs[0], ttl).0;
      StepKeepsValid(s, e, ttl, now);
      IpLevelStep(s, e, ip, ttl, now);
      IpLevelGrowth(s, ip, now, e.now);
      AdmittedWithinBudget(s', evs[1..], ip, ttl, e.now);
      assert EndTime(evs, now) == EndTime(evs[1..], e.now);
      GainIsAdditive(s.limiter.perIpMax, now, e.now, EndTime(evs, now));
    }
  }

  predicate IsGlobalDebit(e: Event) { e.Plain? || e.Begin? }

  lemma GlobalLevelStep(s: System, e: Event, ttl: real, now: real)
    requires s.limiter.Valid(now) && now <= e.now
    ensures Step(s, e, ttl).0.limiter.global.Level(e.now)
         == s.limiter.global.Level(e.now) - (if IsGlobalDebit(e) && Step(s, e, ttl).1 then 1.0 else 0.0)
  {
    TryAcquireKeepsValid(s.limiter.global, e.now);
  }

  lemma {:induction false} GlobalWithinBudget(s: System, evs: seq<Event>, ttl: real, now: real)
    requires s.limiter.Valid(now) && IsRun(s, evs, now, ttl)
    ensures Count(s, evs, IsGlobalDebit, true, ttl) as real
         <= s.limiter.global.Level(now) + Gain(s.limiter.global.maxTokens, now, EndTime(evs, now))
    decreases |evs|
  {
    LevelInRange(s.limiter.global, now);
    if evs != [] {
      var e, s' := evs[0], Step(s, evs[0], ttl).0;
      StepKeepsValid(s, e, ttl, now);
      GlobalLevelStep(s, e, ttl, now);
      LevelGrowth(s.limiter.global, now, e.now);
      GlobalWithinBudget(s', evs[1..], ttl, e.now);
      assert EndTime(evs, now) == EndTime(evs[1..], e.now);
      GainIsAdditive(s.limiter.global.maxTokens, now, e.now, EndTime(evs, now));
    }
  }

  lemma {:induction false} RunSplits(s: System, pre: seq<Event>, mid: seq<Event>, now: real, ttl: real)
    requires s.limiter.Valid(now) && IsRun(s, pre + mid, now, ttl)
    ensures After(s, pre, ttl).limiter.Valid(EndTime(pre, now))
    ensures IsRun(After(s, pre, ttl), mid, EndTime(pre, now), ttl)
    ensures After(s, pre, ttl).limiter.perIpMax == s.limiter.perIpMax
    ensures After(s, pre, ttl).limiter.global.maxTokens == s.limiter.global.maxTokens
    decreases |pre|
  {
    if pre == [] {
      assert pre + mid == mid;
    } else {
      assert (pre + mid)[1..] == pre[1..] + mid;
      StepKeepsValid(s, pre[0], ttl, now);
      RunSplits(Step(s, pre[0], ttl).0, pre[1..], mid, pre[0].now, ttl);
    }
  }

  /** A burst of `perMinute` plus the refill of the interval. */
  ghost function Allowance(perMinute: real, t0: real, t1: real): real {
    perMinute * (1.0 + (t1 - t0) / 60.0)
  }

  /**
   The rate bound: in any interval of any run, one address is admitted at most its
   per-minute allowance plus what that interval refills, and the global tier grants at
   most its own. The interval runs from the first to the last event of `mid`. What comes
   through both tiers is bounded by the global grants and the requests that were already
   between their two steps when the interval began.
   */
  lemma RateBound(globalPerMinute: nat, start: real, pre: seq<Event>, mid: seq<Event>, ip: IpAddr)
    requires mid != []
    requires IsRun(Initial(globalPerMinute, start), pre + mid, start, EVICTION_SECONDS)
    ensures mid[0].now <= mid[|mid| - 1].now
    ensures var s := After(Initial(globalPerMinute, start), pre, EVICTION_SECONDS);
            var perIp := if globalPerMinute >= 50 then globalPerMinute as real / 10.0 else 5.0;
            var t0, t1 := mid[0].now, mid[|mid| - 1].now;
            && AdmittedFor(s, mid, ip, EVICTION_SECONDS) as real <= Allowance(perIp, t0, t1)
            && Count(s, mid, IsGlobalDebit, true, EVICTION_SECONDS) as real
               <= Allowance(globalPerMinute as real, t0, t1)
            && (Count(s, mid, IsPlain, true, EVICTION_SECONDS) + Count(s, mid, IsFinish, true, EVICTION_SECONDS)) as real
               <= Allowance(globalPerMinute as real, t0, t1) + |s.inFlight| as real
  {
    var ttl := EVICTION_SECONDS;
    var s0 := Initial(globalPerMinute, start);
    RunSplits(s0, pre, mid, start, ttl);
    var s := After(s0, pre, ttl);
    ValidLater(s, EndTime(pre, start), mid[0].now);
    assert IsRun(s, mid, mid[0].now, ttl);
    EndIsLater(s, mid, mid[0].now, ttl);
    IpBound(s, mid, ip, ttl);
    GlobalBound(s, mid, ttl);
    GlobalTokensConserved(s, mid, mid[0].now, ttl);
  }

  lemma IpBound(s: System, mid: seq<Event>, ip: IpAddr, ttl: real)
    requires mid != [] && ttl >= 60.0 && s.limiter.Valid(mid[0].now) && IsRun(s, mid, mid[0].now, ttl)
    ensures AdmittedFor(s, mid, ip, ttl) as real
         <= Allowance(s.limiter.perIpMax, mid[0].now, mid[|mid| - 1].now)
  {
    IpLevelInRange(s, ip, mid[0].now);
    AdmittedWithinBudget(s, mid, ip, ttl, mid[0].now);
    Scale(s.limiter.perIpMax, mid[0].now, mid[|mid| - 1].now);
  }

  lemma GlobalBound(s: System, mid: seq<Event>, ttl: real)
    requires mid != [] && s.limiter.Valid(mid[0].now) && IsRun(s, mid, mid[0].now, ttl)
    ensures Count(s, mid, IsGlobalDebit, true, ttl) as real
         <= Allowance(s.limiter.global.maxTokens, mid[0].now, mid[|mid| - 1].now)
  {
    LevelInRange(s.limiter.global, mid[0].now);
    GlobalWithinBudget(s, mid, ttl, mid[0].now);
    Scale(s.limiter.global.maxTokens, mid[0].now, mid[|mid| - 1].now);
  }

  lemma ValidLater(s: System, t0: real, t1: real)
    requires s.limiter.Valid(t0) && t0 <= t1
    ensures s.limiter.Valid(t1)
  {
  }

  lemma Scale(max: real, t0: real, t1: real)
    ensures max + Gain(max, t0, t1) == Allowance(max, t0, t1)
  {
  }

  predicate IsPlain(e: Event) { e.Plain? }
  predicate IsFinish(e: Event) { e.Finish? }

  /**
   Conservation: the tokens taken from the global bucket are accounted for one by one as
   plain grants, admitted requests, requests the per-address tier refused, and the change
   in the number of requests still between their two steps.
   */
  lemma {:induction false} GlobalTokensConserved(s: System, evs: seq<Event>, now: real, ttl: real)
    requires IsRun(s, evs, now, ttl)
    ensures Count(s, evs, IsGlobalDebit, true, ttl)
         == Count(s, evs, IsPlain, true, ttl) + Count(s, evs, IsFinish, true, ttl)
            + Count(s, evs, IsFinish, false, ttl) + |After(s, evs, ttl).inFlight| - |s.inFlight|
    decreases |evs|
  {
    if evs != [] {
      GlobalTokensConserved(Step(s, evs[0], ttl).0, evs[1..], evs[0].now, ttl);
    }
  }
}
