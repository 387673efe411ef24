/**
 The journal's enrollment rate limiter: one global token bucket, one bucket per
 source address created on first use, and a periodic eviction of idle buckets.

 Clock readings (`Instant::now()`) are explicit arguments in seconds, and the
 `f64` token counts are mathematical reals.
 */
module RateLimiter {

  datatype IpAddr = V4(bits: nat) | V6(bits: nat)

  /** Idle time, in seconds, after which `cleanup_stale` drops a per-address bucket. */
  const EVICTION_SECONDS: real := 300.0

  datatype Bucket = Bucket(tokens: real, maxTokens: real, refillRate: real, lastRefill: real) {

    /** What every bucket of capacity `maxTokens` satisfies when observed at `now`. */
    ghost predicate Valid(now: real) {
      && 0.0 <= tokens <= maxTokens
      && refillRate == maxTokens / 60.0
      && lastRefill <= now
    }

    /** The token count the next `TryAcquire` at `now` starts from. */
    function Level(now: real): real {
      var refilled := (now - lastRefill) * refillRate + tokens;
      if refilled <= maxTokens then refilled else maxTokens
    }

    function TryAcquire(now: real): (Bucket, bool) {
      var level := Level(now);
      if level >= 1.0 then
        (this.(tokens := level - 1.0, lastRefill := now), true)
      else
        (this.(tokens := level, lastRefill := now), false)
    }
  }

  function NewBucket(maxPerMinute: real, now: real): Bucket {
    Bucket(maxPerMinute, maxPerMinute, maxPerMinute / 60.0, now)
  }

  /** The limiter's state as a value. */
  datatype Limiter = Limiter(global: Bucket, perIp: map<IpAddr, Bucket>, perIpMax: real) {

    ghost predicate Valid(now: real) {
      && global.Valid(now)
      && 5.0 <= perIpMax
      && forall ip :: ip in perIp ==> perIp[ip].Valid(now) && perIp[ip].maxTokens == perIpMax
    }

    /** The first half of a request: the debit of the global bucket. */
    function DebitGlobal(now: real): (Limiter, bool) {
      var (bucket, ok) := global.TryAcquire(now);
      (this.(global := bucket), ok)
    }

    /** The second half: the debit of the address' own bucket, created full when absent. */
    function DebitIp(ip: IpAddr, now: real): (Limiter, bool) {
      var bucket := if ip in perIp then perIp[ip] else NewBucket(perIpMax, now);
      var (bucket', ok) := bucket.TryAcquire(now);
      (this.(perIp := perIp[ip := bucket']), ok)
    }

    /** Drops every per-address bucket that has been idle for `ttl` seconds or more. */
    function Evict(now: real, ttl: real): Limiter {
      this.(perIp := map ip | ip in perIp && now - perIp[ip].lastRefill < ttl :: perIp[ip])
    }
  }

  function NewLimiter(globalPerMinute: nat, now: real): Limiter {
    var globalMax := globalPerMinute as real;
    Limiter(NewBucket(globalMax, now), map[],
            if globalMax / 10.0 >= 5.0 then globalMax / 10.0 else 5.0)
  }

  /** The limiter object, updated in place. */
  class TwoTierLimiter {
    var global: Bucket
    var perIp: map<IpAddr, Bucket>
    var perIpMax: real

    ghost function State(): Limiter
      reads this
    {
      Limiter(global, perIp, perIpMax)
    }

    constructor (globalPerMinute: nat, now: real)
      ensures State() == NewLimiter(globalPerMinute, now)
      ensures State().Valid(now)
      ensures global == Bucket(globalPerMinute as real, globalPerMinute as real, globalPerMinute as real / 60.0, now)
      ensures perIp == map[] && perIpMax == if globalPerMinute >= 50 then globalPerMinute as real / 10.0 else 5.0
    {
      var globalMax := globalPerMinute as real;
      global := NewBucket(globalMax, now);
      perIp := map[];
      perIpMax := if globalMax / 10.0 >= 5.0 then globalMax / 10.0 else 5.0;
    }

    method TryAcquire(now: real) returns (ok: bool)
      requires State().Valid(now)
      modifies this`global
      ensures State().Valid(now)
      ensures (State(), ok) == old(State()).DebitGlobal(now)
    {
      var (bucket, allowed) := global.TryAcquire(now);
      TryAcquireKeepsValid(global, now);
      global := bucket;
      ok := allowed;
    }

    /**
     One request of an address. The two locks are taken one after the other, so the
     global and the per-address debit read the clock separately.
     */
    method TryAcquireForIp(ip: IpAddr, nowGlobal: real, nowIp: real) returns (ok: bool)
      requires State().Valid(nowGlobal) && nowGlobal <= nowIp
      modifies this`global, this`perIp
      ensures State().Valid(nowIp)
      ensures
        var (debited, allowed) := old(State()).DebitGlobal(nowGlobal);
        if allowed then (State(), ok) == debited.DebitIp(ip, nowIp)
        else State() == debited && !ok
    {
      var allowed := TryAcquire(nowGlobal);
      if !allowed {
        return false;
      }
      var bucket := if ip in perIp then perIp[ip] else NewBucket(perIpMax, nowIp);
      var (bucket', granted) := bucket.TryAcquire(nowIp);
      TryAcquireKeepsValid(bucket, nowIp);
      perIp := perIp[ip := bucket'];
      ok := granted;
    }

    method CleanupStale(now: real)
      modifies this`perIp
      ensures State() == old(State()).Evict(now, EVICTION_SECONDS)
      ensures forall ip :: ip in perIp <==> ip in old(perIp) && now - old(perIp)[ip].lastRefill < 300.0
      ensures forall ip :: ip in perIp ==> perIp[ip] == old(perIp)[ip]
    {
      perIp := map ip | ip in perIp && now - perIp[ip].lastRefill < EVICTION_SECONDS :: perIp[ip];
    }
  }

  // ---- Facts about one bucket ----

  lemma MulNonNegative(a: real, c: real)
    requires 0.0 <= a && 0.0 <= c
    ensures 0.0 <= a * c
  {
  }

  /** A debit leaves a bucket within its bounds, and lowers its level by exactly the tokens granted. */
  lemma TryAcquireKeepsValid(b: Bucket, now: real)
    requires b.Valid(now)
    ensures var (b', ok) := b.TryAcquire(now);
            && b'.Valid(now) && b'.maxTokens == b.maxTokens
            && b'.Level(now) == b.Level(now) - (if ok then 1.0 else 0.0)
  {
    MulNonNegative(now - b.lastRefill, b.refillRate);
  }

  /** What a bucket of capacity `max` is refilled by from `t0` to `t1` when nothing is capped. */
  ghost function Gain(max: real, t0: real, t1: real): real {
    (t1 - t0) * (max / 60.0)
  }

  lemma GainIsAdditive(max: real, t0: real, t1: real, t2: real)
    ensures Gain(max, t0, t1) + Gain(max, t1, t2) == Gain(max, t0, t2)
  {
  }

  /** Between two instants a bucket gains at most the refill rate times their distance. */
  lemma LevelGrowth(b: Bucket, t0: real, t1: real)
    requires b.Valid(t0) && t0 <= t1
    ensures b.Valid(t1)
    ensures b.Level(t0) <= b.Level(t1) <= b.Level(t0) + Gain(b.maxTokens, t0, t1)
  {
    MulNonNegative(t1 - t0, b.refillRate);
    assert (t1 - b.lastRefill) * b.refillRate
        == (t0 - b.lastRefill) * b.refillRate + (t1 - t0) * b.refillRate;
  }

  lemma LevelInRange(b: Bucket, now: real)
    requires b.Valid(now)
    ensures 0.0 <= b.Level(now) <= b.maxTokens
  {
    MulNonNegative(now - b.lastRefill, b.refillRate);
  }

  lemma AMinutesRefill(elapsed: real, rate: real, max: real)
    requires elapsed >= 60.0 && max >= 0.0 && rate == max / 60.0
    ensures elapsed * rate >= max
  {
    MulNonNegative(elapsed - 60.0, rate);
    assert elapsed * rate == (elapsed - 60.0) * rate + 60.0 * rate;
  }

  /** A bucket left alone for a minute is full, whatever its content was. */
  lemma FullAfterAMinute(b: Bucket, now: real)
    requires b.Valid(now) && now - b.lastRefill >= 60.0
    ensures b.Level(now) == b.maxTokens
  {
    AMinutesRefill(now - b.lastRefill, b.refillRate, b.maxTokens);
  }
}
