/** The token bucket of src/rateLimit.ts: the in-process store, the Redis script
    and how fast either can hand out tokens. Times are milliseconds, tokens are
    real numbers, and rounding is not modelled. */
module TokenBucket {
  import opened Wrappers

  datatype Config = Config(capacity: real, refillRatePerSec: real, maxQueueDepth: nat)

  /** What the configuration loader accepts. */
  predicate Valid(cfg: Config) {
    cfg.capacity > 0.0 && cfg.refillRatePerSec > 0.0 && cfg.maxQueueDepth > 0
  }

  datatype Bucket = Bucket(tokens: real, lastRefillMs: real)

  function MinReal(a: real, b: real): real { if a < b then a else b }
  function MaxReal(a: real, b: real): real { if a < b then b else a }

  /** Tokens that accrue in `ms` milliseconds. */
  function Accrued(cfg: Config, ms: real): real { ms / 1000.0 * cfg.refillRatePerSec }

  lemma {:induction false} AccruedAdds(cfg: Config, t0: real, t1: real, t2: real)
    ensures Accrued(cfg, t1 - t0) + Accrued(cfg, t2 - t1) == Accrued(cfg, t2 - t0)
  {
    assert (t1 - t0) / 1000.0 + (t2 - t1) / 1000.0 == (t2 - t0) / 1000.0;
  }

  lemma {:induction false} AccruedMonotone(cfg: Config, a: real, b: real)
    requires Valid(cfg) && a <= b
    ensures Accrued(cfg, a) <= Accrued(cfg, b)
  {
    assert 0.0 <= (b - a) / 1000.0;
    assert 0.0 <= Accrued(cfg, b - a);
    AccruedAdds(cfg, 0.0, a, b);
  }

  function Refill(cfg: Config, b: Option<Bucket>, now: real): Bucket {
    match b
    case None => Bucket(cfg.capacity, now)
    case Some(b) =>
      if now - b.lastRefillMs > 0.0
      then Bucket(MinReal(cfg.capacity, b.tokens + Accrued(cfg, now - b.lastRefillMs)), now)
      else b
  }

  predicate Grants(cfg: Config, b: Option<Bucket>, now: real) { Refill(cfg, b, now).tokens >= 1.0 }

  function Consume(cfg: Config, b: Option<Bucket>, now: real): Bucket {
    var r := Refill(cfg, b, now);
    if r.tokens >= 1.0 then r.(tokens := r.tokens - 1.0) else r
  }

  class InMemoryBucketStore {
    var tokenBuckets: map<string, Bucket>

    constructor ()
      ensures tokenBuckets == map[]
    {
      tokenBuckets := map[];
    }

    method ConsumeToken(providerId: string, cfg: Config, now: real) returns (ok: bool)
      modifies this
      ensures ok == Grants(cfg, Lookup(old(tokenBuckets), providerId), now)
      ensures tokenBuckets
           == old(tokenBuckets)[providerId := Consume(cfg, Lookup(old(tokenBuckets), providerId), now)]
    {
      var bucket;
      if providerId !in tokenBuckets {
        bucket := Bucket(cfg.capacity, now);
      } else {
        bucket := tokenBuckets[providerId];
        var elapsedMs := now - bucket.lastRefillMs;
        if elapsedMs > 0.0 {
          var refilled := Accrued(cfg, elapsedMs);
          bucket := Bucket(MinReal(cfg.capacity, bucket.tokens + refilled), now);
        }
      }
      if bucket.tokens >= 1.0 {
        bucket := bucket.(tokens := bucket.tokens - 1.0);
        tokenBuckets := tokenBuckets[providerId := bucket];
        return true;
      }
      tokenBuckets := tokenBuckets[providerId := bucket];
      return false;
    }
  }

  /** The tokens a request made now would find. */
  function Level(cfg: Config, b: Option<Bucket>, now: real): real { Refill(cfg, b, now).tokens }

  /** A request finds `Level` tokens, is granted if and only if that is at least
      one, and leaves exactly what it did not take. */
  lemma {:induction false} ConsumeTakes(cfg: Config, b: Option<Bucket>, now: real)
    ensures Grants(cfg, b, now) <==> Level(cfg, b, now) >= 1.0
    ensures Level(cfg, Some(Consume(cfg, b, now)), now)
         == Level(cfg, b, now) - if Grants(cfg, b, now) then 1.0 else 0.0
  {
    hide Accrued;
  }

  /** Without requests the level rises at the refill rate up to the capacity. */
  lemma {:induction false} LevelRises(cfg: Config, b: Option<Bucket>, t: real, now: real)
    requires Valid(cfg) && t <= now
    requires b.Some? ==> InRange(cfg, b.value) && b.value.lastRefillMs <= t
    ensures Level(cfg, b, now)
         == MinReal(cfg.capacity, Level(cfg, b, t) + (now - t) / 1000.0 * cfg.refillRatePerSec)
  {
    AccruedMonotone(cfg, 0.0, now - t);
    assert Accrued(cfg, 0.0) == 0.0;
    assert Accrued(cfg, now - t) == (now - t) / 1000.0 * cfg.refillRatePerSec;
    if b.Some? {
      AccruedAdds(cfg, b.value.lastRefillMs, t, now);
      LevelSplits(cfg, b.value, t, now);
    }
  }

  lemma {:induction false} LevelSplits(cfg: Config, b: Bucket, t: real, now: real)
    requires Valid(cfg) && InRange(cfg, b) && b.lastRefillMs <= t <= now
    requires Accrued(cfg, 0.0) == 0.0 && 0.0 <= Accrued(cfg, now - t)
    requires Accrued(cfg, t - b.lastRefillMs) + Accrued(cfg, now - t) == Accrued(cfg, now - b.lastRefillMs)
    ensures Level(cfg, Some(b), now) == MinReal(cfg.capacity, Level(cfg, Some(b), t) + Accrued(cfg, now - t))
  {
    hide Accrued;
  }

  // ---------------------------------------------------------------------
  // Throughput, for any clock readings at all
  // ---------------------------------------------------------------------

  /** The bucket after the first `k` requests, made at times `ts`. */
  function At(cfg: Config, ts: seq<real>, k: nat): Option<Bucket>
    requires k <= |ts|
  {
    if k == 0 then None else Some(Consume(cfg, At(cfg, ts, k - 1), ts[k - 1]))
  }

  function Granted(cfg: Config, ts: seq<real>, i: nat, j: nat): nat
    requires i <= j <= |ts|
    decreases j
  {
    if i == j then 0 else Granted(cfg, ts, i, j - 1) + if Grants(cfg, At(cfg, ts, j - 1), ts[j - 1]) then 1 else 0
  }

  /** The highest clock reading among the first `k` requests (at least one). */
  function HighWater(ts: seq<real>, k: nat): real
    requires k <= |ts| && ts != []
  {
    if k <= 1 then ts[0] else MaxReal(HighWater(ts, k - 1), ts[k - 1])
  }

  ghost predicate InRange(cfg: Config, b: Bucket) { 0.0 <= b.tokens <= cfg.capacity }

  /** One request never leaves more tokens, counting the one granted, than
      there were plus what accrued. */
  lemma {:induction false} ConsumeConserves(cfg: Config, b: Bucket, now: real)
    requires Valid(cfg) && InRange(cfg, b)
    ensures var c := Consume(cfg, Some(b), now);
            && InRange(cfg, c) && c.lastRefillMs == MaxReal(b.lastRefillMs, now)
            && c.tokens + (if Grants(cfg, Some(b), now) then 1.0 else 0.0)
               <= b.tokens + Accrued(cfg, c.lastRefillMs - b.lastRefillMs)
  {
    AccruedMonotone(cfg, 0.0, MaxReal(0.0, now - b.lastRefillMs));
  }

  lemma {:induction false} BucketInvariant(cfg: Config, ts: seq<real>, k: nat)
    requires Valid(cfg) && 0 < k <= |ts|
    ensures At(cfg, ts, k).Some? && InRange(cfg, At(cfg, ts, k).value)
    ensures At(cfg, ts, k).value.lastRefillMs == HighWater(ts, k)
    decreases k
  {
    if k > 1 {
      BucketInvariant(cfg, ts, k - 1);
      ConsumeConserves(cfg, At(cfg, ts, k - 1).value, ts[k - 1]);
    }
  }

  lemma {:induction false} TokensConserved(cfg: Config, ts: seq<real>, i: nat, j: nat)
    requires Valid(cfg) && 0 < i <= j <= |ts|
    ensures At(cfg, ts, i).Some? && At(cfg, ts, j).Some?
    ensures At(cfg, ts, j).value.tokens + Granted(cfg, ts, i, j) as real
         <= At(cfg, ts, i).value.tokens + Accrued(cfg, HighWater(ts, j) - HighWater(ts, i))
    decreases j
  {
    if i < j {
      TokensConserved(cfg, ts, i, j - 1);
      BucketInvariant(cfg, ts, j - 1);
      var b := At(cfg, ts, j - 1).value;
      ConsumeConserves(cfg, b, ts[j - 1]);
      assert At(cfg, ts, j) == Some(Consume(cfg, Some(b), ts[j - 1]));
      AccruedAdds(cfg, HighWater(ts, i), HighWater(ts, j - 1), HighWater(ts, j));
    }
  }

  /** Between any two moments of any run, backward clock jumps included, at most
      `capacity` plus what accrues over the rise of the highest reading is
      granted. */
  lemma {:induction false} Throughput(cfg: Config, ts: seq<real>, i: nat, j: nat)
    requires Valid(cfg) && i <= j <= |ts| && ts != []
    ensures Granted(cfg, ts, i, j) as real <= cfg.capacity + Accrued(cfg, HighWater(ts, j) - HighWater(ts, i))
  {
    if i == j {
      assert Accrued(cfg, 0.0) == 0.0;
    } else if i == 0 {
      TokensConserved(cfg, ts, 1, j);
      GrantedSplit(cfg, ts, j);
    } else {
      TokensConserved(cfg, ts, i, j);
      BucketInvariant(cfg, ts, i);
      BucketInvariant(cfg, ts, j);
    }
  }

  /** The first request takes its token from a full bucket. */
  lemma {:induction false} GrantedSplit(cfg: Config, ts: seq<real>, j: nat)
    requires Valid(cfg) && 0 < j <= |ts|
    ensures Granted(cfg, ts, 0, j) as real + At(cfg, ts, 1).value.tokens
         == Granted(cfg, ts, 1, j) as real + cfg.capacity
    ensures 0.0 <= At(cfg, ts, j).value.tokens
    decreases j
  {
    BucketInvariant(cfg, ts, j);
    if j > 1 {
      GrantedSplit(cfg, ts, j - 1);
    }
  }

  // ---------------------------------------------------------------------
  // The Redis script
  // ---------------------------------------------------------------------

  function Ceil(x: real): int { -((-x).Floor) }

  /** A hash in Redis with the moment, on the server's clock, at which it expires. */
  datatype Key = Key(tokens: real, lastRefill: real, expiresAt: real)

  /** A request carries the caller's reading `now`; the server's clock shows `server`,
      and `deleted` says that Redis had removed the key by itself before: on its
      expiry, even if the server's clock has stepped back since, or by eviction. */
  datatype Request = Request(now: real, server: real, deleted: bool)

  function TtlSeconds(cfg: Config): int
    requires Valid(cfg)
  {
    Max(60, Ceil(cfg.capacity / cfg.refillRatePerSec * 2.0))
  }

  function TtlMs(cfg: Config): real
    requires Valid(cfg)
  {
    1000.0 * TtlSeconds(cfg) as real
  }

  /** CONSUME_LUA_SCRIPT; `key` is what was stored, which HMGET finds unless it is gone. */
  function LuaConsume(cfg: Config, key: Option<Key>, r: Request, requested: real): (Key, bool)
    requires Valid(cfg)
  {
    var live := key.Some? && !r.deleted && r.server < key.value.expiresAt;
    var (tokens, lastRefill) :=
      if !live then (cfg.capacity, r.now)
      else if r.now - key.value.lastRefill > 0.0 then
        (MinReal(cfg.capacity, key.value.tokens + Accrued(cfg, r.now - key.value.lastRefill)), r.now)
      else (key.value.tokens, key.value.lastRefill);
    var consumed := tokens >= requested;
    (Key(if consumed then tokens - requested else tokens, lastRefill, r.server + TtlMs(cfg)), consumed)
  }

  function LuaAt(cfg: Config, rs: seq<Request>, k: nat): Option<Key>
    requires Valid(cfg) && k <= |rs|
  {
    if k == 0 then None else Some(LuaConsume(cfg, LuaAt(cfg, rs, k - 1), rs[k - 1], 1.0).0)
  }

  function Readings(rs: seq<Request>): seq<real> { seq(|rs|, i requires 0 <= i < |rs| => rs[i].now) }

  /** The in-process store's bucket after the first `k` of the same requests. */
  function LocalAt(cfg: Config, rs: seq<Request>, k: nat): Option<Bucket>
    requires k <= |rs|
  {
    At(cfg, Readings(rs), k)
  }

  /** Script and store have agreed over the first `k` requests: the same replies
      and the same bucket after each. */
  ghost predicate Agree(cfg: Config, rs: seq<Request>, k: nat)
    requires Valid(cfg) && k <= |rs|
  {
    k == 0 ||
    (Agree(cfg, rs, k - 1)
     && LuaConsume(cfg, LuaAt(cfg, rs, k - 1), rs[k - 1], 1.0).1 == Grants(cfg, LocalAt(cfg, rs, k - 1), rs[k - 1].now)
     && var key := LuaAt(cfg, rs, k).value;
        LocalAt(cfg, rs, k) == Some(Bucket(key.tokens, key.lastRefill)))
  }

  /** The key written by the previous request is gone: deleted, or the server's
      clock has advanced by a time to live. */
  predicate Gone(cfg: Config, rs: seq<Request>, k: nat)
    requires Valid(cfg) && k < |rs|
  {
    k > 0 && (rs[k].deleted || rs[k].server >= rs[k - 1].server + TtlMs(cfg))
  }

  /** By the caller's clock the bucket is full again. */
  predicate Full(cfg: Config, b: Bucket, now: real) {
    b.lastRefillMs <= now && b.tokens + Accrued(cfg, now - b.lastRefillMs) >= cfg.capacity
  }

  /** Whenever the key was gone, the bucket was full again anyway. */
  ghost predicate LossHarmless(cfg: Config, rs: seq<Request>, k: nat)
    requires Valid(cfg) && k <= |rs|
  {
    k == 0 ||
    (LossHarmless(cfg, rs, k - 1)
     && (Gone(cfg, rs, k - 1) ==>
           var b := LocalAt(cfg, rs, k - 1);
           b.Some? && Full(cfg, b.value, rs[k - 1].now)))
  }

  lemma {:induction false} FullExactly(cfg: Config, b: Bucket, now: real)
    requires Valid(cfg) && InRange(cfg, b)
    ensures Full(cfg, b, now) <==> Refill(cfg, Some(b), now) == Refill(cfg, None, now)
  {
    AccruedMonotone(cfg, 0.0, 0.0);
    assert Accrued(cfg, 0.0) == 0.0;
  }

  /** One request to a live key does what the in-process store does. */
  lemma {:induction false} LiveStep(cfg: Config, key: Key, r: Request)
    requires Valid(cfg) && !r.deleted && r.server < key.expiresAt
    ensures var (key', ok) := LuaConsume(cfg, Some(key), r, 1.0);
            && ok == Grants(cfg, Some(Bucket(key.tokens, key.lastRefill)), r.now)
            && Bucket(key'.tokens, key'.lastRefill) == Consume(cfg, Some(Bucket(key.tokens, key.lastRefill)), r.now)
  {
  }

  /** A request to a lost key does so exactly when the bucket was full. */
  lemma {:induction false} LostStep(cfg: Config, key: Key, r: Request)
    requires Valid(cfg) && (r.deleted || r.server >= key.expiresAt) && InRange(cfg, Bucket(key.tokens, key.lastRefill))
    ensures var (key', ok) := LuaConsume(cfg, Some(key), r, 1.0);
            var b := Bucket(key.tokens, key.lastRefill);
            (&& ok == Grants(cfg, Some(b), r.now)
             && Bucket(key'.tokens, key'.lastRefill) == Consume(cfg, Some(b), r.now))
            <==> Full(cfg, b, r.now)
  {
    hide Full, Accrued;
    var b := Bucket(key.tokens, key.lastRefill);
    FullExactly(cfg, b, r.now);
    ConsumeConserves(cfg, b, r.now);
  }

  lemma {:induction false} LuaExpiry(cfg: Config, rs: seq<Request>, k: nat)
    requires Valid(cfg) && 0 < k <= |rs|
    ensures LuaAt(cfg, rs, k).value.expiresAt == rs[k - 1].server + TtlMs(cfg)
  {
  }

  /** The script with its expiring key refines the in-process store, for any
      readings of both clocks, if and only if losing the key was always harmless. */
  lemma {:induction false} LuaRefinesExactly(cfg: Config, rs: seq<Request>, k: nat)
    requires Valid(cfg) && k <= |rs|
    ensures Agree(cfg, rs, k) <==> LossHarmless(cfg, rs, k)
    decreases k
  {
    hide LuaConsume, Full, TtlMs, Grants, Consume;
    if k == 1 {
      FirstStep(cfg, rs);
    } else if k > 1 {
      LuaRefinesExactly(cfg, rs, k - 1);
      if Agree(cfg, rs, k - 1) {
        NextStep(cfg, rs, k - 1);
      }
    }
  }

  lemma {:induction false} FirstStep(cfg: Config, rs: seq<Request>)
    requires Valid(cfg) && rs != []
    ensures Agree(cfg, rs, 1)
  {
    assert LocalAt(cfg, rs, 0) == None && LuaAt(cfg, rs, 0) == None;
    assert Agree(cfg, rs, 0);
  }

  lemma {:induction false} NextStep(cfg: Config, rs: seq<Request>, k: nat)
    requires Valid(cfg) && 0 < k < |rs| && Agree(cfg, rs, k)
    ensures LocalAt(cfg, rs, k).Some?
    ensures Agree(cfg, rs, k + 1) <==> (Gone(cfg, rs, k) ==> Full(cfg, LocalAt(cfg, rs, k).value, rs[k].now))
  {
    hide LuaConsume, Full, TtlMs, Grants, Consume;
    var key := LuaAt(cfg, rs, k).value;
    LuaExpiry(cfg, rs, k);
    BucketInvariant(cfg, Readings(rs), k);
    if Gone(cfg, rs, k) {
      LostStep(cfg, key, rs[k]);
    } else {
      LiveStep(cfg, key, rs[k]);
    }
  }

  // When losing the key is harmless.

  /** A bucket idle for half the time to live is full again. */
  lemma {:induction false} IdleBucketIsFull(cfg: Config, b: Bucket, now: real)
    requires Valid(cfg) && InRange(cfg, b) && now >= b.lastRefillMs + TtlMs(cfg) / 2.0
    ensures Full(cfg, b, now)
  {
    hide Accrued, TtlMs;
    AccruesCapacity(cfg);
    AccruedMonotone(cfg, TtlMs(cfg) / 2.0, now - b.lastRefillMs);
  }

  lemma {:induction false} AccruesCapacity(cfg: Config)
    requires Valid(cfg)
    ensures TtlMs(cfg) > 0.0 && Accrued(cfg, TtlMs(cfg) / 2.0) >= cfg.capacity
  {
    hide Accrued, TtlSeconds;
    TtlBound(cfg);
    var half := TtlSeconds(cfg) as real / 2.0;
    QuotientScales(cfg.capacity, cfg.refillRatePerSec, half);
    AccruedInSeconds(cfg, half);
    assert TtlMs(cfg) / 2.0 == 1000.0 * half;
  }

  lemma {:induction false} TtlBound(cfg: Config)
    requires Valid(cfg)
    ensures TtlSeconds(cfg) > 0 && TtlSeconds(cfg) as real >= cfg.capacity / cfg.refillRatePerSec * 2.0
  {
  }

  /** The time to live is the least whole number of seconds that is at least a
      minute and twice the time an empty bucket takes to fill. */
  lemma {:induction false} TtlExactly(cfg: Config)
    requires Valid(cfg)
    ensures TtlMs(cfg) == 1000.0 * TtlSeconds(cfg) as real
    ensures TtlSeconds(cfg) >= 60 && TtlSeconds(cfg) as real >= 2.0 * (cfg.capacity / cfg.refillRatePerSec)
    ensures TtlSeconds(cfg) == 60 || (TtlSeconds(cfg) - 1) as real < 2.0 * (cfg.capacity / cfg.refillRatePerSec)
  {
    var q := cfg.capacity / cfg.refillRatePerSec;
    assert q * 2.0 == 2.0 * q;
  }

  lemma {:induction false} AccruedInSeconds(cfg: Config, s: real)
    ensures Accrued(cfg, 1000.0 * s) == s * cfg.refillRatePerSec
  {
    assert 1000.0 * s / 1000.0 == s;
  }

  lemma {:induction false} QuotientScales(a: real, b: real, t: real)
    requires a > 0.0 && b > 0.0 && t >= a / b
    ensures t * b >= a
  {
    var q := a / b;
    assert q * b == a;
    ScaleMonotone(b, q, t);
  }

  lemma {:induction false} ScaleMonotone(r: real, x: real, y: real)
    requires r > 0.0 && x <= y
    ensures x * r <= y * r
  {
  }

  /** A request that finds the key gone comes at least half a time to live after
      the previous ones by the callers' clocks. */
  ghost predicate ClocksClose(cfg: Config, rs: seq<Request>)
    requires Valid(cfg)
  {
    forall k :: 0 < k < |rs| && Gone(cfg, rs, k) ==>
      rs[k].now >= HighWater(Readings(rs), k) + TtlMs(cfg) / 2.0
  }

  /** With clocks that close together script and store always agree; in particular
      while no key is lost, however the callers' clocks jump. */
  lemma {:induction false} LuaRefines(cfg: Config, rs: seq<Request>, k: nat)
    requires Valid(cfg) && k <= |rs| && ClocksClose(cfg, rs)
    ensures Agree(cfg, rs, k)
    decreases k
  {
    hide LuaConsume, Full, TtlMs, Grants, Consume;
    LuaRefinesExactly(cfg, rs, k);
    if k > 0 {
      LuaRefines(cfg, rs, k - 1);
      LuaRefinesExactly(cfg, rs, k - 1);
      if Gone(cfg, rs, k - 1) {
        BucketInvariant(cfg, Readings(rs), k - 1);
        IdleBucketIsFull(cfg, LocalAt(cfg, rs, k - 1).value, rs[k - 1].now);
      }
    }
  }

  /** One clock for everybody, never running backwards, is close enough if keys
      are deleted only on expiry. */
  lemma {:induction false} OneClockIsClose(cfg: Config, rs: seq<Request>)
    requires Valid(cfg) && forall k :: 0 <= k < |rs| ==> rs[k].now == rs[k].server
    requires forall j, k :: 0 <= j < k < |rs| ==> rs[j].now <= rs[k].now
    requires forall k :: 0 < k < |rs| && rs[k].deleted ==> rs[k].server >= rs[k - 1].server + TtlMs(cfg)
    ensures ClocksClose(cfg, rs)
  {
    hide TtlMs;
    AccruesCapacity(cfg);
    forall k | 0 < k < |rs| && Gone(cfg, rs, k) ensures rs[k].now >= HighWater(Readings(rs), k) + TtlMs(cfg) / 2.0 {
      HighWaterIsLast(rs, k);
    }
  }

  lemma {:induction false} HighWaterIsLast(rs: seq<Request>, k: nat)
    requires 0 < k <= |rs| && forall i, j :: 0 <= i < j < |rs| ==> rs[i].now <= rs[j].now
    ensures HighWater(Readings(rs), k) == rs[k - 1].now
    decreases k
  {
    if k > 1 {
      HighWaterIsLast(rs, k - 1);
    }
  }

  /** A caller whose clock stands still while the key expires is given a full
      bucket that the in-process store would not have. */
  lemma {:induction false} StoppedClockRefills(cfg: Config)
    requires Valid(cfg) && cfg.capacity >= 1.0
    ensures !Agree(cfg, [Request(0.0, 0.0, false), Request(0.0, TtlMs(cfg), false)], 2)
  {
    hide LuaConsume, TtlMs, Agree;
    var rs := [Request(0.0, 0.0, false), Request(0.0, TtlMs(cfg), false)];
    LuaRefinesExactly(cfg, rs, 2);
    assert Accrued(cfg, 0.0) == 0.0;
    assert LocalAt(cfg, rs, 0) == None;
    assert LocalAt(cfg, rs, 1) == Some(Bucket(cfg.capacity - 1.0, 0.0));
    assert Gone(cfg, rs, 1);
  }
}
