/** The waiter queue and drain timer of TokenBucketLimiter, src/rateLimit.ts,
    over the synchronous in-process store. Promises are represented by the
    waiters that own them: resolving one is returning it. */
module Limiter {
  import opened Wrappers
  import opened TokenBucket

  type Waiter = int

  datatype Outcome = Resolved | Queued | Rejected

  /** Everything the limiter keeps for one provider: the bucket, the waiters and
      the moment at which the pending drain timer is due. */
  datatype Lane = Lane(bucket: Option<Bucket>, queue: seq<Waiter>, timer: Option<real>)

  const IDLE := Lane(None, [], None)

  function DelayMs(cfg: Config): real
    requires Valid(cfg)
  {
    Max(1, Ceil(1000.0 / cfg.refillRatePerSec)) as real
  }

  function Scheduled(cfg: Config, l: Lane, now: real): Lane
    requires Valid(cfg)
  {
    if l.timer.Some? then l else l.(timer := Some(now + DelayMs(cfg)))
  }

  function Arrive(cfg: Config, l: Lane, w: Waiter, now: real): (Lane, Outcome)
    requires Valid(cfg)
  {
    if l.queue == [] && Grants(cfg, l.bucket, now) then
      (l.(bucket := Some(Consume(cfg, l.bucket, now))), Resolved)
    else
      var l' := if l.queue == [] then l.(bucket := Some(Consume(cfg, l.bucket, now))) else l;
      if |l.queue| >= cfg.maxQueueDepth then (l', Rejected)
      else (Scheduled(cfg, l'.(queue := l.queue + [w]), now), Queued)
  }

  /** Release waiters from the front for as long as the bucket grants tokens. */
  function Drained(cfg: Config, l: Lane, now: real): (d: Lane)
    ensures |d.queue| <= |l.queue|
    decreases |l.queue|
  {
    if l.queue == [] then l
    else
      var b := Some(Consume(cfg, l.bucket, now));
      if Grants(cfg, l.bucket, now) then Drained(cfg, Lane(b, l.queue[1..], l.timer), now)
      else Lane(b, l.queue, l.timer)
  }

  lemma {:induction false} DrainStep(cfg: Config, l: Lane, now: real)
    ensures Drained(cfg, l, now)
         == if l.queue == [] then l
            else if Grants(cfg, l.bucket, now)
            then Drained(cfg, Lane(Some(Consume(cfg, l.bucket, now)), l.queue[1..], l.timer), now)
            else Lane(Some(Consume(cfg, l.bucket, now)), l.queue, l.timer)
  {
  }

  /** A drain takes waiters from the front only and leaves the timer alone. */
  lemma {:induction false} DrainedSuffix(cfg: Config, l: Lane, now: real)
    ensures var d := Drained(cfg, l, now);
            d.timer == l.timer && d.queue == l.queue[|l.queue| - |d.queue|..]
    decreases |l.queue|
  {
    hide Grants, Consume;
    if l.queue != [] && Grants(cfg, l.bucket, now) {
      DrainedSuffix(cfg, Lane(Some(Consume(cfg, l.bucket, now)), l.queue[1..], l.timer), now);
    }
  }

  /** The timer fires: it is forgotten, the queue is drained, and whoever is left
      gets a new timer. */
  function Fire(cfg: Config, l: Lane, now: real): (Lane, seq<Waiter>)
    requires Valid(cfg)
  {
    var d := Drained(cfg, l.(timer := None), now);
    (if d.queue != [] then Scheduled(cfg, d, now) else d, l.queue[..|l.queue| - |d.queue|])
  }

  class TokenBucketLimiter {
    const config: Config
    const store: InMemoryBucketStore
    var queues: map<string, seq<Waiter>>
    var timers: map<string, real>

    constructor (config: Config, store: InMemoryBucketStore)
      ensures this.config == config && this.store == store
      ensures forall p :: LaneOf(p) == Lane(Lookup(store.tokenBuckets, p), [], None)
    {
      this.config := config;
      this.store := store;
      queues := map[];
      timers := map[];
    }

    function LaneOf(p: string): Lane
      reads this, store
    {
      Lane(Lookup(store.tokenBuckets, p), if p in queues then queues[p] else [], Lookup(timers, p))
    }

    method AcquireToken(providerId: string, w: Waiter, now: real) returns (o: Outcome)
      requires Valid(config)
      modifies this, store
      ensures (LaneOf(providerId), o) == Arrive(config, old(LaneOf(providerId)), w, now)
      ensures forall p :: p != providerId ==> LaneOf(p) == old(LaneOf(p))
    {
      hide Accrued;
      if providerId !in queues {
        queues := queues[providerId := []];
      }
      if |queues[providerId]| == 0 {
        var consumed := store.ConsumeToken(providerId, config, now);
        if consumed {
          return Resolved;
        }
      }
      if |queues[providerId]| >= config.maxQueueDepth {
        return Rejected;
      }
      queues := queues[providerId := queues[providerId] + [w]];
      ScheduleDrain(providerId, now);
      return Queued;
    }

    method ScheduleDrain(providerId: string, now: real)
      requires Valid(config)
      modifies this`timers
      ensures LaneOf(providerId) == Scheduled(config, old(LaneOf(providerId)), now)
      ensures forall p :: p != providerId ==> LaneOf(p) == old(LaneOf(p))
    {
      if providerId in timers {
        return;
      }
      timers := timers[providerId := now + Max(1, Ceil(1000.0 / config.refillRatePerSec)) as real];
    }

    /** The callback of the drain timer. */
    method TimerFires(providerId: string, now: real) returns (released: seq<Waiter>)
      requires Valid(config)
      modifies this, store
      ensures (LaneOf(providerId), released) == Fire(config, old(LaneOf(providerId)), now)
      ensures forall p :: p != providerId ==> LaneOf(p) == old(LaneOf(p))
    {
      hide Accrued;
      timers := timers - {providerId};
      released := Drain(providerId, now);
    }

    method Drain(providerId: string, now: real) returns (released: seq<Waiter>)
      requires Valid(config) && providerId !in timers
      modifies this, store
      ensures (LaneOf(providerId), released) == Fire(config, old(LaneOf(providerId)), now)
      ensures forall p :: p != providerId ==> LaneOf(p) == old(LaneOf(p))
    {
      hide Accrued;
      if providerId !in queues || |queues[providerId]| == 0 {
        return [];
      }
      var rest;
      DrainedSuffix(config, LaneOf(providerId), now);
      released, rest := DrainQueue(store, config, providerId, queues[providerId], now);
      queues := queues[providerId := rest];
      if |rest| > 0 {
        ScheduleDrain(providerId, now);
      }
    }
  }

  /** The loop of `drain`, over the waiters of one provider. */
  method DrainQueue(store: InMemoryBucketStore, cfg: Config, providerId: string, waiting: seq<Waiter>, now: real)
    returns (released: seq<Waiter>, queue: seq<Waiter>)
    modifies store
    ensures released + queue == waiting
    ensures Lane(Lookup(store.tokenBuckets, providerId), queue, None)
         == Drained(cfg, Lane(Lookup(old(store.tokenBuckets), providerId), waiting, None), now)
    ensures forall p :: p != providerId ==> Lookup(store.tokenBuckets, p) == Lookup(old(store.tokenBuckets), p)
  {
    hide Drained, Grants, Consume;
    released, queue := [], waiting;
    ghost var start := Lane(Lookup(store.tokenBuckets, providerId), waiting, None);
    DrainStep(cfg, start, now);
    while |queue| > 0
      invariant released + queue == waiting
      invariant Drained(cfg, Lane(Lookup(store.tokenBuckets, providerId), queue, None), now) == Drained(cfg, start, now)
      invariant forall p :: p != providerId ==> Lookup(store.tokenBuckets, p) == Lookup(old(store.tokenBuckets), p)
      decreases |queue|
    {
      DrainStep(cfg, Lane(Lookup(store.tokenBuckets, providerId), queue, None), now);
      var consumed := store.ConsumeToken(providerId, cfg, now);
      if !consumed {
        return;
      }
      released := released + queue[..1];
      queue := queue[1..];
    }
    DrainStep(cfg, Lane(Lookup(store.tokenBuckets, providerId), queue, None), now);
  }

  // ---------------------------------------------------------------------
  // Runs of one provider
  // ---------------------------------------------------------------------

  datatype Action = Acquire(w: Waiter) | Timer
  datatype Event = Event(at: real, action: Action)

  function Step(cfg: Config, l: Lane, e: Event): Lane
    requires Valid(cfg)
  {
    match e.action
    case Acquire(w) => Arrive(cfg, l, w, e.at).0
    case Timer => Fire(cfg, l, e.at).0
  }

  function At(cfg: Config, es: seq<Event>, k: nat): Lane
    requires Valid(cfg) && k <= |es|
  {
    if k == 0 then IDLE else Step(cfg, At(cfg, es, k - 1), es[k - 1])
  }

  /** The clock never runs backwards and a timer never fires before it is due. */
  ghost predicate Legal(cfg: Config, es: seq<Event>, k: nat)
    requires Valid(cfg) && k <= |es|
  {
    k == 0 ||
    (Legal(cfg, es, k - 1) && (k > 1 ==> es[k - 2].at <= es[k - 1].at)
     && (es[k - 1].action.Timer? ==>
           At(cfg, es, k - 1).timer.Some? && es[k - 1].at >= At(cfg, es, k - 1).timer.value))
  }

  // What a run did between events i and j, in order.

  function Joins(cfg: Config, l: Lane, e: Event): seq<Waiter>
    requires Valid(cfg)
  {
    if e.action.Acquire? && Arrive(cfg, l, e.action.w, e.at).1.Queued? then [e.action.w] else []
  }

  function Leaves(cfg: Config, l: Lane, e: Event): seq<Waiter>
    requires Valid(cfg)
  {
    if e.action.Timer? then Fire(cfg, l, e.at).1 else []
  }

  function Enqueued(cfg: Config, es: seq<Event>, i: nat, j: nat): seq<Waiter>
    requires Valid(cfg) && i <= j <= |es|
    decreases j
  {
    if i == j then [] else Enqueued(cfg, es, i, j - 1) + Joins(cfg, At(cfg, es, j - 1), es[j - 1])
  }

  function Released(cfg: Config, es: seq<Event>, i: nat, j: nat): seq<Waiter>
    requires Valid(cfg) && i <= j <= |es|
    decreases j
  {
    if i == j then [] else Released(cfg, es, i, j - 1) + Leaves(cfg, At(cfg, es, j - 1), es[j - 1])
  }

  function Firings(es: seq<Event>, i: nat, j: nat): nat
    requires i <= j <= |es|
    decreases j
  {
    if i == j then 0 else Firings(es, i, j - 1) + if es[j - 1].action.Timer? then 1 else 0
  }

  /** Waiters have a timer, a timer has waiters, and it is due exactly a drain
      delay after the bucket was last touched. */
  ghost predicate Invariant(cfg: Config, l: Lane, now: real)
    requires Valid(cfg)
  {
    && (l.bucket.Some? ==> InRange(cfg, l.bucket.value) && l.bucket.value.lastRefillMs <= now)
    && (l.timer.Some? <==> l.queue != [])
    && (l.timer.Some? ==> l.bucket.Some? && l.timer.value == l.bucket.value.lastRefillMs + DelayMs(cfg))
    && |l.queue| <= cfg.maxQueueDepth
  }

  /** The bucket after one request made no earlier than its last refill. */
  lemma {:induction false} ConsumeKeeps(cfg: Config, b: Option<Bucket>, now: real)
    requires Valid(cfg)
    requires b.Some? ==> InRange(cfg, b.value) && b.value.lastRefillMs <= now
    ensures InRange(cfg, Consume(cfg, b, now)) && Consume(cfg, b, now).lastRefillMs == now
  {
    if b.Some? {
      ConsumeConserves(cfg, b.value, now);
    }
  }

  lemma {:induction false} DrainKeeps(cfg: Config, l: Lane, now: real)
    requires Valid(cfg) && l.queue != []
    requires l.bucket.Some? ==> InRange(cfg, l.bucket.value) && l.bucket.value.lastRefillMs <= now
    ensures var b := Drained(cfg, l, now).bucket; b.Some? && InRange(cfg, b.value) && b.value.lastRefillMs == now
    decreases |l.queue|
  {
    ConsumeKeeps(cfg, l.bucket, now);
    if |l.queue| > 1 && Grants(cfg, l.bucket, now) {
      DrainKeeps(cfg, Lane(Some(Consume(cfg, l.bucket, now)), l.queue[1..], l.timer), now);
    }
  }

  lemma {:induction false} InvariantStep(cfg: Config, l: Lane, e: Event, now: real)
    requires Valid(cfg) && Invariant(cfg, l, now) && now <= e.at
    ensures Invariant(cfg, Step(cfg, l, e), e.at)
  {
    hide Accrued;
    ConsumeKeeps(cfg, l.bucket, e.at);
    if e.action.Timer? && l.queue != [] {
      DrainKeeps(cfg, l.(timer := None), e.at);
      DrainedSuffix(cfg, l.(timer := None), e.at);
    }
  }

  lemma {:induction false} InvariantHolds(cfg: Config, es: seq<Event>, k: nat, now: real)
    requires Valid(cfg) && k <= |es| && Legal(cfg, es, k)
    requires k > 0 ==> es[k - 1].at <= now
    ensures Invariant(cfg, At(cfg, es, k), now)
    decreases k
  {
    if k > 0 {
      InvariantHolds(cfg, es, k - 1, es[k - 1].at);
      InvariantStep(cfg, At(cfg, es, k - 1), es[k - 1], es[k - 1].at);
    }
  }

  /** The drain delay lets at least one token accrue. */
  lemma {:induction false} DelayAccruesOne(cfg: Config, ms: real)
    requires Valid(cfg) && ms >= DelayMs(cfg)
    ensures Accrued(cfg, ms) >= 1.0
  {
    var period := 1000.0 / cfg.refillRatePerSec;
    assert period <= DelayMs(cfg);
    PeriodAccruesOne(cfg.refillRatePerSec);
    AccruedMonotone(cfg, period, ms);
  }

  lemma {:induction false} PeriodAccruesOne(rate: real)
    requires rate > 0.0
    ensures 1000.0 / rate / 1000.0 * rate == 1.0
  {
    var period := 1000.0 / rate;
    assert period * rate == 1000.0;
    assert period / 1000.0 * rate == period * rate / 1000.0;
  }

  /** The drain delay is the least whole number of milliseconds, at least one, in
      which a token accrues. */
  lemma {:induction false} DelayExactly(cfg: Config)
    requires Valid(cfg)
    ensures DelayMs(cfg) >= 1.0 && DelayMs(cfg) == DelayMs(cfg).Floor as real
    ensures Accrued(cfg, DelayMs(cfg)) >= 1.0
    ensures DelayMs(cfg) == 1.0 || Accrued(cfg, DelayMs(cfg) - 1.0) < 1.0
  {
    DelayAccruesOne(cfg, DelayMs(cfg));
    var period, rate := 1000.0 / cfg.refillRatePerSec, cfg.refillRatePerSec;
    if DelayMs(cfg) > 1.0 {
      var shorter := DelayMs(cfg) - 1.0;
      assert shorter < period;
      PeriodAccruesOne(rate);
      AccruedStrict(cfg, shorter, period);
    }
  }

  lemma {:induction false} AccruedStrict(cfg: Config, a: real, b: real)
    requires Valid(cfg) && a < b
    ensures Accrued(cfg, a) < Accrued(cfg, b)
  {
    var r, x := cfg.refillRatePerSec, (b - a) / 1000.0;
    assert x > 0.0;
    assert x * r > 0.0;
    AccruedAdds(cfg, 0.0, a, b);
  }

  /** Every drain that fires releases somebody, if the bucket can hold a token. */
  lemma {:induction false} FiringReleases(cfg: Config, l: Lane, due: real, now: real)
    requires Valid(cfg) && cfg.capacity >= 1.0
    requires Invariant(cfg, l, due) && l.timer == Some(due) && now >= due
    ensures |Fire(cfg, l, now).1| >= 1
  {
    DelayAccruesOne(cfg, now - l.bucket.value.lastRefillMs);
    assert Grants(cfg, l.bucket, now);
    DrainStep(cfg, l.(timer := None), now);
  }

  // --- Tokens and outcomes ------------------------------------------------------

  /** A caller is rejected exactly when `maxQueueDepth` wait, resolved exactly when
      nobody waits and a token is there, and otherwise waits last. */
  lemma {:induction false} OutcomeExactly(cfg: Config, l: Lane, w: Waiter, now: real)
    requires Valid(cfg)
    ensures var (l', o) := Arrive(cfg, l, w, now);
            && (o.Rejected? <==> |l.queue| >= cfg.maxQueueDepth)
            && (o.Resolved? <==> l.queue == [] && Level(cfg, l.bucket, now) >= 1.0)
            && l'.queue == (if o.Queued? then l.queue + [w] else l.queue)
  {
    hide Refill;
  }

  /** Callers resolved and waiters released by one event. */
  function ServedBy(cfg: Config, l: Lane, e: Event): nat
    requires Valid(cfg)
  {
    match e.action
    case Acquire(w) => if Arrive(cfg, l, w, e.at).1.Resolved? then 1 else 0
    case Timer => |Fire(cfg, l, e.at).1|
  }

  function Served(cfg: Config, es: seq<Event>, i: nat, j: nat): nat
    requires Valid(cfg) && i <= j <= |es|
    decreases j
  {
    if i == j then 0 else Served(cfg, es, i, j - 1) + ServedBy(cfg, At(cfg, es, j - 1), es[j - 1])
  }

  /** A drain takes one token per waiter and stops only when nobody waits or no
      token is left. */
  lemma {:induction false} DrainTakes(cfg: Config, l: Lane, now: real)
    ensures var d := Drained(cfg, l, now);
            && Level(cfg, d.bucket, now) == Level(cfg, l.bucket, now) - (|l.queue| - |d.queue|) as real
            && (d.queue != [] ==> Level(cfg, d.bucket, now) < 1.0)
            && (d.queue != l.queue ==> 0.0 <= Level(cfg, d.bucket, now))
    decreases |l.queue|
  {
    hide Level, Grants, Consume;
    DrainStep(cfg, l, now);
    if l.queue != [] {
      ConsumeTakes(cfg, l.bucket, now);
      if Grants(cfg, l.bucket, now) {
        DrainTakes(cfg, Lane(Some(Consume(cfg, l.bucket, now)), l.queue[1..], l.timer), now);
      }
    }
  }

  /** A firing timer releases as many waiters as there are whole tokens. */
  lemma {:induction false} FireReleasesExactly(cfg: Config, l: Lane, now: real)
    requires Valid(cfg) && 0.0 <= Level(cfg, l.bucket, now)
    ensures |Fire(cfg, l, now).1| == Min(|l.queue|, Level(cfg, l.bucket, now).Floor)
  {
    hide Level, Drained;
    DrainTakes(cfg, l.(timer := None), now);
    DrainedSuffix(cfg, l.(timer := None), now);
  }

  lemma {:induction false} ArriveTakes(cfg: Config, l: Lane, w: Waiter, now: real)
    requires Valid(cfg)
    ensures var (l', o) := Arrive(cfg, l, w, now);
            Level(cfg, l'.bucket, now) == Level(cfg, l.bucket, now) - if o.Resolved? then 1.0 else 0.0
  {
    hide Level, Grants, Consume, DelayMs;
    ConsumeTakes(cfg, l.bucket, now);
  }

  lemma {:induction false} FireTakes(cfg: Config, l: Lane, now: real)
    requires Valid(cfg)
    ensures var (l', released) := Fire(cfg, l, now);
            Level(cfg, l'.bucket, now) == Level(cfg, l.bucket, now) - |released| as real
  {
    hide Level, Drained, DelayMs;
    var d := Drained(cfg, l.(timer := None), now);
    DrainTakes(cfg, l.(timer := None), now);
    assert |Fire(cfg, l, now).1| == |l.queue| - |d.queue|;
  }

  /** Every event takes from the bucket exactly as many tokens as it serves. */
  lemma {:induction false} StepTakes(cfg: Config, l: Lane, e: Event)
    requires Valid(cfg)
    ensures Level(cfg, Step(cfg, l, e).bucket, e.at) == Level(cfg, l.bucket, e.at) - ServedBy(cfg, l, e) as real
  {
    hide Level, Arrive, Fire;
    match e.action
    case Acquire(w) => ArriveTakes(cfg, l, w, e.at);
    case Timer => FireTakes(cfg, l, e.at);
  }

  /** The limiter's own throughput: in any legal run, the callers resolved and the
      waiters released between two events are at most `capacity` plus what accrues
      in the time between them. */
  lemma {:induction false} ServedWithinRate(cfg: Config, es: seq<Event>, i: nat, j: nat)
    requires Valid(cfg) && i < j <= |es| && Legal(cfg, es, j)
    ensures Served(cfg, es, i, j) as real
         <= cfg.capacity + (es[j - 1].at - es[i].at) / 1000.0 * cfg.refillRatePerSec
  {
    ServedAndLeft(cfg, es, i, j);
    InvariantHolds(cfg, es, j, es[j - 1].at);
    LevelInRange(cfg, At(cfg, es, j).bucket, es[j - 1].at);
  }

  lemma {:induction false} LevelInRange(cfg: Config, b: Option<Bucket>, now: real)
    requires Valid(cfg) && (b.Some? ==> InRange(cfg, b.value))
    ensures 0.0 <= Level(cfg, b, now) <= cfg.capacity
  {
    if b.Some? && now > b.value.lastRefillMs {
      AccruedMonotone(cfg, 0.0, now - b.value.lastRefillMs);
    }
  }

  lemma {:induction false} ServedAndLeft(cfg: Config, es: seq<Event>, i: nat, j: nat)
    requires Valid(cfg) && i < j <= |es| && Legal(cfg, es, j)
    ensures Served(cfg, es, i, j) as real + Level(cfg, At(cfg, es, j).bucket, es[j - 1].at)
         <= cfg.capacity + (es[j - 1].at - es[i].at) / 1000.0 * cfg.refillRatePerSec
    decreases j
  {
    hide Level, Step, ServedBy;
    var l, e := At(cfg, es, j - 1), es[j - 1];
    StepTakes(cfg, l, e);
    if j == i + 1 {
      InvariantHolds(cfg, es, i, e.at);
      LevelInRange(cfg, l.bucket, e.at);
      assert Served(cfg, es, i, i) == 0;
    } else {
      ServedAndLeft(cfg, es, i, j - 1);
      InvariantHolds(cfg, es, j - 1, es[j - 2].at);
      LevelRises(cfg, l.bucket, es[j - 2].at, e.at);
      RateAdds(es[i].at, es[j - 2].at, e.at, cfg.refillRatePerSec);
    }
  }

  lemma {:induction false} RateAdds(a: real, b: real, c: real, r: real)
    ensures (b - a) / 1000.0 * r + (c - b) / 1000.0 * r == (c - a) / 1000.0 * r
  {
    assert (b - a) / 1000.0 + (c - b) / 1000.0 == (c - a) / 1000.0;
  }

  // --- Order ----------------------------------------------------------------------

  lemma {:induction false} QueueStep(cfg: Config, l: Lane, e: Event)
    requires Valid(cfg)
    ensures l.queue + Joins(cfg, l, e) == Leaves(cfg, l, e) + Step(cfg, l, e).queue
  {
    hide Drained, Grants, Consume, DelayMs;
    if e.action.Timer? {
      DrainedSuffix(cfg, l.(timer := None), e.at);
    }
  }

  lemma {:induction false} QueueChain(q0: seq<Waiter>, joined: seq<Waiter>, left: seq<Waiter>,
                                      q1: seq<Waiter>, joins: seq<Waiter>, leaves: seq<Waiter>, q2: seq<Waiter>)
    requires q0 + joined == left + q1 && q1 + joins == leaves + q2
    ensures q0 + (joined + joins) == (left + leaves) + q2
  {
    assert q0 + (joined + joins) == (q0 + joined) + joins == left + (q1 + joins);
    assert left + (leaves + q2) == (left + leaves) + q2;
  }

  /** Waiters leave in exactly the order in which they joined. */
  lemma {:induction false} Fifo(cfg: Config, es: seq<Event>, i: nat, j: nat)
    requires Valid(cfg) && i <= j <= |es|
    ensures At(cfg, es, i).queue + Enqueued(cfg, es, i, j) == Released(cfg, es, i, j) + At(cfg, es, j).queue
    decreases j
  {
    hide Accrued;
    if i < j {
      Fifo(cfg, es, i, j - 1);
      var l, e := At(cfg, es, j - 1), es[j - 1];
      QueueStep(cfg, l, e);
      QueueChain(At(cfg, es, i).queue, Enqueued(cfg, es, i, j - 1), Released(cfg, es, i, j - 1),
                 l.queue, Joins(cfg, l, e), Leaves(cfg, l, e), At(cfg, es, j).queue);
    }
  }

  lemma {:induction false} ReleasesKeepUp(cfg: Config, es: seq<Event>, i: nat, j: nat)
    requires Valid(cfg) && cfg.capacity >= 1.0 && i <= j <= |es| && Legal(cfg, es, j)
    ensures |Released(cfg, es, i, j)| >= Firings(es, i, j)
    decreases j
  {
    hide Accrued;
    if i < j {
      ReleasesKeepUp(cfg, es, i, j - 1);
      if es[j - 1].action.Timer? {
        var l := At(cfg, es, j - 1);
        InvariantHolds(cfg, es, j - 1, es[j - 1].at);
        if j > 1 {
          InvariantHolds(cfg, es, j - 1, MaxReal(es[j - 2].at, l.timer.value));
        }
        FiringReleases(cfg, l, l.timer.value, es[j - 1].at);
      }
    }
  }

  /** The k-th waiter in line is released by the k-th drain at the latest,
      whatever arrives meanwhile. */
  lemma {:induction false} KthWaiterByKthDrain(cfg: Config, es: seq<Event>, i: nat, j: nat, k: nat)
    requires Valid(cfg) && cfg.capacity >= 1.0 && i <= j <= |es| && Legal(cfg, es, j)
    requires k <= |At(cfg, es, i).queue| && k <= Firings(es, i, j)
    ensures k <= |Released(cfg, es, i, j)| && Released(cfg, es, i, j)[..k] == At(cfg, es, i).queue[..k]
  {
    ReleasesKeepUp(cfg, es, i, j);
    Fifo(cfg, es, i, j);
    var joined, left := At(cfg, es, i).queue + Enqueued(cfg, es, i, j), Released(cfg, es, i, j) + At(cfg, es, j).queue;
    assert joined[..k] == At(cfg, es, i).queue[..k];
    assert left[..k] == Released(cfg, es, i, j)[..k];
  }

  lemma {:induction false} SmallBucketRefuses(cfg: Config, l: Lane, now: real)
    requires Valid(cfg) && cfg.capacity < 1.0
    ensures !Grants(cfg, l.bucket, now) || (l.bucket.Some? && l.bucket.value.tokens >= 1.0)
    ensures !Grants(cfg, l.bucket, now) ==> Fire(cfg, l, now).1 == []
  {
    if l.queue != [] {
      DrainStep(cfg, l.(timer := None), now);
    }
  }

  /** Event `k` resolves a caller at once or releases a waiter. */
  predicate ServesAt(cfg: Config, es: seq<Event>, k: nat)
    requires Valid(cfg) && k < |es|
  {
    var l, e := At(cfg, es, k), es[k];
    Leaves(cfg, l, e) != [] || (e.action.Acquire? && Arrive(cfg, l, e.action.w, e.at).1.Resolved?)
  }

  /** No legal run ever serves anybody. */
  ghost predicate Starves(cfg: Config)
    requires Valid(cfg)
  {
    forall es: seq<Event>, k: nat :: k < |es| && Legal(cfg, es, k + 1) ==> !ServesAt(cfg, es, k)
  }

  lemma {:induction false} SmallBucketServesNobody(cfg: Config, es: seq<Event>, k: nat)
    requires Valid(cfg) && cfg.capacity < 1.0 && k < |es| && Legal(cfg, es, k + 1)
    ensures !ServesAt(cfg, es, k)
  {
    hide Accrued;
    InvariantHolds(cfg, es, k, es[k].at);
    SmallBucketRefuses(cfg, At(cfg, es, k), es[k].at);
  }

  /** Every caller waits forever exactly when the capacity, which the loader does
      not check, is below one token. */
  lemma {:induction false} StarvesExactly(cfg: Config)
    requires Valid(cfg)
    ensures Starves(cfg) <==> cfg.capacity < 1.0
  {
    if cfg.capacity < 1.0 {
      forall es: seq<Event>, k: nat | k < |es| && Legal(cfg, es, k + 1) ensures !ServesAt(cfg, es, k) {
        SmallBucketServesNobody(cfg, es, k);
      }
    } else {
      var es := [Event(0.0, Acquire(0))];
      assert Legal(cfg, es, 0) && Legal(cfg, es, 1);
      assert At(cfg, es, 0) == IDLE;
      assert ServesAt(cfg, es, 0);
    }
  }
}
