/** The same TokenBucketLimiter, src/rateLimit.ts, over a store that answers
    later (Redis). Between a request to the store and its reply anything may
    happen; the class below holds the callbacks, and the theorems range over every
    interleaving of those of one provider, which no other provider affects. */
module AsyncLimiter {
  import opened Sorting

  type Waiter = nat

  /** One provider. `acquiring` are the waiters whose first store request is
      unanswered, `draining` counts unanswered requests made by drains, `granted`
      are the resolved promises in order, `consumed` counts tokens taken. */
  datatype State = State(queue: seq<Waiter>, timer: bool, acquiring: set<Waiter>, draining: nat,
                         granted: seq<Waiter>, consumed: nat)

  const INITIAL := State([], false, {}, 0, [], 0)

  /** Resolving a promise a second time has no effect. */
  function Resolve(granted: seq<Waiter>, w: Waiter): seq<Waiter> {
    if w in granted then granted else granted + [w]
  }

  function Without(q: seq<Waiter>, w: Waiter): seq<Waiter> {
    if q == [] then [] else if q[0] == w then q[1..] else [q[0]] + Without(q[1..], w)
  }

  /** `acquireToken` up to its return; the second component is false when the
      caller gets a RateLimitQueueFullError. */
  function Acquire(maxQueueDepth: nat, s: State, w: Waiter): (State, bool) {
    if s.queue == [] then (s.(queue := s.queue + [w], acquiring := s.acquiring + {w}), true)
    else if |s.queue| >= maxQueueDepth then (s, false)
    else (s.(queue := s.queue + [w], timer := true), true)
  }

  /** The reply to the request made by `acquireToken`; a rejected promise
      behaves like a reply of false. */
  function AcquireReply(s: State, w: Waiter, ok: bool): State {
    var t := s.(acquiring := s.acquiring - {w});
    if ok then t.(queue := Without(s.queue, w), granted := Resolve(s.granted, w), consumed := s.consumed + 1)
    else t.(timer := true)
  }

  function Fire(s: State): State {
    if s.queue == [] then s.(timer := false) else s.(timer := false, draining := s.draining + 1)
  }

  function DrainReply(s: State, ok: bool): State
    requires s.draining > 0
  {
    var t := s.(draining := s.draining - 1);
    if ok && s.queue != [] then
      t.(queue := s.queue[1..], granted := Resolve(s.granted, s.queue[0]), consumed := s.consumed + 1,
         timer := s.timer || |s.queue| > 1)
    else if ok then t.(consumed := s.consumed + 1)
    else t.(timer := s.timer || s.queue != [])
  }

  /** The promises of one provider: the calls to the store that are unanswered,
      and what has come of the answered ones. */
  datatype Promises = Promises(acquiring: set<Waiter>, draining: nat, granted: seq<Waiter>, consumed: nat)

  class TokenBucketLimiter {
    const maxQueueDepth: nat
    var queues: map<string, seq<Waiter>>
    var timers: set<string>
    var promises: map<string, Promises>

    constructor (maxQueueDepth: nat)
      ensures this.maxQueueDepth == maxQueueDepth && forall p :: StateOf(p) == INITIAL
    {
      this.maxQueueDepth := maxQueueDepth;
      queues, timers, promises := map[], {}, map[];
    }

    function QueueOf(p: string): seq<Waiter>
      reads this
    {
      if p in queues then queues[p] else []
    }

    function PromisesOf(p: string): Promises
      reads this
    {
      if p in promises then promises[p] else Promises({}, 0, [], 0)
    }

    function StateOf(p: string): State
      reads this
    {
      var c := PromisesOf(p);
      State(QueueOf(p), p in timers, c.acquiring, c.draining, c.granted, c.consumed)
    }

    method AcquireToken(providerId: string, w: Waiter) returns (accepted: bool)
      modifies this
      ensures (StateOf(providerId), accepted) == Acquire(maxQueueDepth, old(StateOf(providerId)), w)
      ensures forall p :: p != providerId ==> StateOf(p) == old(StateOf(p))
    {
      if providerId !in queues {
        queues := queues[providerId := []];
      }
      var c := PromisesOf(providerId);
      if |queues[providerId]| == 0 {
        promises := promises[providerId := c.(acquiring := c.acquiring + {w})];
        queues := queues[providerId := queues[providerId] + [w]];
        return true;
      }
      if |queues[providerId]| >= maxQueueDepth {
        return false;
      }
      queues := queues[providerId := queues[providerId] + [w]];
      timers := timers + {providerId};
      return true;
    }

    method OnAcquireReply(providerId: string, w: Waiter, ok: bool)
      modifies this
      ensures StateOf(providerId) == AcquireReply(old(StateOf(providerId)), w, ok)
      ensures forall p :: p != providerId ==> StateOf(p) == old(StateOf(p))
    {
      var c := PromisesOf(providerId);
      c := c.(acquiring := c.acquiring - {w});
      if ok {
        c := c.(consumed := c.consumed + 1, granted := Resolve(c.granted, w));
        var queue := RemoveFirst(QueueOf(providerId), w);
        queues := queues[providerId := queue];
      } else {
        timers := timers + {providerId};
      }
      promises := promises[providerId := c];
    }

    method OnTimer(providerId: string)
      modifies this
      ensures StateOf(providerId) == Fire(old(StateOf(providerId)))
      ensures forall p :: p != providerId ==> StateOf(p) == old(StateOf(p))
    {
      timers := timers - {providerId};
      if |QueueOf(providerId)| == 0 {
        return;
      }
      var c := PromisesOf(providerId);
      promises := promises[providerId := c.(draining := c.draining + 1)];
    }

    method OnDrainReply(providerId: string, ok: bool)
      requires StateOf(providerId).draining > 0
      modifies this
      ensures StateOf(providerId) == DrainReply(old(StateOf(providerId)), ok)
      ensures forall p :: p != providerId ==> StateOf(p) == old(StateOf(p))
    {
      var c, queue := PromisesOf(providerId), QueueOf(providerId);
      c := c.(draining := c.draining - 1);
      if ok {
        c := c.(consumed := c.consumed + 1);
        if |queue| > 0 {
          c, queue := c.(granted := Resolve(c.granted, queue[0])), queue[1..];
          queues := queues[providerId := queue];
        }
      }
      promises := promises[providerId := c];
      if |queue| > 0 {
        timers := timers + {providerId};
      }
    }
  }

  /** `indexOf` and `splice`. */
  method RemoveFirst(q: seq<Waiter>, w: Waiter) returns (r: seq<Waiter>)
    ensures r == Without(q, w)
  {
    var i := 0;
    while i < |q| && q[i] != w
      invariant 0 <= i <= |q| && w !in q[..i]
    {
      i := i + 1;
    }
    WithoutAt(q, w, i);
    r := if i < |q| then q[..i] + q[i + 1..] else q;
  }

  lemma {:induction false} WithoutAt(q: seq<Waiter>, w: Waiter, i: nat)
    requires i <= |q| && w !in q[..i] && (i < |q| ==> q[i] == w)
    ensures Without(q, w) == if i < |q| then q[..i] + q[i + 1..] else q
    decreases |q|
  {
    if i > 0 {
      assert q[1..][..i - 1] == q[..i][1..];
      WithoutAt(q[1..], w, i - 1);
    }
  }

  // ---------------------------------------------------------------------
  // Every interleaving
  // ---------------------------------------------------------------------

  datatype Event =
    | Arrives(w: Waiter)
    | AcquireReplies(w: Waiter, ok: bool)
    | TimerFires
    | DrainReplies(ok: bool)

  /** A reply needs an unanswered request and a firing needs a pending timer. */
  predicate Enabled(s: State, e: Event) {
    match e
    case Arrives(_) => true
    case AcquireReplies(w, _) => w in s.acquiring
    case TimerFires => s.timer
    case DrainReplies(_) => s.draining > 0
  }

  function Step(maxQueueDepth: nat, s: State, e: Event): State {
    if !Enabled(s, e) then s
    else match e
    case Arrives(w) => Acquire(maxQueueDepth, s, w).0
    case AcquireReplies(w, ok) => AcquireReply(s, w, ok)
    case TimerFires => Fire(s)
    case DrainReplies(ok) => DrainReply(s, ok)
  }

  function At(maxQueueDepth: nat, es: seq<Event>, k: nat): State
    requires k <= |es|
  {
    if k == 0 then INITIAL else Step(maxQueueDepth, At(maxQueueDepth, es, k - 1), es[k - 1])
  }

  /** A caller is accepted while fewer than `maxQueueDepth` wait. */
  predicate Accepts(maxQueueDepth: nat, s: State, e: Event) { e.Arrives? && |s.queue| < maxQueueDepth }

  /** The waiters accepted among the first `k` events, in order of arrival. */
  function Accepted(maxQueueDepth: nat, es: seq<Event>, k: nat): seq<Waiter>
    requires k <= |es|
  {
    if k == 0 then []
    else
      var e := es[k - 1];
      Accepted(maxQueueDepth, es, k - 1)
      + if Accepts(maxQueueDepth, At(maxQueueDepth, es, k - 1), e) then [e.w] else []
  }

  /** Every call of `acquireToken` is a new waiter. */
  ghost predicate Fresh(maxQueueDepth: nat, es: seq<Event>, k: nat)
    requires k <= |es|
  {
    k == 0 ||
    (Fresh(maxQueueDepth, es, k - 1) && (es[k - 1].Arrives? ==> es[k - 1].w !in Accepted(maxQueueDepth, es, k - 1)))
  }

  /** `all` are the waiters accepted so far. */
  ghost predicate Invariant(maxQueueDepth: nat, s: State, all: seq<Waiter>) {
    && s.granted + s.queue == all && Distinct(all)
    && |s.granted| <= s.consumed
    && |s.queue| <= maxQueueDepth
    && (forall w :: w in s.acquiring ==> w in s.granted || (s.queue != [] && s.queue[0] == w))
    && (s.queue != [] ==> s.timer || s.draining > 0 || (|s.queue| == 1 && s.queue[0] in s.acquiring))
  }

  /** Handing the head of the queue its token keeps `granted` then `queue` in
      order of arrival. */
  lemma {:induction false} GrantHead(granted: seq<Waiter>, queue: seq<Waiter>, all: seq<Waiter>)
    requires granted + queue == all && Distinct(all) && queue != []
    ensures Resolve(granted, queue[0]) == granted + [queue[0]] && queue[0] !in queue[1..]
    ensures (granted + [queue[0]]) + queue[1..] == all
  {
    assert all[|granted|] == queue[0];
    assert forall i :: 0 <= i < |granted| ==> all[i] == granted[i];
    assert forall i :: 0 < i < |queue| ==> all[|granted| + i] == queue[i];
  }

  lemma {:induction false} WithoutAbsent(q: seq<Waiter>, w: Waiter)
    requires w !in q
    ensures Without(q, w) == q
    decreases |q|
  {
    if q != [] {
      WithoutAbsent(q[1..], w);
    }
  }

  lemma {:induction false} GrantedNotQueued(granted: seq<Waiter>, queue: seq<Waiter>, all: seq<Waiter>, w: Waiter)
    requires granted + queue == all && Distinct(all) && w in granted
    ensures w !in queue
  {
    var i :| 0 <= i < |granted| && granted[i] == w;
    assert all[i] == w;
    assert forall j :: 0 <= j < |queue| ==> all[|granted| + j] == queue[j];
  }

  lemma {:induction false} AcquireReplyKeeps(maxQueueDepth: nat, s: State, all: seq<Waiter>, w: Waiter, ok: bool)
    requires Invariant(maxQueueDepth, s, all) && w in s.acquiring
    ensures Invariant(maxQueueDepth, AcquireReply(s, w, ok), all)
  {
    if ok {
      if w in s.granted {
        GrantedNotQueued(s.granted, s.queue, all, w);
        WithoutAbsent(s.queue, w);
      } else {
        GrantHead(s.granted, s.queue, all);
      }
    }
  }

  lemma {:induction false} DrainReplyKeeps(maxQueueDepth: nat, s: State, all: seq<Waiter>, ok: bool)
    requires Invariant(maxQueueDepth, s, all) && s.draining > 0
    ensures Invariant(maxQueueDepth, DrainReply(s, ok), all)
  {
    if ok && s.queue != [] {
      GrantHead(s.granted, s.queue, all);
    }
  }

  lemma {:induction false} ArrivalKeeps(maxQueueDepth: nat, s: State, all: seq<Waiter>, w: Waiter)
    requires maxQueueDepth >= 1 && Invariant(maxQueueDepth, s, all) && w !in all
    ensures var (t, accepted) := Acquire(maxQueueDepth, s, w);
            Invariant(maxQueueDepth, t, if accepted then all + [w] else all)
  {
    assert s.granted + (s.queue + [w]) == all + [w];
    if s.queue == [] {
      assert s.granted == all;
    }
  }

  /** An arrival is refused, and changes nothing, if and only if `maxQueueDepth`
      are waiting; otherwise the caller waits at the end of the queue. */
  lemma {:induction false} RefusedExactly(maxQueueDepth: nat, s: State, w: Waiter)
    requires maxQueueDepth >= 1
    ensures var (t, accepted) := Acquire(maxQueueDepth, s, w);
            && (accepted <==> |s.queue| < maxQueueDepth)
            && t.queue == (if |s.queue| < maxQueueDepth then s.queue + [w] else s.queue)
            && (|s.queue| >= maxQueueDepth ==> t == s)
  {
  }

  lemma {:induction false} InvariantHolds(maxQueueDepth: nat, es: seq<Event>, k: nat)
    requires maxQueueDepth >= 1 && k <= |es| && Fresh(maxQueueDepth, es, k)
    ensures Invariant(maxQueueDepth, At(maxQueueDepth, es, k), Accepted(maxQueueDepth, es, k))
    decreases k
  {
    hide Invariant, Acquire, AcquireReply, DrainReply;
    if k == 0 {
      EmptyInvariant(maxQueueDepth);
    } else {
      InvariantHolds(maxQueueDepth, es, k - 1);
      var s, all := At(maxQueueDepth, es, k - 1), Accepted(maxQueueDepth, es, k - 1);
      assert all + [] == all;
      if Enabled(s, es[k - 1]) {
        match es[k - 1]
        case Arrives(w) =>
          RefusedExactly(maxQueueDepth, s, w);
          ArrivalKeeps(maxQueueDepth, s, all, w);
        case AcquireReplies(w, ok) => AcquireReplyKeeps(maxQueueDepth, s, all, w, ok);
        case DrainReplies(ok) => DrainReplyKeeps(maxQueueDepth, s, all, ok);
        case TimerFires => FireKeeps(maxQueueDepth, s, all);
      }
    }
  }

  lemma {:induction false} EmptyInvariant(maxQueueDepth: nat)
    ensures Invariant(maxQueueDepth, INITIAL, [])
  {
  }

  lemma {:induction false} FireKeeps(maxQueueDepth: nat, s: State, all: seq<Waiter>)
    requires Invariant(maxQueueDepth, s, all)
    ensures Invariant(maxQueueDepth, Fire(s), all)
  {
  }

  // --- What becomes of every token and every request ----------------------------

  /** A reply that took a token. */
  predicate Takes(s: State, e: Event) { Enabled(s, e) && (e.AcquireReplies? || e.DrainReplies?) && e.ok }

  /** It came for somebody: the caller it was requested for still waits, or, for a
      drain, anybody does. */
  predicate Serves(s: State, e: Event) { Takes(s, e) && if e.AcquireReplies? then e.w in s.queue else s.queue != [] }

  predicate AsksForCaller(s: State, e: Event) { e.Arrives? && s.queue == [] }
  predicate AsksForQueue(s: State, e: Event) { Enabled(s, e) && e.TimerFires? && s.queue != [] }
  predicate AnswersCaller(s: State, e: Event) { Enabled(s, e) && e.AcquireReplies? }
  predicate AnswersQueue(s: State, e: Event) { Enabled(s, e) && e.DrainReplies? }

  /** How many of the first `k` events are of a kind. */
  function Count(maxQueueDepth: nat, es: seq<Event>, k: nat, kind: (State, Event) -> bool): nat
    requires k <= |es|
  {
    if k == 0 then 0
    else Count(maxQueueDepth, es, k - 1, kind) + if kind(At(maxQueueDepth, es, k - 1), es[k - 1]) then 1 else 0
  }

  /** A token that came for somebody goes to the head of the queue, which for the
      reply to a caller is that caller; no other event grants anything. */
  lemma {:induction false} GrantStep(maxQueueDepth: nat, s: State, all: seq<Waiter>, e: Event)
    requires Invariant(maxQueueDepth, s, all)
    ensures var t := Step(maxQueueDepth, s, e);
            && t.consumed == s.consumed + (if Takes(s, e) then 1 else 0)
            && (Serves(s, e) ==> s.queue != [] && t.granted == s.granted + [s.queue[0]]
                                 && (e.AcquireReplies? ==> e.w == s.queue[0]))
            && (!Serves(s, e) ==> t.granted == s.granted)
  {
    if Serves(s, e) {
      if e.AcquireReplies? && e.w in s.granted {
        GrantedNotQueued(s.granted, s.queue, all, e.w);
      }
      GrantHead(s.granted, s.queue, all);
    }
  }

  /** In every run: a reply of true grants the waiter at the head of the queue if it
      came for somebody, and nothing else grants anything. */
  lemma {:induction false} TrueReplyGrants(maxQueueDepth: nat, es: seq<Event>, k: nat)
    requires maxQueueDepth >= 1 && k < |es| && Fresh(maxQueueDepth, es, k)
    ensures var s, t := At(maxQueueDepth, es, k), At(maxQueueDepth, es, k + 1);
            if Serves(s, es[k]) then
              && s.queue != [] && t.granted == s.granted + [s.queue[0]]
              && (es[k].AcquireReplies? ==> es[k].w == s.queue[0])
            else t.granted == s.granted
  {
    hide Step;
    InvariantHolds(maxQueueDepth, es, k);
    GrantStep(maxQueueDepth, At(maxQueueDepth, es, k), Accepted(maxQueueDepth, es, k), es[k]);
  }

  lemma {:induction false} TokensCounted(maxQueueDepth: nat, es: seq<Event>, k: nat)
    requires maxQueueDepth >= 1 && k <= |es| && Fresh(maxQueueDepth, es, k)
    ensures At(maxQueueDepth, es, k).consumed == Count(maxQueueDepth, es, k, Takes)
    ensures |At(maxQueueDepth, es, k).granted| == Count(maxQueueDepth, es, k, Serves)
    decreases k
  {
    hide Step, Takes, Serves;
    if k > 0 {
      TokensCounted(maxQueueDepth, es, k - 1);
      InvariantHolds(maxQueueDepth, es, k - 1);
      GrantStep(maxQueueDepth, At(maxQueueDepth, es, k - 1), Accepted(maxQueueDepth, es, k - 1), es[k - 1]);
    }
  }

  /** However the store's replies interleave: promises resolve in order of
      arrival, as many as there were tokens that came for somebody; those still
      queued are exactly the rest, and never more than the bound. */
  lemma {:induction false} GrantsInArrivalOrder(maxQueueDepth: nat, es: seq<Event>, k: nat)
    requires maxQueueDepth >= 1 && k <= |es| && Fresh(maxQueueDepth, es, k)
    ensures var s := At(maxQueueDepth, es, k);
            && s.granted + s.queue == Accepted(maxQueueDepth, es, k) && Distinct(s.granted + s.queue)
            && |s.granted| == Count(maxQueueDepth, es, k, Serves)
            && |s.granted| <= s.consumed == Count(maxQueueDepth, es, k, Takes)
            && |s.queue| <= maxQueueDepth
  {
    InvariantHolds(maxQueueDepth, es, k);
    TokensCounted(maxQueueDepth, es, k);
  }

  lemma {:induction false} RequestStep(maxQueueDepth: nat, s: State, e: Event)
    requires maxQueueDepth >= 1 && (e.Arrives? ==> e.w !in s.acquiring)
    ensures var t := Step(maxQueueDepth, s, e);
            && |t.acquiring| == |s.acquiring| + (if AsksForCaller(s, e) then 1 else 0)
                                - (if AnswersCaller(s, e) then 1 else 0)
            && t.draining == s.draining + (if AsksForQueue(s, e) then 1 else 0) - (if AnswersQueue(s, e) then 1 else 0)
  {
    hide Resolve, Without;
  }

  lemma {:induction false} AskingIsAccepted(maxQueueDepth: nat, s: State, all: seq<Waiter>, w: Waiter)
    requires Invariant(maxQueueDepth, s, all) && w !in all
    ensures w !in s.acquiring
  {
  }

  /** The unanswered requests are those made, one per caller who found nobody
      waiting and one per firing that found somebody, less those answered. */
  lemma {:induction false} RequestsCounted(maxQueueDepth: nat, es: seq<Event>, k: nat)
    requires maxQueueDepth >= 1 && k <= |es| && Fresh(maxQueueDepth, es, k)
    ensures var s := At(maxQueueDepth, es, k);
            && |s.acquiring| == Count(maxQueueDepth, es, k, AsksForCaller) - Count(maxQueueDepth, es, k, AnswersCaller)
            && s.draining == Count(maxQueueDepth, es, k, AsksForQueue) - Count(maxQueueDepth, es, k, AnswersQueue)
    decreases k
  {
    hide Step, AsksForCaller, AsksForQueue, AnswersCaller, AnswersQueue;
    if k > 0 {
      RequestsCounted(maxQueueDepth, es, k - 1);
      InvariantHolds(maxQueueDepth, es, k - 1);
      var s, e := At(maxQueueDepth, es, k - 1), es[k - 1];
      if e.Arrives? {
        AskingIsAccepted(maxQueueDepth, s, Accepted(maxQueueDepth, es, k - 1), e.w);
      }
      RequestStep(maxQueueDepth, s, e);
    }
  }

  /** The drain timer is set exactly by a caller who queues behind another, by a
      refused token and by a drain that leaves somebody waiting, and cleared
      exactly by firing. */
  lemma {:induction false} TimerExactly(maxQueueDepth: nat, es: seq<Event>, k: nat)
    requires maxQueueDepth >= 1 && k < |es|
    ensures var s, t, e := At(maxQueueDepth, es, k), At(maxQueueDepth, es, k + 1), es[k];
            t.timer <==>
              || (s.timer && !e.TimerFires?)
              || (Accepts(maxQueueDepth, s, e) && s.queue != [])
              || (AnswersCaller(s, e) && !e.ok)
              || (AnswersQueue(s, e) && t.queue != [])
  {
  }

  /** No waiter is ever stranded: a queued waiter always has a pending timer or
      an unanswered request that will come back to the queue. */
  lemma {:induction false} NobodyStranded(maxQueueDepth: nat, es: seq<Event>, k: nat)
    requires maxQueueDepth >= 1 && k <= |es| && Fresh(maxQueueDepth, es, k)
    requires At(maxQueueDepth, es, k).queue != []
    ensures var s := At(maxQueueDepth, es, k);
            s.timer || s.draining > 0 || (|s.queue| == 1 && s.queue[0] in s.acquiring)
  {
    InvariantHolds(maxQueueDepth, es, k);
  }
}
