/** The circuit breaker of src/circuit-breaker/CircuitBreaker.ts.

    `execute` suspends at `await fn()`, so one call is two atomic steps, an
    admission and a completion, and the steps of many calls interleave freely.
    The class holds the code; `System` adds the calls in flight, and the
    theorems range over every legal interleaving. */
module Breaker {
  import opened Wrappers

  datatype Phase = Closed | Open | HalfOpen

  datatype Config = Config(failureThreshold: int, successThreshold: int, timeout: int)

  /** The private fields of one breaker. */
  datatype State = State(phase: Phase, failureCount: nat, successCount: nat,
                         lastFailureTime: Option<int>, probeInFlight: bool)

  const INITIAL := State(Closed, 0, 0, None, false)

  function Transition(cfg: Config, s: State, now: int): State {
    if s.phase.Open? && s.lastFailureTime.Some? && now - s.lastFailureTime.value >= cfg.timeout
    then s.(phase := HalfOpen, successCount := 0, probeInFlight := false)
    else s
  }

  /** Does `execute` start the call, given the already transitioned state? */
  predicate Admits(s: State) {
    s.phase.Closed? || (s.phase.HalfOpen? && !s.probeInFlight)
  }

  function Admit(cfg: Config, s: State, now: int): State {
    var t := Transition(cfg, s, now);
    if t.phase.HalfOpen? then t.(probeInFlight := true) else t
  }

  function Succeed(cfg: Config, s: State): State {
    if !s.phase.HalfOpen? then s.(failureCount := 0, probeInFlight := false)
    else if s.successCount + 1 >= cfg.successThreshold then
      s.(phase := Closed, failureCount := 0, successCount := 0, probeInFlight := false)
    else s.(failureCount := 0, successCount := s.successCount + 1, probeInFlight := false)
  }

  function Fail(cfg: Config, s: State, now: int): State {
    var t := s.(lastFailureTime := Some(now), successCount := 0, probeInFlight := false);
    if s.phase.HalfOpen? then t.(phase := Open)
    else if s.failureCount + 1 >= cfg.failureThreshold then
      t.(phase := Open, failureCount := s.failureCount + 1)
    else t.(failureCount := s.failureCount + 1)
  }

  class CircuitBreaker {
    const config: Config
    var phase: Phase
    var failureCount: nat
    var successCount: nat
    var lastFailureTime: Option<int>
    var probeInFlight: bool

    constructor (config: Config)
      ensures Contents() == INITIAL && this.config == config
    {
      this.config := config;
      phase, failureCount, successCount := Closed, 0, 0;
      lastFailureTime, probeInFlight := None, false;
    }

    function Contents(): State
      reads this
    {
      State(phase, failureCount, successCount, lastFailureTime, probeInFlight)
    }

    method TransitionIfNeeded(now: int)
      modifies this
      ensures Contents() == Transition(config, old(Contents()), now)
    {
      if phase == Open && lastFailureTime != None && now - lastFailureTime.value >= config.timeout {
        ToHalfOpen();
      }
    }

    /** `execute` up to its `await`. */
    method BeginExecute(now: int) returns (admitted: bool)
      modifies this
      ensures admitted == Admits(Transition(config, old(Contents()), now))
      ensures Contents() == Admit(config, old(Contents()), now)
    {
      TransitionIfNeeded(now);
      if phase == Open {
        return false;
      }
      if phase == HalfOpen {
        if probeInFlight {
          return false;
        }
        probeInFlight := true;
      }
      return true;
    }

    /** `execute` after `fn` resolved. */
    method EndExecuteResolved()
      modifies this
      ensures Contents() == Succeed(config, old(Contents()))
    {
      OnSuccess();
      probeInFlight := false;
    }

    /** `execute` after `fn` rejected. */
    method EndExecuteRejected(now: int)
      modifies this
      ensures Contents() == Fail(config, old(Contents()), now)
    {
      OnFailure(now);
      probeInFlight := false;
    }

    method GetState(now: int) returns (p: Phase)
      modifies this
      ensures Contents() == Transition(config, old(Contents()), now) && p == phase
    {
      TransitionIfNeeded(now);
      p := phase;
    }

    method Reset()
      modifies this
      ensures Contents() == INITIAL
    {
      phase, failureCount, successCount := Closed, 0, 0;
      lastFailureTime, probeInFlight := None, false;
    }

    method OnSuccess()
      modifies this
      ensures Contents().(probeInFlight := false) == Succeed(config, old(Contents()))
    {
      failureCount := 0;
      if phase == HalfOpen {
        successCount := successCount + 1;
        if successCount >= config.successThreshold {
          phase, failureCount, successCount := Closed, 0, 0;
        }
      }
    }

    method OnFailure(now: int)
      modifies this
      ensures Contents().(probeInFlight := false) == Fail(config, old(Contents()), now)
    {
      lastFailureTime, successCount := Some(now), 0;
      if phase == HalfOpen {
        phase := Open;
        return;
      }
      failureCount := failureCount + 1;
      if failureCount >= config.failureThreshold {
        phase := Open;
      }
    }

    method ToHalfOpen()
      modifies this
      ensures Contents() == old(Contents()).(phase := HalfOpen, successCount := 0, probeInFlight := false)
    {
      phase, successCount, probeInFlight := HalfOpen, 0, false;
    }
  }

  // ---------------------------------------------------------------------
  // Interleavings of many calls
  // ---------------------------------------------------------------------

  datatype Action =
    | Call                              // a caller enters execute
    | Done(probe: bool, success: bool)  // a call in flight completes
    | Poll                              // getState or getStats
    | ForceReset

  datatype Event = Event(at: int, action: Action)

  /** A breaker with its calls in flight. `probes` were admitted since the
      breaker last left CLOSED, `stragglers` before that; the code cannot tell
      them apart. */
  datatype System = System(breaker: State, stragglers: nat, probes: nat) {
    function InFlight(): nat { stragglers + probes }
  }

  /** While CLOSED, every call in flight will be a straggler of the next outage. */
  function Settle(s: System): System {
    if s.breaker.phase.Closed? then System(s.breaker, s.stragglers + s.probes, 0) else s
  }

  predicate Enabled(s: System, a: Action) {
    a.Done? ==> if a.probe then s.probes > 0 else s.stragglers > 0
  }

  /** One step of the system; a completion of no call in flight does not happen. */
  function Step(cfg: Config, s: System, e: Event): System {
    if !Enabled(s, e.action) then s
    else match e.action
    case Call =>
      var admitted := Admits(Transition(cfg, s.breaker, e.at));
      Settle(System(Admit(cfg, s.breaker, e.at), s.stragglers, if admitted then s.probes + 1 else s.probes))
    case Done(probe, success) =>
      var b := if success then Succeed(cfg, s.breaker) else Fail(cfg, s.breaker, e.at);
      Settle(if probe then System(b, s.stragglers, s.probes - 1) else System(b, s.stragglers - 1, s.probes))
    case Poll => Settle(s.(breaker := Transition(cfg, s.breaker, e.at)))
    case ForceReset => Settle(s.(breaker := INITIAL))
  }

  /** The system after the first `k` events of a history. */
  function At(cfg: Config, es: seq<Event>, k: nat): System
    requires k <= |es|
  {
    if k == 0 then System(INITIAL, 0, 0) else Step(cfg, At(cfg, es, k - 1), es[k - 1])
  }

  function PhaseAt(cfg: Config, es: seq<Event>, k: nat): Phase
    requires k <= |es|
  {
    At(cfg, es, k).breaker.phase
  }

  /** The first `k` events are a legal history: the clock never runs backwards
      and only calls in flight complete. */
  ghost predicate Legal(cfg: Config, es: seq<Event>, k: nat)
    requires k <= |es|
  {
    k == 0 ||
    (Legal(cfg, es, k - 1) && Enabled(At(cfg, es, k - 1), es[k - 1].action)
     && (k > 1 ==> es[k - 2].at <= es[k - 1].at))
  }

  // What a history alone says, without looking at the breaker's fields.

  predicate IsFailure(e: Event) { e.action.Done? && !e.action.success }
  predicate IsSuccess(e: Event) { e.action.Done? && e.action.success }

  function NextStreak(streak: nat, e: Event): nat {
    if IsSuccess(e) || e.action.ForceReset? then 0 else streak + if IsFailure(e) then 1 else 0
  }

  /** Failed completions since the last successful one or reset. */
  function FailureStreak(es: seq<Event>, k: nat): nat
    requires k <= |es|
  {
    if k == 0 then 0 else NextStreak(FailureStreak(es, k - 1), es[k - 1])
  }

  function NextFailure(failure: Option<int>, e: Event): Option<int> {
    if e.action.ForceReset? then None else if IsFailure(e) then Some(e.at) else failure
  }

  /** When the latest failed completion since the last reset happened. */
  function LatestFailure(es: seq<Event>, k: nat): Option<int>
    requires k <= |es|
  {
    if k == 0 then None else NextFailure(LatestFailure(es, k - 1), es[k - 1])
  }

  /** Successful completions among events h..k. */
  function Successes(es: seq<Event>, h: nat, k: nat): nat
    requires h <= k <= |es|
  {
    if h == k then 0 else Successes(es, h, k - 1) + if IsSuccess(es[k - 1]) then 1 else 0
  }

  function Failures(es: seq<Event>, h: nat, k: nat): nat
    requires h <= k <= |es|
  {
    if h == k then 0 else Failures(es, h, k - 1) + if IsFailure(es[k - 1]) then 1 else 0
  }

  /** Among events i..k the latest call entered after the latest completion. */
  predicate CallPending(es: seq<Event>, i: nat, k: nat)
    requires i <= k <= |es|
  {
    i < k && (es[k - 1].action.Call? || (es[k - 1].action.Poll? && CallPending(es, i, k - 1)))
  }

  /** What holds after a history with this streak and latest failure that ended at `now`. */
  ghost predicate Sane(cfg: Config, s: System, streak: nat, failure: Option<int>, now: int) {
    var b := s.breaker;
    && b.lastFailureTime == failure && (!b.phase.HalfOpen? ==> b.successCount == 0)
    && (b.phase.Closed? ==>
          !b.probeInFlight && s.probes == 0 && b.failureCount == streak < Max(1, cfg.failureThreshold))
    && (b.phase.Open? ==> !b.probeInFlight && failure.Some?)
    && (b.phase.HalfOpen? ==>
          && failure.Some? && now >= failure.value + cfg.timeout
          && (b.probeInFlight ==> s.probes > 0)
          && b.successCount < Max(1, cfg.successThreshold))
  }

  ghost predicate Invariant(cfg: Config, es: seq<Event>, k: nat)
    requires k <= |es|
  {
    Sane(cfg, At(cfg, es, k), FailureStreak(es, k), LatestFailure(es, k), if k == 0 then 0 else es[k - 1].at)
  }

  lemma {:induction false} StepSane(cfg: Config, s: System, streak: nat, failure: Option<int>, now: int, e: Event)
    requires Sane(cfg, s, streak, failure, now) && Enabled(s, e.action)
    requires s.breaker.phase.HalfOpen? ==> now <= e.at
    ensures Sane(cfg, Step(cfg, s, e), NextStreak(streak, e), NextFailure(failure, e), e.at)
  {
    match e.action
    case Call => CallSane(cfg, s, streak, failure, now, e);
    case Done(_, success) =>
      if success {
        SuccessSane(cfg, s, streak, failure, now, e);
      } else {
        FailureSane(cfg, s, streak, failure, now, e);
      }
    case _ =>
  }

  lemma {:induction false} CallSane(cfg: Config, s: System, streak: nat, failure: Option<int>, now: int, e: Event)
    requires Sane(cfg, s, streak, failure, now) && e.action.Call? && (s.breaker.phase.HalfOpen? ==> now <= e.at)
    ensures Sane(cfg, Step(cfg, s, e), streak, failure, e.at)
  {
  }

  lemma {:induction false} SuccessSane(cfg: Config, s: System, streak: nat, failure: Option<int>, now: int, e: Event)
    requires Sane(cfg, s, streak, failure, now) && Enabled(s, e.action) && IsSuccess(e)
    requires s.breaker.phase.HalfOpen? ==> now <= e.at
    ensures Sane(cfg, Step(cfg, s, e), 0, failure, e.at)
  {
  }

  lemma {:induction false} FailureSane(cfg: Config, s: System, streak: nat, failure: Option<int>, now: int, e: Event)
    requires Sane(cfg, s, streak, failure, now) && Enabled(s, e.action) && IsFailure(e)
    ensures Sane(cfg, Step(cfg, s, e), streak + 1, Some(e.at), e.at)
  {
  }

  lemma {:induction false} InvariantHolds(cfg: Config, es: seq<Event>, k: nat)
    requires k <= |es| && Legal(cfg, es, k)
    ensures Invariant(cfg, es, k)
    decreases k
  {
    hide Step, Sane, NextStreak, NextFailure;
    if k == 0 {
      StartSane(cfg);
    } else {
      InvariantHolds(cfg, es, k - 1);
      StepSane(cfg, At(cfg, es, k - 1), FailureStreak(es, k - 1), LatestFailure(es, k - 1),
               if k == 1 then 0 else es[k - 2].at, es[k - 1]);
    }
  }

  lemma {:induction false} StartSane(cfg: Config)
    ensures Sane(cfg, System(INITIAL, 0, 0), 0, None, 0)
  {
  }

  /** Failures since the last success or reset, those that ended HALF_OPEN aside. */
  function FailuresRecorded(cfg: Config, es: seq<Event>, k: nat): nat
    requires k <= |es|
  {
    if k == 0 || IsSuccess(es[k - 1]) || es[k - 1].action.ForceReset? then 0
    else
      FailuresRecorded(cfg, es, k - 1)
      + if IsFailure(es[k - 1]) && !PhaseAt(cfg, es, k - 1).HalfOpen? then 1 else 0
  }

  lemma {:induction false} FailureCountStep(cfg: Config, s: System, e: Event)
    requires Enabled(s, e.action)
    ensures Step(cfg, s, e).breaker.failureCount
         == if IsSuccess(e) || e.action.ForceReset? then 0
            else s.breaker.failureCount + if IsFailure(e) && !s.breaker.phase.HalfOpen? then 1 else 0
  {
  }

  /** The counters that `getStats` reports, in every reachable state. */
  lemma {:induction false} CountersExactly(cfg: Config, es: seq<Event>, k: nat)
    requires k <= |es| && Legal(cfg, es, k)
    ensures At(cfg, es, k).breaker.failureCount == FailuresRecorded(cfg, es, k)
    ensures !PhaseAt(cfg, es, k).HalfOpen? ==> At(cfg, es, k).breaker.successCount == 0
    decreases k
  {
    hide Step;
    InvariantHolds(cfg, es, k);
    if k > 0 {
      CountersExactly(cfg, es, k - 1);
      FailureCountStep(cfg, At(cfg, es, k - 1), es[k - 1]);
    }
  }

  /** The breaker leaves CLOSED exactly on the failure that completes a streak
      of `failureThreshold` (at least one) since the last success or reset. */
  lemma {:induction false} TripsExactlyOnThreshold(cfg: Config, es: seq<Event>, k: nat)
    requires 0 < k <= |es| && Legal(cfg, es, k) && PhaseAt(cfg, es, k - 1).Closed?
    ensures !PhaseAt(cfg, es, k).Closed?
       <==> IsFailure(es[k - 1]) && FailureStreak(es, k) == Max(1, cfg.failureThreshold)
    ensures !PhaseAt(cfg, es, k).Closed? ==> PhaseAt(cfg, es, k).Open?
  {
    InvariantHolds(cfg, es, k - 1);
  }

  /** What a caller arriving now meets, in terms of the history: CLOSED always
      admits; OPEN admits if and only if `timeout` has passed since the latest
      failure, so it is never permanent; HALF_OPEN is only ever reached after
      that timeout and turns a caller away only while a probe is running. */
  lemma {:induction false} AdmissionRule(cfg: Config, es: seq<Event>, now: int)
    requires Legal(cfg, es, |es|)
    requires es != [] ==> es[|es| - 1].at <= now
    ensures
      var s := At(cfg, es, |es|);
      var failure := LatestFailure(es, |es|);
      var admitted := Admits(Transition(cfg, s.breaker, now));
      match s.breaker.phase
      case Closed => admitted
      case Open => failure.Some? && (admitted <==> now >= failure.value + cfg.timeout)
      case HalfOpen => failure.Some? && now >= failure.value + cfg.timeout && (!admitted ==> s.probes > 0)
  {
    InvariantHolds(cfg, es, |es|);
  }

  /** While HALF_OPEN there is a moment `h` at which the breaker left OPEN;
      since then it has been HALF_OPEN throughout, no completion failed, and
      fewer than `successThreshold` succeeded. A caller is turned away exactly
      while a call has entered and none has completed since. */
  lemma {:induction false} HalfOpenSince(cfg: Config, es: seq<Event>, k: nat) returns (h: nat)
    requires k <= |es| && Legal(cfg, es, k) && PhaseAt(cfg, es, k).HalfOpen?
    ensures 0 < h <= k && PhaseAt(cfg, es, h - 1).Open?
    ensures forall j :: h <= j <= k ==> PhaseAt(cfg, es, j).HalfOpen?
    ensures Failures(es, h, k) == 0
    ensures At(cfg, es, k).breaker.successCount == Successes(es, h, k) < Max(1, cfg.successThreshold)
    ensures forall now :: Admits(Transition(cfg, At(cfg, es, k).breaker, now)) <==> !CallPending(es, h - 1, k)
    decreases k
  {
    InvariantHolds(cfg, es, k);
    if PhaseAt(cfg, es, k - 1).HalfOpen? {
      h := HalfOpenSince(cfg, es, k - 1);
    } else {
      h := k;
    }
  }

  /** HALF_OPEN is left exactly so: to CLOSED on the success that completes
      `successThreshold` (at least one) since it was entered, to OPEN on any
      failure. */
  lemma {:induction false} HalfOpenLeftExactly(cfg: Config, es: seq<Event>, k: nat) returns (h: nat)
    requires k < |es| && Legal(cfg, es, k + 1) && PhaseAt(cfg, es, k).HalfOpen? && !es[k].action.ForceReset?
    ensures 0 < h <= k && PhaseAt(cfg, es, h - 1).Open?
    ensures forall j :: h <= j <= k ==> PhaseAt(cfg, es, j).HalfOpen?
    ensures PhaseAt(cfg, es, k + 1).Closed?
       <==> IsSuccess(es[k]) && Successes(es, h, k + 1) == Max(1, cfg.successThreshold)
    ensures PhaseAt(cfg, es, k + 1).Open? <==> IsFailure(es[k])
    ensures PhaseAt(cfg, es, k + 1).Closed? ==> Failures(es, h, k + 1) == 0
  {
    h := HalfOpenSince(cfg, es, k);
  }

  /** OPEN is left exactly by a caller or a poll that comes `timeout` after the
      latest failure, and only to HALF_OPEN. */
  lemma {:induction false} OpenLeftExactly(cfg: Config, es: seq<Event>, k: nat)
    requires k < |es| && Legal(cfg, es, k + 1) && PhaseAt(cfg, es, k).Open? && !es[k].action.ForceReset?
    ensures LatestFailure(es, k).Some?
    ensures PhaseAt(cfg, es, k + 1).HalfOpen?
       <==> !es[k].action.Done? && es[k].at >= LatestFailure(es, k).value + cfg.timeout
    ensures !PhaseAt(cfg, es, k + 1).Closed?
  {
    InvariantHolds(cfg, es, k);
  }

  /** Without a reset the breaker closes again only after exactly
      `successThreshold` (at least one) successes and no failure since it last
      became HALF_OPEN. */
  lemma {:induction false} ClosesOnlyAfterSuccesses(cfg: Config, es: seq<Event>, k: nat) returns (h: nat)
    requires k < |es| && Legal(cfg, es, k + 1) && !es[k].action.ForceReset?
    requires !PhaseAt(cfg, es, k).Closed? && PhaseAt(cfg, es, k + 1).Closed?
    ensures 0 < h <= k && PhaseAt(cfg, es, h - 1).Open?
    ensures forall j :: h <= j <= k ==> PhaseAt(cfg, es, j).HalfOpen?
    ensures Failures(es, h, k + 1) == 0
    ensures Successes(es, h, k + 1) == Max(1, cfg.successThreshold)
  {
    h := HalfOpenSince(cfg, es, k);
  }

  lemma {:induction false} InFlightStep(cfg: Config, s: System, e: Event, n: nat)
    requires !s.breaker.phase.Closed? && (s.breaker.phase.Open? ==> !s.breaker.probeInFlight)
    requires Enabled(s, e.action) && !Step(cfg, s, e).breaker.phase.Closed?
    requires s.InFlight() <= n + if s.breaker.probeInFlight then 1 else 0
    ensures Step(cfg, s, e).InFlight() <= n + if Step(cfg, s, e).breaker.probeInFlight then 1 else 0
  {
  }

  /** From the step that leaves CLOSED until CLOSED is reached again, the calls
      in flight never exceed those still running when it opened, plus one. */
  lemma {:induction false} InFlightBound(cfg: Config, es: seq<Event>, i: nat, k: nat)
    requires i < k <= |es| && Legal(cfg, es, k) && PhaseAt(cfg, es, i).Closed?
    requires forall j :: i < j <= k ==> !PhaseAt(cfg, es, j).Closed?
    ensures At(cfg, es, k).InFlight()
         <= At(cfg, es, i + 1).InFlight() + if At(cfg, es, k).breaker.probeInFlight then 1 else 0
    decreases k
  {
    hide Step;
    if i + 1 < k {
      InvariantHolds(cfg, es, k - 1);
      InFlightBound(cfg, es, i, k - 1);
      assert !PhaseAt(cfg, es, k - 1).Closed? && !PhaseAt(cfg, es, k).Closed?;
      InFlightStep(cfg, At(cfg, es, k - 1), es[k - 1], At(cfg, es, i + 1).InFlight());
    }
  }

  // ---------------------------------------------------------------------
  // "Only one probe at a time"
  // ---------------------------------------------------------------------

  ghost predicate StaysOut(cfg: Config, es: seq<Event>, fs: seq<Event>) {
    && es <= fs && Legal(cfg, fs, |fs|)
    && forall j :: |es| <= j <= |fs| ==> !PhaseAt(cfg, fs, j).Closed?
  }

  /** No continuation that stays out of CLOSED has two probes in flight. */
  ghost predicate SingleProbe(cfg: Config, es: seq<Event>) {
    forall fs: seq<Event> :: StaysOut(cfg, es, fs) ==> At(cfg, fs, |fs|).probes <= 1
  }

  /** The single-probe promise is broken exactly when the breaker opened with
      calls still running: any completion clears `probeInFlight`. */
  lemma {:induction false} SingleProbeExactly(cfg: Config, es: seq<Event>)
    requires es != [] && Legal(cfg, es, |es|)
    requires PhaseAt(cfg, es, |es| - 1).Closed? && PhaseAt(cfg, es, |es|).Open?
    ensures SingleProbe(cfg, es) <==> At(cfg, es, |es|).InFlight() == 0
  {
    var n := |es|;
    InvariantHolds(cfg, es, n - 1);
    if At(cfg, es, n).InFlight() == 0 {
      forall fs: seq<Event> | StaysOut(cfg, es, fs)
        ensures At(cfg, fs, |fs|).probes <= 1
      {
        SamePrefix(cfg, es, fs, n - 1);
        SamePrefix(cfg, es, fs, n);
        InFlightBound(cfg, fs, n - 1, |fs|);
      }
    } else {
      TwoProbes(cfg, es);
    }
  }

  /** A straggler fails while a probe runs; the breaker reopens, times out
      again and admits a second probe beside the first. */
  lemma {:induction false} TwoProbes(cfg: Config, es: seq<Event>)
    requires es != [] && Legal(cfg, es, |es|) && PhaseAt(cfg, es, |es|).Open?
    requires At(cfg, es, |es|).stragglers > 0 && At(cfg, es, |es|).probes == 0
    ensures !SingleProbe(cfg, es)
  {
    var n := |es|;
    InvariantHolds(cfg, es, n);
    var t := Max(es[n - 1].at, At(cfg, es, n).breaker.lastFailureTime.value + cfg.timeout);
    assert StaysOut(cfg, es, es);
    var f1 := Extend(cfg, es, es, Event(t, Call));
    var f2 := Extend(cfg, es, f1, Event(t, Done(false, false)));
    var f3 := Extend(cfg, es, f2, Event(Max(t, t + cfg.timeout), Call));
    assert At(cfg, f3, |f3|).probes == 2;
  }

  lemma {:induction false} Extend(cfg: Config, es: seq<Event>, fs: seq<Event>, e: Event) returns (gs: seq<Event>)
    requires StaysOut(cfg, es, fs) && Enabled(At(cfg, fs, |fs|), e.action)
    requires fs != [] ==> fs[|fs| - 1].at <= e.at
    requires !Step(cfg, At(cfg, fs, |fs|), e).breaker.phase.Closed?
    ensures gs == fs + [e] && StaysOut(cfg, es, gs)
    ensures At(cfg, gs, |gs|) == Step(cfg, At(cfg, fs, |fs|), e)
  {
    hide Step;
    gs := fs + [e];
    SameLegal(cfg, fs, gs, |fs|);
    SamePrefix(cfg, fs, gs, |fs|);
    forall j | |es| <= j <= |gs| ensures !PhaseAt(cfg, gs, j).Closed? {
      if j <= |fs| {
        SamePrefix(cfg, fs, gs, j);
        assert !PhaseAt(cfg, fs, j).Closed?;
      }
    }
  }

  lemma {:induction false} SameLegal(cfg: Config, es: seq<Event>, fs: seq<Event>, k: nat)
    requires es <= fs && k <= |es| && Legal(cfg, es, k)
    ensures Legal(cfg, fs, k)
    decreases k
  {
    hide Step;
    if k > 0 {
      SameLegal(cfg, es, fs, k - 1);
      SamePrefix(cfg, es, fs, k - 1);
    }
  }

  lemma {:induction false} SamePrefix(cfg: Config, es: seq<Event>, fs: seq<Event>, k: nat)
    requires es <= fs && k <= |es|
    ensures At(cfg, fs, k) == At(cfg, es, k)
    decreases k
  {
    hide Step;
    if k > 0 {
      SamePrefix(cfg, es, fs, k - 1);
    }
  }

  /** One call more than the breaker tolerates failures, then as many failures as
      it takes to open it. */
  function OneTooMany(cfg: Config): seq<Event> {
    var t := Max(1, cfg.failureThreshold);
    seq(2 * t + 1, i => Event(0, if i <= t then Call else Done(false, false)))
  }

  lemma {:induction false} OneTooManyAt(cfg: Config, k: nat)
    requires k <= |OneTooMany(cfg)|
    ensures Legal(cfg, OneTooMany(cfg), k)
    ensures var t, s := Max(1, cfg.failureThreshold), At(cfg, OneTooMany(cfg), k);
            && s.probes == 0 && s.stragglers == (if k <= t then k else 2 * t + 2 - k)
            && s.breaker.failureCount == (if k <= t then 0 else k - t - 1)
            && s.breaker.phase == (if k <= 2 * t then Closed else Open)
    decreases k
  {
    if k > 0 {
      OneTooManyAt(cfg, k - 1);
    }
  }

  /** Every configuration has a history that breaks the single-probe promise. */
  lemma {:induction false} PromiseBroken(cfg: Config)
    ensures var es := OneTooMany(cfg);
            && Legal(cfg, es, |es|) && PhaseAt(cfg, es, |es| - 1).Closed? && PhaseAt(cfg, es, |es|).Open?
            && At(cfg, es, |es|).InFlight() == 1 && !SingleProbe(cfg, es)
  {
    hide Step, At, Legal, SingleProbe;
    var es := OneTooMany(cfg);
    OneTooManyAt(cfg, |es| - 1);
    OneTooManyAt(cfg, |es|);
    SingleProbeExactly(cfg, es);
  }
}
