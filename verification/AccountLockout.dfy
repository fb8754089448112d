/** Per-account progressive lockout, src/auth/accountLockout.ts.

    Every operation takes one clock reading, and a storage key that is `None`
    when the identity does not normalise to a usable e-mail address. */
module Lockout {
  import opened Wrappers

  datatype Config = Config(enabled: bool, maxFailures: nat, decayWindowMs: nat, lockoutDurationMs: nat,
                           baseDelayMs: nat, delayMultiplier: nat, maxDelayMs: nat)

  datatype Record = Record(failed: nat, firstFailureAt: int, lastFailureAt: int, lockedUntil: int)

  datatype Assessment = Assessment(isLocked: bool, failures: nat, remainingLockoutMs: int, preDelayMs: nat)
  datatype FailureResult = FailureResult(isNowLocked: bool, failures: nat, waitMs: nat, triggeredLockout: bool)
  datatype SuccessResult = SuccessResult(releasedLockout: bool, previousFailures: nat)

  const EMPTY := Record(0, 0, 0, 0)
  const ZERO_ASSESSMENT := Assessment(false, 0, 0, 0)
  const NO_FAILURE := FailureResult(false, 0, 0, false)
  const NO_RELEASE := SuccessResult(false, 0)

  predicate Locked(r: Record, now: int) { r.lockedUntil > 0 && now < r.lockedUntil }
  predicate Expired(r: Record, now: int) { r.lockedUntil > 0 && now >= r.lockedUntil }
  predicate Decayed(cfg: Config, r: Record, now: int) {
    r.failed > 0 && r.lastFailureAt > 0 && now - r.lastFailureAt > cfg.decayWindowMs
  }
  predicate Sweepable(cfg: Config, r: Record, now: int) {
    Expired(r, now) || (r.failed > 0 && r.lastFailureAt < now - cfg.decayWindowMs)
  }

  function Pow(b: nat, e: nat): nat { if e == 0 then 1 else b * Pow(b, e - 1) }

  function Delay(cfg: Config, failures: nat): (d: nat)
    ensures d <= cfg.maxDelayMs
  {
    if failures == 0 then 0 else Min(cfg.baseDelayMs * Pow(cfg.delayMultiplier, failures - 1), cfg.maxDelayMs)
  }

  // The effect of each operation on the record of one account.

  function Refreshed(cfg: Config, r: Record, now: int): Record {
    if Expired(r, now) || Decayed(cfg, r, now) then EMPTY else r
  }

  function AfterFailure(cfg: Config, a: Option<Record>, now: int): Record {
    var r := Refreshed(cfg, if a.Some? then a.value else EMPTY, now);
    if Locked(r, now) then r
    else Record(r.failed + 1, if r.firstFailureAt == 0 then now else r.firstFailureAt, now,
                if r.failed + 1 == cfg.maxFailures then now + cfg.lockoutDurationMs else r.lockedUntil)
  }

  /** Did this attempt increment the counter? */
  predicate Counted(cfg: Config, a: Option<Record>, now: int) {
    a.Some? ==> !Locked(Refreshed(cfg, a.value, now), now)
  }

  function FailureReport(cfg: Config, a: Option<Record>, now: int): FailureResult {
    var r := AfterFailure(cfg, a, now);
    var triggered := Counted(cfg, a, now) && r.failed == cfg.maxFailures;
    FailureResult(Locked(r, now), r.failed,
                  if triggered || !Counted(cfg, a, now) then cfg.maxDelayMs else Delay(cfg, r.failed), triggered)
  }

  function AssessReport(cfg: Config, a: Option<Record>, now: int): Assessment {
    if a.None? then ZERO_ASSESSMENT
    else
      var live := if Expired(a.value, now) || Decayed(cfg, a.value, now) then 0 else a.value.failed;
      var locked := Locked(a.value, now);
      Assessment(locked, live, if locked then a.value.lockedUntil - now else 0,
                 if locked then cfg.maxDelayMs else Delay(cfg, live))
  }

  function SuccessReport(a: Option<Record>): SuccessResult {
    if a.None? then NO_RELEASE else SuccessResult(a.value.lockedUntil > 0, a.value.failed)
  }

  function AfterSweep(cfg: Config, a: Option<Record>, now: int): Option<Record> {
    if a.Some? && Sweepable(cfg, a.value, now) then None else a
  }

  function SweepAll(cfg: Config, m: map<string, Record>, now: int): map<string, Record> {
    map k | k in m && !Sweepable(cfg, m[k], now) :: m[k]
  }

  class AccountLockoutTracker {
    const config: Config
    var records: map<string, Record>

    constructor (config: Config)
      ensures this.config == config && records == map[]
    {
      this.config := config;
      records := map[];
    }

    method ComputeDelay(failures: nat) returns (d: nat)
      ensures d == Delay(config, failures)
    {
      if failures <= 0 { return 0; }
      var power := 1;
      for i := 0 to failures - 1
        invariant power == Pow(config.delayMultiplier, i)
      {
        power := config.delayMultiplier * power;
      }
      d := Min(config.baseDelayMs * power, config.maxDelayMs);
    }

    method Assess(key: Option<string>, now: int) returns (r: Assessment)
      ensures r == if !config.enabled || key.None? then ZERO_ASSESSMENT
                   else AssessReport(config, Lookup(records, key.value), now)
    {
      if !config.enabled || key.None? || key.value !in records {
        return ZERO_ASSESSMENT;
      }
      var record := records[key.value];
      var isLocked := record.lockedUntil > 0 && now < record.lockedUntil;
      var liveFailures := record.failed;
      if record.lockedUntil > 0 && now >= record.lockedUntil {
        liveFailures := 0;
      } else if record.failed > 0 && record.lastFailureAt > 0
                && now - record.lastFailureAt > config.decayWindowMs {
        liveFailures := 0;
      }
      var delay := ComputeDelay(liveFailures);
      r := Assessment(isLocked, liveFailures, if isLocked then record.lockedUntil - now else 0,
                      if isLocked then config.maxDelayMs else delay);
    }

    method RecordFailure(key: Option<string>, now: int) returns (r: FailureResult)
      modifies this
      ensures !config.enabled || key.None? ==> records == old(records) && r == NO_FAILURE
      ensures config.enabled && key.Some? ==>
                var a := Lookup(old(records), key.value);
                && records == old(records)[key.value := AfterFailure(config, a, now)]
                && r == FailureReport(config, a, now)
    {
      if !config.enabled || key.None? {
        return NO_FAILURE;
      }
      var record := if key.value in records then records[key.value] else EMPTY;
      // refreshInPlace
      if record.lockedUntil > 0 && now >= record.lockedUntil {
        record := EMPTY;
      } else if record.failed > 0 && record.lastFailureAt > 0
                && now - record.lastFailureAt > config.decayWindowMs {
        record := EMPTY;
      }
      records := records[key.value := record];
      if record.lockedUntil > 0 && now < record.lockedUntil {
        return FailureResult(true, record.failed, config.maxDelayMs, false);
      }
      record := record.(failed := record.failed + 1, lastFailureAt := now);
      if record.firstFailureAt == 0 {
        record := record.(firstFailureAt := now);
      }
      var triggered := false;
      if record.failed == config.maxFailures {
        record := record.(lockedUntil := now + config.lockoutDurationMs);
        triggered := true;
      }
      records := records[key.value := record];
      var delay := ComputeDelay(record.failed);
      r := FailureResult(record.lockedUntil > 0 && now < record.lockedUntil, record.failed,
                         if triggered then config.maxDelayMs else delay, triggered);
    }

    method RecordSuccess(key: Option<string>) returns (r: SuccessResult)
      modifies this
      ensures !config.enabled || key.None? ==> records == old(records) && r == NO_RELEASE
      ensures config.enabled && key.Some? ==>
                && records == old(records) - {key.value}
                && r == SuccessReport(Lookup(old(records), key.value))
    {
      if !config.enabled || key.None? || key.value !in records {
        return NO_RELEASE;
      }
      var record := records[key.value];
      records := records - {key.value};
      r := SuccessResult(record.lockedUntil > 0, record.failed);
    }

    method Sweep(now: int) returns (removed: nat)
      modifies this
      ensures records == SweepAll(config, old(records), now)
      ensures removed == |old(records)| - |records|
    {
      var decayCutoff := now - config.decayWindowMs;
      removed := 0;
      var pending := records.Keys;
      while pending != {}
        invariant pending <= records.Keys <= old(records).Keys
        invariant forall k :: k in records ==> records[k] == old(records)[k]
        invariant forall k :: k in old(records) && k !in pending ==>
                    (k in records <==> !Sweepable(config, old(records)[k], now))
        invariant removed == |old(records)| - |records|
        decreases pending
      {
        var key :| key in pending;
        pending := pending - {key};
        var record := records[key];
        var lockoutExpired := record.lockedUntil > 0 && now >= record.lockedUntil;
        var decayed := record.failed > 0 && record.lastFailureAt < decayCutoff;
        if lockoutExpired || decayed {
          ghost var before := records;
          records := records - {key};
          assert records.Keys == before.Keys - {key};
          assert |before.Keys| == |records.Keys| + 1;
          removed := removed + 1;
        }
      }
    }
  }

  // ---------------------------------------------------------------------
  // Runs of one account
  // ---------------------------------------------------------------------

  /** `Elsewhere` is an operation on another account. */
  datatype Action = Assess | Failure | Success | Sweep | Elsewhere
  datatype Event = Event(at: int, action: Action)
  datatype Output = Assessed(a: Assessment) | Failed(f: FailureResult) | Succeeded(s: SuccessResult) | Silent

  function Step(cfg: Config, a: Option<Record>, e: Event): Option<Record> {
    match e.action
    case Failure => Some(AfterFailure(cfg, a, e.at))
    case Success => None
    case Sweep => AfterSweep(cfg, a, e.at)
    case _ => a
  }

  /** What the caller of an operation sees. */
  function Shows(cfg: Config, a: Option<Record>, e: Event): Output {
    match e.action
    case Assess => Assessed(AssessReport(cfg, a, e.at))
    case Failure => Failed(FailureReport(cfg, a, e.at))
    case Success => Succeeded(SuccessReport(a))
    case _ => Silent
  }

  /** The account after the first `k` events of a run that starts with no record. */
  function At(cfg: Config, es: seq<Event>, k: nat): Option<Record>
    requires k <= |es|
  {
    if k == 0 then None else Step(cfg, At(cfg, es, k - 1), es[k - 1])
  }

  /** A positive clock that never runs backwards. */
  ghost predicate Clocked(es: seq<Event>) {
    && (forall i :: 0 <= i < |es| ==> es[i].at > 0)
    && (forall i, j :: 0 <= i <= j < |es| ==> es[i].at <= es[j].at)
  }

  ghost predicate NoSuccess(es: seq<Event>, i: nat, j: nat)
    requires j <= |es|
  {
    forall k :: i <= k < j ==> !es[k].action.Success?
  }

  predicate CountedAt(cfg: Config, es: seq<Event>, k: nat)
    requires k < |es|
  {
    es[k].action.Failure? && Counted(cfg, At(cfg, es, k), es[k].at)
  }

  predicate TriggeredAt(cfg: Config, es: seq<Event>, k: nat)
    requires k < |es|
  {
    es[k].action.Failure? && FailureReport(cfg, At(cfg, es, k), es[k].at).triggeredLockout
  }

  /** Failures that incremented the counter, among events i..j. */
  function CountBetween(cfg: Config, es: seq<Event>, i: nat, j: nat): nat
    requires i <= j <= |es|
    decreases j
  {
    if i == j then 0 else CountBetween(cfg, es, i, j - 1) + if CountedAt(cfg, es, j - 1) then 1 else 0
  }

  /** A stored record is one streak: at most `maxFailures` failures, and locked
      for `lockoutDurationMs` from the last of them exactly when it is full. */
  ghost predicate Streak(cfg: Config, a: Option<Record>, now: int) {
    a.Some? ==>
      var r := a.value;
      && 1 <= r.failed <= cfg.maxFailures
      && 0 < r.firstFailureAt <= r.lastFailureAt <= now
      && r.lockedUntil == if r.failed == cfg.maxFailures then r.lastFailureAt + cfg.lockoutDurationMs else 0
  }

  lemma {:induction false} StreakInvariant(cfg: Config, es: seq<Event>, k: nat, now: int)
    requires cfg.maxFailures >= 1 && Clocked(es) && k <= |es|
    requires k > 0 ==> es[k - 1].at <= now
    ensures Streak(cfg, At(cfg, es, k), now)
    decreases k
  {
    if k > 0 {
      StreakInvariant(cfg, es, k - 1, es[k - 1].at);
    }
  }

  /** The shortest silence that can end a full streak. */
  function Pause(cfg: Config): nat { Min(cfg.lockoutDurationMs, cfg.decayWindowMs + 1) }

  // --- Streaks and their delays -------------------------------------------

  /** The wait after the `n`-th failure of a streak: it starts at the base delay
      and is multiplied with each further failure, up to the maximum. */
  function Wait(cfg: Config, n: nat): nat {
    if n == 0 then 0
    else if n == 1 then Min(cfg.baseDelayMs, cfg.maxDelayMs)
    else Min(cfg.delayMultiplier * Wait(cfg, n - 1), cfg.maxDelayMs)
  }

  lemma {:induction false} DelayIsWait(cfg: Config, n: nat)
    ensures Delay(cfg, n) == Wait(cfg, n)
    decreases n
  {
    if n == 1 {
      assert Pow(cfg.delayMultiplier, 0) == 1;
    } else if n > 1 {
      DelayIsWait(cfg, n - 1);
      DelayGrows(cfg, n - 1);
    }
  }

  lemma {:induction false} DelayGrows(cfg: Config, n: nat)
    requires n >= 1
    ensures Delay(cfg, n + 1) == Min(cfg.delayMultiplier * Delay(cfg, n), cfg.maxDelayMs)
  {
    var m, b, p := cfg.delayMultiplier, cfg.baseDelayMs, Pow(cfg.delayMultiplier, n - 1);
    assert Pow(m, n) == m * p;
    Exchange(b, m, p);
    CappedProduct(m, b * p, cfg.maxDelayMs);
  }

  lemma {:induction false} Exchange(b: nat, m: nat, p: nat)
    ensures b * (m * p) == m * (b * p)
  {
    assert b * (m * p) == (b * m) * p == (m * b) * p == m * (b * p);
  }

  lemma {:induction false} Scale(m: nat, x: nat, y: nat)
    requires x <= y
    ensures m * x <= m * y && (m > 0 ==> x <= m * x)
    decreases m
  {
    if m > 0 {
      Scale(m - 1, x, y);
      assert m * x == (m - 1) * x + x && m * y == (m - 1) * y + y;
    }
  }

  lemma {:induction false} CappedProduct(m: nat, x: nat, cap: nat)
    ensures Min(m * Min(x, cap), cap) == Min(m * x, cap)
  {
    if x > cap {
      Scale(m, cap, x);
    }
  }

  /** A record is a streak that began with event `s`: the failures counted since,
      with no login between, are those it holds and a login would report. */
  lemma {:induction false} StreakSince(cfg: Config, es: seq<Event>, k: nat) returns (s: nat)
    requires cfg.maxFailures >= 1 && Clocked(es) && k <= |es| && At(cfg, es, k).Some?
    ensures s < k && CountedAt(cfg, es, s) && FailureReport(cfg, At(cfg, es, s), es[s].at).failures == 1
    ensures NoSuccess(es, s, k) && At(cfg, es, k).value.firstFailureAt == es[s].at
    ensures At(cfg, es, k).value.failed == CountBetween(cfg, es, s, k)
    ensures SuccessReport(At(cfg, es, k)).previousFailures == CountBetween(cfg, es, s, k)
    decreases k
  {
    var a, e := At(cfg, es, k - 1), es[k - 1];
    StreakInvariant(cfg, es, k - 1, e.at);
    if e.action.Failure? && (a.None? || Refreshed(cfg, a.value, e.at) == EMPTY) {
      s := k - 1;
      assert CountBetween(cfg, es, s, s) == 0;
    } else {
      s := StreakSince(cfg, es, k - 1);
    }
  }

  /** The n-th counted failure of a streak reports n and the n-th wait, or the
      maximum if it is the one that locks the account. */
  lemma {:induction false} StreakReports(cfg: Config, es: seq<Event>, k: nat) returns (s: nat)
    requires cfg.maxFailures >= 1 && Clocked(es) && k < |es| && CountedAt(cfg, es, k)
    ensures s <= k && CountedAt(cfg, es, s) && NoSuccess(es, s, k)
    ensures At(cfg, es, k + 1).value.firstFailureAt == es[s].at
    ensures var n := CountBetween(cfg, es, s, k + 1);
            FailureReport(cfg, At(cfg, es, k), es[k].at)
            == FailureResult(n == cfg.maxFailures && cfg.lockoutDurationMs > 0, n,
                             if n == cfg.maxFailures then cfg.maxDelayMs else Wait(cfg, n), n == cfg.maxFailures)
  {
    s := StreakSince(cfg, es, k + 1);
    StreakInvariant(cfg, es, k, es[k].at);
    DelayIsWait(cfg, CountBetween(cfg, es, s, k + 1));
  }

  /** The silence after which the record of event `k` no longer matters. */
  function Lifetime(cfg: Config, r: Record): nat {
    if r.failed == cfg.maxFailures then Pause(cfg) else cfg.decayWindowMs + 1
  }

  /** Until then, and until another failure counts or a login succeeds, `assess`
      shows the number and the wait that the failure reported. */
  lemma {:induction false} AssessRepeatsReport(cfg: Config, es: seq<Event>, k: nat, j: nat, now: int)
    requires cfg.maxFailures >= 1 && Clocked(es) && k < j <= |es| && CountedAt(cfg, es, k)
    requires NoSuccess(es, k, j) && CountBetween(cfg, es, k + 1, j) == 0
    requires es[j - 1].at <= now < es[k].at + Lifetime(cfg, At(cfg, es, k + 1).value)
    ensures var seen, told := AssessReport(cfg, At(cfg, es, j), now), FailureReport(cfg, At(cfg, es, k), es[k].at);
            seen.failures == told.failures && seen.preDelayMs == told.waitMs && seen.isLocked == told.isNowLocked
  {
    StreakInvariant(cfg, es, k, es[k].at);
    RecordKept(cfg, es, k, j, now);
  }

  lemma {:induction false} RecordKept(cfg: Config, es: seq<Event>, k: nat, j: nat, now: int)
    requires cfg.maxFailures >= 1 && Clocked(es) && k < j <= |es| && CountedAt(cfg, es, k)
    requires NoSuccess(es, k, j) && CountBetween(cfg, es, k + 1, j) == 0
    requires es[j - 1].at <= now < es[k].at + Lifetime(cfg, At(cfg, es, k + 1).value)
    ensures At(cfg, es, j) == At(cfg, es, k + 1)
    decreases j
  {
    StreakInvariant(cfg, es, k, es[k].at);
    if k + 1 < j {
      RecordKept(cfg, es, k, j - 1, now);
    }
  }

  // --- How fast one account can be attacked ------------------------------

  /** Failures countable in a window of length `x`: one full streak now, and one
      more per pause. */
  function Budget(m: nat, p: nat, x: int): nat
    requires p > 0
    decreases x + p
  {
    if x < 0 then 0 else m + Budget(m, p, x - p)
  }

  lemma {:induction false} BudgetMonotone(m: nat, p: nat, x: int, y: int)
    requires p > 0 && x <= y
    ensures Budget(m, p, x) <= Budget(m, p, y)
    decreases y + p
  {
    if x >= 0 {
      BudgetMonotone(m, p, x - p, y - p);
    }
  }

  lemma {:induction false} BudgetIs(m: nat, p: nat, q: nat, r: nat)
    requires r < p
    ensures Budget(m, p, q * p + r) == m * (q + 1)
    decreases q
  {
    if q > 0 {
      assert q * p + r - p == (q - 1) * p + r && q * p >= 0;
      BudgetIs(m, p, q - 1, r);
    }
  }

  lemma {:induction false} BudgetQuotient(m: nat, p: nat, x: nat)
    requires p > 0
    ensures Budget(m, p, x) == m * (x / p + 1)
  {
    BudgetIs(m, p, x / p, x % p);
    assert x == x / p * p + x % p;
  }

  /** How many more failures can be counted up to time `b`. */
  function Potential(cfg: Config, a: Option<Record>, now: int, b: int): int
    requires Pause(cfg) > 0
  {
    match a
    case None => Budget(cfg.maxFailures, Pause(cfg), b - now)
    case Some(r) => cfg.maxFailures - r.failed + Budget(cfg.maxFailures, Pause(cfg), b - r.lastFailureAt - Pause(cfg))
  }

  lemma {:induction false} PotentialDrops(cfg: Config, a: Option<Record>, now: int, e: Event, b: int)
    requires cfg.maxFailures >= 1 && Pause(cfg) > 0
    requires Streak(cfg, a, now) && now <= e.at <= b && 0 < e.at && !e.action.Success?
    ensures Potential(cfg, Step(cfg, a, e), e.at, b)
            + (if e.action.Failure? && Counted(cfg, a, e.at) then 1 else 0) <= Potential(cfg, a, now, b)
  {
    var m, p := cfg.maxFailures, Pause(cfg);
    match a
    case None =>
      BudgetMonotone(m, p, b - e.at, b - now);
    case Some(r) =>
      BudgetMonotone(m, p, b - e.at - p, b - r.lastFailureAt - p);
      if e.at >= r.lastFailureAt + p {
        BudgetMonotone(m, p, b - e.at, b - r.lastFailureAt - p);
      }
  }

  lemma {:induction false} AttackBudget(cfg: Config, es: seq<Event>, i: nat, j: nat, b: int)
    requires cfg.maxFailures >= 1 && Pause(cfg) > 0 && Clocked(es)
    requires i < j <= |es| && es[j - 1].at <= b && NoSuccess(es, i, j)
    ensures CountBetween(cfg, es, i, j) == 0
         || CountBetween(cfg, es, i, j) + Potential(cfg, At(cfg, es, j), es[j - 1].at, b)
            <= Budget(cfg.maxFailures, Pause(cfg), b - es[i].at)
    decreases j
  {
    var e := es[j - 1];
    StreakInvariant(cfg, es, j - 1, e.at);
    if j - 1 > i {
      AttackBudget(cfg, es, i, j - 1, b);
      StreakInvariant(cfg, es, j - 1, es[j - 2].at);
      PotentialDrops(cfg, At(cfg, es, j - 1), es[j - 2].at, e, b);
    }
    BudgetMonotone(cfg.maxFailures, Pause(cfg), b - e.at, b - es[i].at);
  }

  /** In any window of length `t` without a successful login, whatever sweeps
      occur, at most `maxFailures * (t / pause + 1)` failures are counted. With
      `lockoutDurationMs <= decayWindowMs` the pause is the lockout duration. */
  lemma {:induction false} AttackRate(cfg: Config, es: seq<Event>, i: nat, j: nat, t: nat)
    requires cfg.maxFailures >= 1 && cfg.lockoutDurationMs > 0 && Clocked(es)
    requires i < j <= |es| && es[j - 1].at <= es[i].at + t && NoSuccess(es, i, j)
    ensures CountBetween(cfg, es, i, j) <= cfg.maxFailures * (t / Pause(cfg) + 1)
    ensures cfg.lockoutDurationMs <= cfg.decayWindowMs ==> Pause(cfg) == cfg.lockoutDurationMs
  {
    AttackBudget(cfg, es, i, j, es[i].at + t);
    StreakInvariant(cfg, es, j, es[j - 1].at);
    BudgetQuotient(cfg.maxFailures, Pause(cfg), t);
  }

  // --- A lock keeps its deadline -----------------------------------------

  /** A triggered lock survives everything but a login until its deadline. */
  ghost predicate LocksHold(cfg: Config) {
    forall es: seq<Event>, i: nat, j: nat ::
      Clocked(es) && i < j <= |es| && TriggeredAt(cfg, es, i)
      && NoSuccess(es, i, j) && es[j - 1].at < es[i].at + cfg.lockoutDurationMs
      ==> At(cfg, es, j) == At(cfg, es, i + 1)
  }

  lemma {:induction false} LockKept(cfg: Config, es: seq<Event>, i: nat, j: nat)
    requires cfg.maxFailures >= 1 && cfg.lockoutDurationMs <= cfg.decayWindowMs + 1
    requires Clocked(es) && i < j <= |es| && TriggeredAt(cfg, es, i)
    requires NoSuccess(es, i, j) && es[j - 1].at < es[i].at + cfg.lockoutDurationMs
    ensures At(cfg, es, j) == At(cfg, es, i + 1)
    decreases j
  {
    StreakInvariant(cfg, es, i, es[i].at);
    if i + 1 < j {
      LockKept(cfg, es, i, j - 1);
    }
  }

  /** While the lock is on, no attempt counts, extends it or triggers it again,
      and `assess` reports it with the time remaining. */
  lemma {:induction false} LockedOut(cfg: Config, es: seq<Event>, i: nat, j: nat, now: int)
    requires cfg.maxFailures >= 1 && cfg.lockoutDurationMs <= cfg.decayWindowMs + 1
    requires Clocked(es) && i < j <= |es| && TriggeredAt(cfg, es, i) && NoSuccess(es, i, j)
    requires es[j - 1].at <= now < es[i].at + cfg.lockoutDurationMs
    ensures var a := At(cfg, es, j);
            && FailureReport(cfg, a, now) == FailureResult(true, cfg.maxFailures, cfg.maxDelayMs, false)
            && Some(AfterFailure(cfg, a, now)) == a
            && AssessReport(cfg, a, now)
               == Assessment(true, cfg.maxFailures, es[i].at + cfg.lockoutDurationMs - now, cfg.maxDelayMs)
  {
    LockKept(cfg, es, i, j);
    StreakInvariant(cfg, es, i, es[i].at);
  }

  /** `assess` foretells the next failure: locked means it will not count, and
      otherwise it will be number `failures + 1`, triggering at `maxFailures`. */
  lemma {:induction false} AssessForetells(cfg: Config, es: seq<Event>, k: nat, now: int)
    requires cfg.maxFailures >= 1 && cfg.lockoutDurationMs <= cfg.decayWindowMs + 1
    requires Clocked(es) && k <= |es| && now > 0 && (k > 0 ==> es[k - 1].at <= now)
    ensures var seen, next := AssessReport(cfg, At(cfg, es, k), now), FailureReport(cfg, At(cfg, es, k), now);
            && (seen.isLocked <==> !Counted(cfg, At(cfg, es, k), now))
            && next.failures == seen.failures + (if seen.isLocked then 0 else 1) <= cfg.maxFailures
            && (next.triggeredLockout <==> !seen.isLocked && seen.failures + 1 == cfg.maxFailures)
  {
    StreakInvariant(cfg, es, k, now);
  }

  /** Just enough failures at time 1 to lock the account, then a sweep and an
      `assess` that much later. */
  function LockThenSweep(cfg: Config, later: nat): (es: seq<Event>)
    ensures |es| == cfg.maxFailures + 2
  {
    seq(cfg.maxFailures + 2,
        i => if i < cfg.maxFailures then Event(1, Failure)
             else Event(1 + later, if i == cfg.maxFailures then Sweep else Assess))
  }

  lemma {:induction false} Burst(cfg: Config, later: nat, k: nat)
    requires 1 <= k <= cfg.maxFailures
    ensures At(cfg, LockThenSweep(cfg, later), k)
         == Some(Record(k, 1, 1, if k == cfg.maxFailures then 1 + cfg.lockoutDurationMs else 0))
    decreases k
  {
    if k > 1 {
      Burst(cfg, later, k - 1);
    }
  }

  lemma {:induction false} BurstTriggers(cfg: Config, later: nat)
    requires cfg.maxFailures >= 1
    ensures TriggeredAt(cfg, LockThenSweep(cfg, later), cfg.maxFailures - 1)
  {
    if cfg.maxFailures > 1 {
      Burst(cfg, later, cfg.maxFailures - 1);
    }
  }

  /** Locks run their full course exactly when the decay window is not shorter
      than the lockout, to the millisecond. */
  lemma {:induction false} LocksHoldExactly(cfg: Config)
    requires cfg.maxFailures >= 1
    ensures LocksHold(cfg) <==> cfg.lockoutDurationMs <= cfg.decayWindowMs + 1
  {
    if cfg.lockoutDurationMs <= cfg.decayWindowMs + 1 {
      forall es: seq<Event>, i: nat, j: nat |
        Clocked(es) && i < j <= |es| && TriggeredAt(cfg, es, i)
        && NoSuccess(es, i, j) && es[j - 1].at < es[i].at + cfg.lockoutDurationMs
        ensures At(cfg, es, j) == At(cfg, es, i + 1)
      {
        LockKept(cfg, es, i, j);
      }
    } else {
      LockCut(cfg);
    }
  }

  lemma {:induction false} LockCut(cfg: Config)
    requires cfg.maxFailures >= 1 && cfg.lockoutDurationMs > cfg.decayWindowMs + 1
    ensures !LocksHold(cfg)
  {
    var later, n := cfg.decayWindowMs + 1, cfg.maxFailures;
    var es := LockThenSweep(cfg, later);
    Burst(cfg, later, n);
    BurstTriggers(cfg, later);
    assert NoSuccess(es, n - 1, n + 1);
    assert At(cfg, es, n + 1) != At(cfg, es, n);
  }

  // --- Sweeping is unobservable ------------------------------------------

  /** The same run with every sweep skipped. */
  function Unswept(cfg: Config, es: seq<Event>, k: nat): Option<Record>
    requires k <= |es|
  {
    if k == 0 then None
    else if es[k - 1].action.Sweep? then Unswept(cfg, es, k - 1)
    else Step(cfg, Unswept(cfg, es, k - 1), es[k - 1])
  }

  /** Equal, except that a login after a sweep may report no release. */
  predicate Agree(swept: Output, unswept: Output) {
    swept == unswept || (unswept.Succeeded? && swept == Succeeded(NO_RELEASE))
  }

  ghost predicate SweepsUnobservable(cfg: Config) {
    forall es: seq<Event>, k: nat :: Clocked(es) && k < |es| ==> SameOutput(cfg, es, k)
  }

  predicate SameOutput(cfg: Config, es: seq<Event>, k: nat)
    requires k < |es|
  {
    Agree(Shows(cfg, At(cfg, es, k), es[k]), Shows(cfg, Unswept(cfg, es, k), es[k]))
  }

  /** The swept account equals the unswept one, or has lost a record that no
      longer matters. */
  ghost predicate Simulates(cfg: Config, swept: Option<Record>, unswept: Option<Record>, now: int) {
    && Streak(cfg, unswept, now)
    && (swept == unswept || (swept.None? && Sweepable(cfg, unswept.value, now)))
  }

  lemma {:induction false} SimulationStep(cfg: Config, swept: Option<Record>, unswept: Option<Record>, e: Event)
    requires cfg.maxFailures >= 1 && cfg.lockoutDurationMs <= cfg.decayWindowMs + 1 && e.at > 0
    requires Simulates(cfg, swept, unswept, e.at)
    ensures Simulates(cfg, Step(cfg, swept, e), if e.action.Sweep? then unswept else Step(cfg, unswept, e), e.at)
    ensures Agree(Shows(cfg, swept, e), Shows(cfg, unswept, e))
  {
  }

  lemma {:induction false} SweepSimulation(cfg: Config, es: seq<Event>, k: nat, now: int)
    requires cfg.maxFailures >= 1 && cfg.lockoutDurationMs <= cfg.decayWindowMs + 1
    requires Clocked(es) && k <= |es| && (k > 0 ==> es[k - 1].at <= now)
    ensures Simulates(cfg, At(cfg, es, k), Unswept(cfg, es, k), now)
    decreases k
  {
    if k > 0 {
      SweepSimulation(cfg, es, k - 1, es[k - 1].at);
      SimulationStep(cfg, At(cfg, es, k - 1), Unswept(cfg, es, k - 1), es[k - 1]);
    }
  }

  /** Skipping every sweep of a run changes no result of `assess` or
      `recordFailure`, in any run, exactly under the same condition. */
  lemma {:induction false} SweepsUnobservableExactly(cfg: Config)
    requires cfg.maxFailures >= 1
    ensures SweepsUnobservable(cfg) <==> cfg.lockoutDurationMs <= cfg.decayWindowMs + 1
  {
    if cfg.lockoutDurationMs <= cfg.decayWindowMs + 1 {
      forall es: seq<Event>, k: nat | Clocked(es) && k < |es| ensures SameOutput(cfg, es, k) {
        SweepSimulation(cfg, es, k, es[k].at);
        SimulationStep(cfg, At(cfg, es, k), Unswept(cfg, es, k), es[k]);
      }
    } else {
      var es, n := LockThenSweep(cfg, cfg.decayWindowMs + 1), cfg.maxFailures;
      Burst(cfg, cfg.decayWindowMs + 1, n);
      UnsweptPrefix(cfg, es, n);
      assert At(cfg, es, n + 1).None?;
      assert Unswept(cfg, es, n + 1) == At(cfg, es, n);
      assert !SameOutput(cfg, es, n + 1);
    }
  }

  lemma {:induction false} UnsweptPrefix(cfg: Config, es: seq<Event>, k: nat)
    requires k <= |es| && forall i :: 0 <= i < k ==> !es[i].action.Sweep?
    ensures Unswept(cfg, es, k) == At(cfg, es, k)
    decreases k
  {
    if k > 0 {
      UnsweptPrefix(cfg, es, k - 1);
    }
  }

  // --- What a sweep removes -----------------------------------------------

  /** The record has outlived its lockout, if it has one, and the decay window. */
  predicate OutlivedBoth(cfg: Config, r: Record, now: int) {
    (r.lockedUntil > 0 ==> now >= r.lockedUntil) && r.lastFailureAt < now - cfg.decayWindowMs
  }

  /** In every run a sweep removes exactly the records that have outlived both. */
  ghost predicate SweepsAsDocumented(cfg: Config) {
    forall es: seq<Event>, k: nat :: Clocked(es) && k < |es| && es[k].action.Sweep? ==> SweepAsDocumented(cfg, es, k)
  }

  predicate SweepAsDocumented(cfg: Config, es: seq<Event>, k: nat)
    requires k < |es|
  {
    var a := At(cfg, es, k);
    a.Some? ==> (At(cfg, es, k + 1).None? <==> OutlivedBoth(cfg, a.value, es[k].at))
  }

  /** The sweep, which asks for either, does so for a single lockout duration. */
  lemma {:induction false} SweepsAsDocumentedExactly(cfg: Config)
    requires cfg.maxFailures >= 1
    ensures SweepsAsDocumented(cfg) <==> cfg.lockoutDurationMs == cfg.decayWindowMs + 1
  {
    if cfg.lockoutDurationMs == cfg.decayWindowMs + 1 {
      forall es: seq<Event>, k: nat | Clocked(es) && k < |es| && es[k].action.Sweep?
        ensures SweepAsDocumented(cfg, es, k)
      {
        StreakInvariant(cfg, es, k, es[k].at);
      }
    } else {
      var es, n := LockThenSweep(cfg, Pause(cfg)), cfg.maxFailures;
      Burst(cfg, Pause(cfg), n);
      assert At(cfg, es, n + 1).None?;
      assert !SweepAsDocumented(cfg, es, n);
    }
  }

  // --- Audit events -------------------------------------------------------

  /** Event `j` is a sweep or an attempt that comes after the pause of the lock
      triggered at `i`. */
  predicate Overdue(cfg: Config, es: seq<Event>, i: nat, j: nat)
    requires i < |es| && j < |es|
  {
    (es[j].action.Sweep? || es[j].action.Failure?) && es[j].at >= es[i].at + Pause(cfg)
  }

  /** The record a trigger leaves behind. */
  lemma {:induction false} TriggerRecord(cfg: Config, es: seq<Event>, i: nat)
    requires cfg.maxFailures >= 1 && Clocked(es) && i < |es| && TriggeredAt(cfg, es, i)
    ensures var a := At(cfg, es, i + 1);
            a.Some? && a.value.failed == cfg.maxFailures && a.value.lastFailureAt == es[i].at && a.value.lockedUntil > 0
  {
    StreakInvariant(cfg, es, i, es[i].at);
  }

  /** A full record survives until something overdue comes; then it is gone, or
      replaced by a first failure. */
  lemma {:induction false} FullStep(cfg: Config, a: Option<Record>, e: Event)
    requires cfg.maxFailures >= 1 && e.at > 0 && Streak(cfg, a, e.at) && !e.action.Success?
    requires a.Some? && a.value.failed == cfg.maxFailures
    requires e.action.Failure? ==> !FailureReport(cfg, a, e.at).triggeredLockout
    ensures if (e.action.Sweep? || e.action.Failure?) && e.at >= a.value.lastFailureAt + Pause(cfg)
            then !SuccessReport(Step(cfg, a, e)).releasedLockout
            else Step(cfg, a, e) == a
  {
  }

  lemma {:induction false} UnlockedStep(cfg: Config, a: Option<Record>, e: Event)
    requires cfg.maxFailures >= 1 && e.at > 0 && Streak(cfg, a, e.at) && !SuccessReport(a).releasedLockout
    requires e.action.Failure? ==> !FailureReport(cfg, a, e.at).triggeredLockout
    ensures !SuccessReport(Step(cfg, a, e)).releasedLockout
  {
  }

  /** After the latest trigger, at `i`, a login reports the release of that lock
      if and only if nothing overdue came between. */
  lemma {:induction false} ReleaseExactly(cfg: Config, es: seq<Event>, i: nat, k: nat)
    requires cfg.maxFailures >= 1 && Clocked(es) && i < k <= |es|
    requires TriggeredAt(cfg, es, i) && NoSuccess(es, i, k) && forall j :: i < j < k ==> !TriggeredAt(cfg, es, j)
    ensures SuccessReport(At(cfg, es, k)).releasedLockout <==> !exists j :: i < j < k && Overdue(cfg, es, i, j)
    ensures (!exists j :: i < j < k && Overdue(cfg, es, i, j)) ==> At(cfg, es, k) == At(cfg, es, i + 1)
    decreases k
  {
    hide Step, FailureReport, Streak, Pause;
    TriggerRecord(cfg, es, i);
    if i + 1 < k {
      ReleaseExactly(cfg, es, i, k - 1);
      var a, e := At(cfg, es, k - 1), es[k - 1];
      StreakInvariant(cfg, es, k - 1, e.at);
      assert !TriggeredAt(cfg, es, k - 1);
      if j :| i < j < k - 1 && Overdue(cfg, es, i, j) {
        UnlockedStep(cfg, a, e);
      } else {
        FullStep(cfg, a, e);
        assert Overdue(cfg, es, i, k - 1) ==> exists j :: i < j < k && Overdue(cfg, es, i, j);
      }
    }
  }

  /** Under every configuration there is a lock whose release is never reported. */
  lemma {:induction false} ReleaseLost(cfg: Config)
    requires cfg.maxFailures >= 1
    ensures var es, n := LockThenSweep(cfg, Pause(cfg)), cfg.maxFailures;
            && Clocked(es) && TriggeredAt(cfg, es, n - 1) && NoSuccess(es, n - 1, n + 1)
            && SuccessReport(At(cfg, es, n + 1)) == NO_RELEASE
  {
    Burst(cfg, Pause(cfg), cfg.maxFailures);
    BurstTriggers(cfg, Pause(cfg));
  }

  /** Every release is matched by an earlier trigger since the previous success
      (so distinct releases are matched by distinct triggers). */
  lemma {:induction false} ReleaseHasTrigger(cfg: Config, es: seq<Event>, i: nat) returns (j: nat)
    requires cfg.maxFailures >= 1 && Clocked(es) && i <= |es|
    requires SuccessReport(At(cfg, es, i)).releasedLockout
    ensures j < i && TriggeredAt(cfg, es, j) && NoSuccess(es, j, i)
    decreases i
  {
    StreakInvariant(cfg, es, i - 1, es[i - 1].at);
    if TriggeredAt(cfg, es, i - 1) {
      j := i - 1;
    } else {
      j := ReleaseHasTrigger(cfg, es, i - 1);
    }
  }

  /** One trigger per streak: with no login between them, two triggers are at
      least a pause apart and `maxFailures` counted failures separate them. */
  lemma {:induction false} TriggersApart(cfg: Config, es: seq<Event>, i: nat, j: nat)
    requires cfg.maxFailures >= 1 && Clocked(es) && i < j < |es|
    requires TriggeredAt(cfg, es, i) && TriggeredAt(cfg, es, j) && NoSuccess(es, i, j)
    ensures es[j].at >= es[i].at + Pause(cfg)
    ensures CountBetween(cfg, es, i + 1, j + 1) >= cfg.maxFailures
  {
    SinceTrigger(cfg, es, i, j + 1);
    assert CountedAt(cfg, es, j);
  }

  lemma {:induction false} SinceTrigger(cfg: Config, es: seq<Event>, i: nat, j: nat)
    requires cfg.maxFailures >= 1 && Clocked(es) && i < j <= |es|
    requires TriggeredAt(cfg, es, i) && NoSuccess(es, i, j)
    ensures
      var c := CountBetween(cfg, es, i + 1, j);
      var a := At(cfg, es, j);
      if c == 0 then
        a == At(cfg, es, i + 1) || (a.None? && es[j - 1].at >= es[i].at + Pause(cfg))
      else
        es[j - 1].at >= es[i].at + Pause(cfg) && (a.Some? ==> a.value.failed <= c)
    decreases j
  {
    StreakInvariant(cfg, es, i, es[i].at);
    if i + 1 < j {
      SinceTrigger(cfg, es, i, j - 1);
      StreakInvariant(cfg, es, j - 1, es[j - 1].at);
    }
  }

  // ---------------------------------------------------------------------
  // The whole tracker is one such machine per account
  // ---------------------------------------------------------------------

  /** An operation on the tracker; a sweep touches every account. */
  datatype Request = Request(key: string, event: Event)

  function Apply(cfg: Config, m: map<string, Record>, q: Request): map<string, Record> {
    match q.event.action
    case Failure => m[q.key := AfterFailure(cfg, Lookup(m, q.key), q.event.at)]
    case Success => m - {q.key}
    case Sweep => SweepAll(cfg, m, q.event.at)
    case _ => m
  }

  function ApplyAll(cfg: Config, qs: seq<Request>, k: nat): map<string, Record>
    requires k <= |qs|
  {
    if k == 0 then map[] else Apply(cfg, ApplyAll(cfg, qs, k - 1), qs[k - 1])
  }

  /** A run of the tracker as one account sees it. */
  function View(qs: seq<Request>, key: string): (es: seq<Event>)
    ensures |es| == |qs| && forall i :: 0 <= i < |qs| ==> es[i].at == qs[i].event.at
  {
    seq(|qs|, i requires 0 <= i < |qs| =>
      var e := qs[i].event;
      if qs[i].key == key || e.action.Sweep? then e else Event(e.at, Elsewhere))
  }

  /** Accounts do not interfere: after any run of the tracker, an account's
      record is what its own events and the sweeps produce alone. */
  lemma {:induction false} AccountsIndependent(cfg: Config, qs: seq<Request>, k: nat, key: string)
    requires k <= |qs|
    ensures Lookup(ApplyAll(cfg, qs, k), key) == At(cfg, View(qs, key), k)
    decreases k
  {
    if k > 0 {
      AccountsIndependent(cfg, qs, k - 1, key);
    }
  }
}
