/** Schema migrations, src/db/migrations.ts. The schema is an arbitrary type `S`,
    a migration's `up` is a function on it, `body` is the text of that function,
    and `sha` is the digest. Which transactions fail in a run is an input. */
module Migrations {
  import opened Wrappers
  import opened Decimals

  type Sha = string -> string

  datatype Migration<!S> = Migration(version: int, name: string, checksumSource: Option<string>,
                                     body: string, up: S -> S)

  /** A row of schema_version, without its key and its time of application. */
  datatype Row = Row(name: string, checksum: Option<string>)

  datatype State<S> = State(table: map<int, Row>, schema: S, commits: seq<int>)

  datatype Outcome = Done | Invalid | Refused(version: int) | Failed(version: int)

  function Fingerprint(sha: Sha, version: int, name: string, source: string): string {
    sha(Decimal(version) + "\n" + name + "\n" + source)
  }

  /** The text a checksum covers. */
  function Source<S>(m: Migration<S>): string {
    if m.checksumSource.Some? then m.checksumSource.value else m.body
  }

  function Checksum<S>(sha: Sha, m: Migration<S>): string {
    Fingerprint(sha, m.version, m.name, Source(m))
  }

  function LegacyChecksum<S>(sha: Sha, m: Migration<S>): Option<string> {
    if m.checksumSource.None? then None else Some(Fingerprint(sha, m.version, m.name, m.body))
  }

  /** The row with which a migration is recorded. */
  function RowFor<S>(sha: Sha, m: Migration<S>): Row { Row(m.name, Some(Checksum(sha, m))) }

  /** `assertMigrationsAreValid`: versions are 1, 2, 3, ... */
  predicate ValidList<S>(ms: seq<Migration<S>>) {
    forall i :: 0 <= i < |ms| ==> ms[i].version == i + 1
  }

  /** The row of an applied version is accepted: present in the list, same name,
      and a checksum that is missing, current or legacy. */
  predicate Accepted<S>(sha: Sha, ms: seq<Migration<S>>, v: int, row: Row) {
    && 1 <= v <= |ms| && row.name == ms[v - 1].name
    && (row.checksum.None? || row.checksum.value == Checksum(sha, ms[v - 1])
        || row.checksum == LegacyChecksum(sha, ms[v - 1]))
  }

  predicate AllAccepted<S>(sha: Sha, ms: seq<Migration<S>>, table: map<int, Row>) {
    forall v :: v in table ==> Accepted(sha, ms, v, table[v])
  }

  /** The row with the current checksum of its migration. */
  function Current<S>(sha: Sha, ms: seq<Migration<S>>, v: int, row: Row): Row {
    if 1 <= v <= |ms| then row.(checksum := Some(Checksum(sha, ms[v - 1]))) else row
  }

  /** Rows below `v` brought up to the current checksum. */
  function Upgraded<S>(sha: Sha, ms: seq<Migration<S>>, table: map<int, Row>, v: int): map<int, Row> {
    map u | u in table :: if u < v then Current(sha, ms, u, table[u]) else table[u]
  }

  /** One committed transaction: the migration and its row. */
  function Commit<S>(sha: Sha, m: Migration<S>, st: State<S>): State<S> {
    State(st.table[m.version := RowFor(sha, m)], m.up(st.schema), st.commits + [m.version])
  }

  /** The loop over pending migrations, from index `i`. */
  function Pending<S>(sha: Sha, ms: seq<Migration<S>>, applied: set<int>, fails: set<int>, st: State<S>, i: nat)
    : (r: (State<S>, Outcome))
    requires i <= |ms|
    ensures r.1.Done? || r.1.Failed?
    decreases |ms| - i
  {
    if i == |ms| then (st, Done)
    else if ms[i].version in applied then Pending(sha, ms, applied, fails, st, i + 1)
    else if ms[i].version in fails then (st, Failed(ms[i].version))
    else Pending(sha, ms, applied, fails, Commit(sha, ms[i], st), i + 1)
  }

  /** One call of `runMigrations`. */
  ghost predicate Runs<S(!new)>(sha: Sha, ms: seq<Migration<S>>, fails: set<int>, st: State<S>, st': State<S>,
                                out: Outcome)
  {
    match out
    case Invalid => !ValidList(ms) && st' == st
    case Refused(v) =>
      && ValidList(ms) && v in st.table && !Accepted(sha, ms, v, st.table[v])
      && (forall u :: u in st.table && u < v ==> Accepted(sha, ms, u, st.table[u]))
      && st' == st.(table := Upgraded(sha, ms, st.table, v))
    case _ =>
      && ValidList(ms) && AllAccepted(sha, ms, st.table)
      && (st', out) == Pending(sha, ms, st.table.Keys, fails,
                               st.(table := Upgraded(sha, ms, st.table, |ms| + 1)), 0)
  }

  class Database<S(!new)> {
    var table: map<int, Row>
    var schema: S
    var commits: seq<int>

    constructor (schema: S)
      ensures Contents() == State(map[], schema, [])
    {
      this.schema := schema;
      table, commits := map[], [];
    }

    function Contents(): State<S>
      reads this
    {
      State(table, schema, commits)
    }

    method RunMigrations(sha: Sha, ms: seq<Migration<S>>, fails: set<int>) returns (out: Outcome)
      modifies this
      ensures Runs(sha, ms, fails, old(Contents()), Contents(), out)
    {
      var valid := IsValidList(ms);
      if !valid {
        return Invalid;
      }
      var applied := table.Keys;
      var refused := VerifyApplied(sha, ms);
      if refused.Some? {
        return Refused(refused.value);
      }
      out := ApplyPending(sha, ms, applied, fails);
    }

    /** `verifyAppliedMigrations`, rows in order of version. */
    method VerifyApplied(sha: Sha, ms: seq<Migration<S>>) returns (refused: Option<int>)
      requires ValidList(ms)
      modifies this`table
      ensures refused.None? ==> AllAccepted(sha, ms, old(table)) && table == Upgraded(sha, ms, old(table), |ms| + 1)
      ensures refused.Some? ==>
                var v := refused.value;
                && v in old(table) && !Accepted(sha, ms, v, old(table)[v])
                && (forall u :: u in old(table) && u < v ==> Accepted(sha, ms, u, old(table)[u]))
                && table == Upgraded(sha, ms, old(table), v)
    {
      hide Accepted, Checksum;
      var rest := table.Keys;
      while rest != {}
        invariant rest <= old(table).Keys == table.Keys
        invariant forall u, w :: u in old(table) && u !in rest && w in rest ==> u < w
        invariant forall u :: u in old(table) && u !in rest ==>
                    Accepted(sha, ms, u, old(table)[u]) && table[u] == Current(sha, ms, u, old(table)[u])
        invariant forall u :: u in rest ==> table[u] == old(table)[u]
        decreases rest
      {
        var v := Least(rest);
        var ok, row := CheckRow(sha, ms, v, table[v]);
        if !ok {
          return Some(v);
        }
        table := table[v := row];
        rest := rest - {v};
      }
      AcceptedInRange(sha, ms, old(table));
      return None;
    }

    method ApplyPending(sha: Sha, ms: seq<Migration<S>>, applied: set<int>, fails: set<int>) returns (out: Outcome)
      modifies this
      ensures (Contents(), out) == Pending(sha, ms, applied, fails, old(Contents()), 0)
    {
      var i := 0;
      while i < |ms|
        invariant 0 <= i <= |ms|
        invariant Pending(sha, ms, applied, fails, Contents(), i)
               == Pending(sha, ms, applied, fails, old(Contents()), 0)
      {
        var m := ms[i];
        if m.version !in applied {
          if m.version in fails {
            return Failed(m.version);
          }
          schema := m.up(schema);
          table := table[m.version := Row(m.name, Some(Checksum(sha, m)))];
          commits := commits + [m.version];
        }
        i := i + 1;
      }
      out := Done;
    }
  }

  method IsValidList<S(!new)>(ms: seq<Migration<S>>) returns (valid: bool)
    ensures valid == ValidList(ms)
  {
    for i := 0 to |ms|
      invariant forall j :: 0 <= j < i ==> ms[j].version == j + 1
    {
      if ms[i].version != i + 1 {
        return false;
      }
    }
    return true;
  }

  /** The checks on one applied row, and the row as it is then stored. */
  method CheckRow<S(!new)>(sha: Sha, ms: seq<Migration<S>>, v: int, row: Row) returns (ok: bool, stored: Row)
    ensures ok == Accepted(sha, ms, v, row)
    ensures ok ==> stored == Current(sha, ms, v, row)
  {
    stored := row;
    if !(1 <= v <= |ms|) || row.name != ms[v - 1].name {
      return false, row;
    }
    var expected := Checksum(sha, ms[v - 1]);
    if row.checksum != None && row.checksum.value != expected {
      var legacy := LegacyChecksum(sha, ms[v - 1]);
      if !(legacy != None && row.checksum == legacy) {
        return false, row;
      }
    }
    return true, row.(checksum := Some(expected));
  }

  lemma {:induction false} AcceptedInRange<S>(sha: Sha, ms: seq<Migration<S>>, table: map<int, Row>)
    requires AllAccepted(sha, ms, table)
    ensures forall v :: v in table ==> 1 <= v <= |ms|
  {
    forall v | v in table ensures 1 <= v <= |ms| {
      assert Accepted(sha, ms, v, table[v]);
    }
  }

  lemma {:induction false} HasElement(s: set<int>)
    requires s != {}
    ensures exists x :: x in s
  {
    assert (forall x :: x !in s) ==> s == {};
  }

  method Least(s: set<int>) returns (v: int)
    requires s != {}
    ensures v in s && forall u :: u in s ==> v <= u
  {
    HasElement(s);
    v :| v in s;
    var rest := s - {v};
    while rest != {}
      invariant v in s && rest <= s && forall u :: u in s && u !in rest ==> v <= u
      decreases rest
    {
      HasElement(rest);
      var u :| u in rest;
      if u < v {
        v := u;
      }
      rest := rest - {u};
    }
  }

  // ---------------------------------------------------------------------
  // Any database
  // ---------------------------------------------------------------------

  /** Every migration is applied and recorded with its current checksum, and
      nothing else is. */
  ghost predicate Complete<S>(sha: Sha, ms: seq<Migration<S>>, table: map<int, Row>) {
    forall v :: (v in table <==> 1 <= v <= |ms|) && (v in table ==> table[v] == RowFor(sha, ms[v - 1]))
  }

  lemma {:induction false} PendingRecords<S>(sha: Sha, ms: seq<Migration<S>>, applied: set<int>, fails: set<int>,
                                             st: State<S>, i: nat, v: int)
    requires ValidList(ms) && i <= |ms|
    ensures var (t, out) := Pending(sha, ms, applied, fails, st, i);
            && (v <= i || v > |ms| || v in applied ==>
                  (v in t.table <==> v in st.table) && (v in st.table ==> t.table[v] == st.table[v]))
            && (out.Done? && i < v <= |ms| && v !in applied ==> v in t.table && t.table[v] == RowFor(sha, ms[v - 1]))
    decreases |ms| - i
  {
    hide Checksum;
    if i < |ms| {
      if ms[i].version in applied {
        PendingRecords(sha, ms, applied, fails, st, i + 1, v);
      } else if ms[i].version !in fails {
        PendingRecords(sha, ms, applied, fails, Commit(sha, ms[i], st), i + 1, v);
      }
    }
  }

  lemma {:induction false} DoneIsComplete<S(!new)>(sha: Sha, ms: seq<Migration<S>>, fails: set<int>,
                                                   st: State<S>, st': State<S>)
    requires Runs(sha, ms, fails, st, st', Done)
    ensures Complete(sha, ms, st'.table)
  {
    hide Checksum, Pending;
    var applied, upgraded := st.table.Keys, Upgraded(sha, ms, st.table, |ms| + 1);
    forall v
      ensures (v in st'.table <==> 1 <= v <= |ms|) && (v in st'.table ==> st'.table[v] == RowFor(sha, ms[v - 1]))
    {
      PendingRecords(sha, ms, applied, fails, st.(table := upgraded), 0, v);
      assert v in applied ==> Accepted(sha, ms, v, st.table[v]);
    }
  }

  lemma {:induction false} NothingPending<S>(sha: Sha, ms: seq<Migration<S>>, applied: set<int>, fails: set<int>,
                                             st: State<S>, i: nat)
    requires i <= |ms| && forall j :: 0 <= j < |ms| ==> ms[j].version in applied
    ensures Pending(sha, ms, applied, fails, st, i) == (st, Done)
    decreases |ms| - i
  {
    if i < |ms| {
      NothingPending(sha, ms, applied, fails, st, i + 1);
    }
  }

  lemma {:induction false} CompleteIsCurrent<S>(sha: Sha, ms: seq<Migration<S>>, table: map<int, Row>)
    requires Complete(sha, ms, table)
    ensures AllAccepted(sha, ms, table) && Upgraded(sha, ms, table, |ms| + 1) == table
  {
    hide Checksum;
    forall v | v in table ensures Current(sha, ms, v, table[v]) == table[v] {
    }
  }

  /** A run after a finished run executes nothing and changes nothing, whatever
      database the first one started from. */
  lemma {:induction false} SecondRunIsNoOp<S(!new)>(sha: Sha, ms: seq<Migration<S>>, fails: set<int>, st: State<S>,
      st': State<S>, fails': set<int>, st'': State<S>, out: Outcome)
    requires Runs(sha, ms, fails, st, st', Done) && Runs(sha, ms, fails', st', st'', out)
    ensures out == Done && st'' == st'
  {
    hide Pending, Upgraded, Accepted;
    DoneIsComplete(sha, ms, fails, st, st');
    CompleteIsCurrent(sha, ms, st'.table);
    NothingPending(sha, ms, st'.table.Keys, fails', st', 0);
  }

  /** One unaccepted row stops the run before any pending migration: the schema,
      the commits and the set of applied versions are untouched. */
  lemma {:induction false} MismatchStops<S(!new)>(sha: Sha, ms: seq<Migration<S>>, fails: set<int>, st: State<S>,
      st': State<S>, out: Outcome, v: int)
    requires Runs(sha, ms, fails, st, st', out) && ValidList(ms)
    requires v in st.table && !Accepted(sha, ms, v, st.table[v])
    ensures out.Refused? && out.version <= v
    ensures st'.schema == st.schema && st'.commits == st.commits && st'.table.Keys == st.table.Keys
  {
    hide Pending, Accepted;
  }

  // ---------------------------------------------------------------------
  // From an empty database, through any failures and restarts
  // ---------------------------------------------------------------------

  function Built<S>(ms: seq<Migration<S>>, schema: S, k: nat): S
    requires k <= |ms|
  {
    if k == 0 then schema else ms[k - 1].up(Built(ms, schema, k - 1))
  }

  function UpTo(k: nat): (vs: seq<int>)
    ensures |vs| == k
  {
    if k == 0 then [] else UpTo(k - 1) + [k]
  }

  /** The migration with version `v` of a valid list. */
  function ByVersion<S>(ms: seq<Migration<S>>, v: int): Migration<S>
    requires 1 <= v <= |ms|
  {
    ms[v - 1]
  }

  /** Exactly the first `k` migrations are recorded, each committed once, in order. */
  ghost predicate Recorded<S(!new)>(sha: Sha, ms: seq<Migration<S>>, st: State<S>, k: nat) {
    && k <= |ms| && st.commits == UpTo(k)
    && st.table == map v | 1 <= v <= k :: RowFor(sha, ByVersion(ms, v))
  }

  /** And the schema is the one they build. */
  ghost predicate Applied<S(!new)>(sha: Sha, ms: seq<Migration<S>>, schema: S, st: State<S>, k: nat) {
    Recorded(sha, ms, st, k) && st.schema == Built(ms, schema, k)
  }

  lemma {:induction false} PendingApplies<S(!new)>(sha: Sha, ms: seq<Migration<S>>, schema: S, applied: set<int>,
      fails: set<int>, st: State<S>, k: nat, i: nat) returns (n: nat)
    requires ValidList(ms) && i <= |ms| && (forall v :: v in applied <==> 1 <= v <= k)
    requires Recorded(sha, ms, st, if i < k then k else i)
    ensures var (t, out) := Pending(sha, ms, applied, fails, st, i);
            && Recorded(sha, ms, t, n)
            && (st.schema == Built(ms, schema, if i < k then k else i) ==> t.schema == Built(ms, schema, n))
            && (out.Done? ==> n == |ms|) && (out.Failed? ==> out.version == n + 1 && n + 1 in fails)
    decreases |ms| - i
  {
    hide Checksum, Recorded;
    assert k <= |ms| by {
      InRange(sha, ms, st, if i < k then k else i);
    }
    if i == |ms| {
      n := |ms|;
    } else if i < k {
      assert ms[i].version in applied;
      n := PendingApplies(sha, ms, schema, applied, fails, st, k, i + 1);
    } else if ms[i].version in fails {
      n := i;
    } else {
      CommitRecords(sha, ms, st, i);
      n := PendingApplies(sha, ms, schema, applied, fails, Commit(sha, ms[i], st), k, i + 1);
    }
  }

  lemma {:induction false} InRange<S(!new)>(sha: Sha, ms: seq<Migration<S>>, st: State<S>, k: nat)
    requires Recorded(sha, ms, st, k)
    ensures k <= |ms| && |st.commits| == k
  {
  }

  lemma {:induction false} CommitRecords<S(!new)>(sha: Sha, ms: seq<Migration<S>>, st: State<S>, i: nat)
    requires ValidList(ms) && i < |ms| && Recorded(sha, ms, st, i)
    ensures Recorded(sha, ms, Commit(sha, ms[i], st), i + 1)
  {
    hide Checksum;
  }

  /** The checksum recorded for `a` is the current or the legacy one of `b`. */
  predicate SameSource<S>(a: Migration<S>, b: Migration<S>) {
    Source(a) == Source(b) || (b.checksumSource.Some? && Source(a) == b.body)
  }

  /** A release that keeps the names and recorded sources of the first `k`
      migrations. It may add a source, edit a body under one, and do anything to
      the migrations after them. */
  ghost predicate Compatible<S(!new)>(a: seq<Migration<S>>, b: seq<Migration<S>>, k: nat) {
    && k <= |a| && k <= |b|
    && forall i :: 0 <= i < k ==>
         a[i].version == b[i].version && a[i].name == b[i].name && SameSource(a[i], b[i])
  }

  ghost predicate SameEffects<S(!new)>(a: seq<Migration<S>>, b: seq<Migration<S>>, k: nat) {
    && k <= |a| && k <= |b|
    && forall i :: 0 <= i < k ==> a[i].up == b[i].up
  }

  lemma {:induction false} SameEffectsBuild<S(!new)>(a: seq<Migration<S>>, b: seq<Migration<S>>, schema: S, k: nat)
    requires SameEffects(a, b, k)
    ensures Built(a, schema, k) == Built(b, schema, k)
    decreases k
  {
    if k > 0 {
      SameEffectsBuild(a, b, schema, k - 1);
    }
  }

  /** Verification accepts what an earlier release applied and brings every
      checksum up to date. */
  lemma {:induction false} UpgradeApplies<S(!new)>(sha: Sha, a: seq<Migration<S>>, b: seq<Migration<S>>,
                                                   st: State<S>, k: nat)
    requires Compatible(a, b, k) && Recorded(sha, a, st, k)
    ensures AllAccepted(sha, b, st.table)
    ensures Recorded(sha, b, st.(table := Upgraded(sha, b, st.table, |b| + 1)), k)
  {
    hide Fingerprint;
    forall v | v in st.table ensures Accepted(sha, b, v, st.table[v]) {
      assert a[v - 1].name == b[v - 1].name;
    }
  }

  lemma {:induction false} ResumedRun<S(!new)>(sha: Sha, a: seq<Migration<S>>, b: seq<Migration<S>>, schema: S,
      fails: set<int>, st: State<S>, k: nat, st': State<S>, out: Outcome) returns (n: nat)
    requires ValidList(b) && Compatible(a, b, k) && Recorded(sha, a, st, k) && Runs(sha, b, fails, st, st', out)
    ensures Recorded(sha, b, st', n)
    ensures st.schema == Built(b, schema, k) ==> st'.schema == Built(b, schema, n)
    ensures (out.Done? && n == |b|) || (out == Failed(n + 1) && n + 1 in fails)
  {
    hide Pending, Checksum, LegacyChecksum;
    UpgradeApplies(sha, a, b, st, k);
    n := PendingApplies(sha, b, schema, st.table.Keys, fails,
                        st.(table := Upgraded(sha, b, st.table, |b| + 1)), k, 0);
  }

  /** One start of the server: its migrations and the transactions that fail. */
  datatype Deployment<!S> = Deployment(ms: seq<Migration<S>>, fails: set<int>)

  /** `sts[k]` is the database after the first `k` deployments; each is compatible
      with its predecessor as far as that had come. */
  ghost predicate History<S(!new)>(sha: Sha, schema: S, ds: seq<Deployment<S>>, sts: seq<State<S>>,
                                   outs: seq<Outcome>, k: nat)
    requires k <= |ds| && |sts| == |ds| + 1 && |outs| == |ds|
  {
    if k == 0 then sts[0] == State(map[], schema, [])
    else
      && History(sha, schema, ds, sts, outs, k - 1) && ValidList(ds[k - 1].ms)
      && (k > 1 ==> Compatible(ds[k - 2].ms, ds[k - 1].ms, |sts[k - 1].commits|))
      && Runs(sha, ds[k - 1].ms, ds[k - 1].fails, sts[k - 1], sts[k], outs[k - 1])
  }

  /** No deployment changed what an applied migration does. */
  ghost predicate EffectsKept<S(!new)>(ds: seq<Deployment<S>>, sts: seq<State<S>>, k: nat)
    requires k <= |ds| && |sts| == |ds| + 1
  {
    k <= 1 || (EffectsKept(ds, sts, k - 1) && SameEffects(ds[k - 2].ms, ds[k - 1].ms, |sts[k - 1].commits|))
  }

  /** After any pattern of failures and restarts the applied versions are a
      prefix 1..n, each committed exactly once; a run is never refused, and it
      stops short only at a migration that failed. The schema is what the applied
      migrations build if none of them changed its effect. */
  lemma {:induction false} CrashesLeavePrefix<S(!new)>(sha: Sha, schema: S, ds: seq<Deployment<S>>, sts: seq<State<S>>,
      outs: seq<Outcome>, k: nat) returns (n: nat)
    requires 0 < k <= |ds| && |sts| == |ds| + 1 && |outs| == |ds| && History(sha, schema, ds, sts, outs, k)
    ensures Recorded(sha, ds[k - 1].ms, sts[k], n)
    ensures EffectsKept(ds, sts, k) ==> Applied(sha, ds[k - 1].ms, schema, sts[k], n)
    ensures (outs[k - 1].Done? && n == |ds[k - 1].ms|) || (outs[k - 1] == Failed(n + 1) && n + 1 in ds[k - 1].fails)
    decreases k
  {
    hide Runs, Recorded, Compatible, SameEffects;
    var d := ds[k - 1];
    if k == 1 {
      EmptyRecorded(sha, d.ms, schema);
      n := ResumedRun(sha, d.ms, d.ms, schema, d.fails, sts[0], 0, sts[1], outs[0]);
    } else {
      var m := CrashesLeavePrefix(sha, schema, ds, sts, outs, k - 1);
      InRange(sha, ds[k - 2].ms, sts[k - 1], m);
      if EffectsKept(ds, sts, k) {
        SameEffectsBuild(ds[k - 2].ms, d.ms, schema, m);
      }
      n := ResumedRun(sha, ds[k - 2].ms, d.ms, schema, d.fails, sts[k - 1], m, sts[k], outs[k - 1]);
    }
    InRange(sha, d.ms, sts[k], n);
  }

  lemma {:induction false} EmptyRecorded<S(!new)>(sha: Sha, ms: seq<Migration<S>>, schema: S)
    ensures Recorded(sha, ms, State(map[], schema, []), 0) && Compatible(ms, ms, 0)
  {
  }

  /** Once a run finishes, the database is exactly what one uninterrupted run on
      an empty database would have produced. */
  lemma {:induction false} SameAsUninterrupted<S(!new)>(sha: Sha, schema: S, ds: seq<Deployment<S>>, sts: seq<State<S>>,
      outs: seq<Outcome>, k: nat, clean: State<S>, out: Outcome)
    requires 0 < k <= |ds| && |sts| == |ds| + 1 && |outs| == |ds| && History(sha, schema, ds, sts, outs, k)
    requires outs[k - 1].Done?
    requires Runs(sha, ds[k - 1].ms, {}, State(map[], schema, []), clean, out)
    ensures out == Done && clean.table == sts[k].table && clean.commits == sts[k].commits
    ensures EffectsKept(ds, sts, k) ==> clean == sts[k]
  {
    hide Runs, Compatible, SameEffects, Checksum;
    var ms := ds[k - 1].ms;
    var n := CrashesLeavePrefix(sha, schema, ds, sts, outs, k);
    EmptyRecorded(sha, ms, schema);
    var m := ResumedRun(sha, ms, ms, schema, {}, State(map[], schema, []), 0, clean, out);
  }

  // --- Editing an applied migration -----------------------------------------

  ghost predicate CollisionFree(sha: Sha) {
    forall a, b :: sha(a) == sha(b) ==> a == b
  }

  lemma {:induction false} DecimalIsOneLine(n: int)
    ensures forall i :: 0 <= i < |Decimal(n)| ==> Decimal(n)[i] != '\n'
  {
    hide Digits;
    DigitsAreDigits(if n < 0 then -n else n);
  }

  /** Two fingerprints are equal exactly when the versions are and the names and
      sources, joined by a newline, are; with one-line names, when all three are. */
  lemma {:induction false} FingerprintsEqualExactly(sha: Sha, v: int, name: string, source: string,
                                                    v': int, name': string, source': string)
    requires CollisionFree(sha)
    ensures Fingerprint(sha, v, name, source) == Fingerprint(sha, v', name', source')
       <==> v == v' && name + "\n" + source == name' + "\n" + source'
    ensures '\n' !in name && '\n' !in name' ==>
              (name + "\n" + source == name' + "\n" + source' <==> name == name' && source == source')
  {
    hide Decimal;
    DecimalIsOneLine(v);
    DecimalIsOneLine(v');
    var a, b := name + "\n" + source, name' + "\n" + source';
    assert Decimal(v) + "\n" + name + "\n" + source == Decimal(v) + "\n" + a;
    assert Decimal(v') + "\n" + name' + "\n" + source' == Decimal(v') + "\n" + b;
    SplitLine(Decimal(v), a, Decimal(v'), b);
    if Decimal(v) == Decimal(v') {
      DecimalInjective(v, v');
    }
    if '\n' !in name && '\n' !in name' {
      SplitLine(name, source, name', source');
    }
  }

  lemma {:induction false} SplitLine(x: string, a: string, y: string, b: string)
    requires '\n' !in x && '\n' !in y
    ensures x + "\n" + a == y + "\n" + b <==> x == y && a == b
  {
    var s, t := x + "\n" + a, y + "\n" + b;
    if s == t {
      assert s[|x|] == '\n' && t[|y|] == '\n';
      assert forall i :: 0 <= i < |x| ==> s[i] == x[i];
      assert forall i :: 0 <= i < |y| ==> t[i] == y[i];
      assert |x| == |y|;
      assert x == s[..|x|] && y == t[..|x|];
      assert a == s[|x| + 1..] && b == t[|x| + 1..];
    }
  }

  lemma {:induction false} SourceFixed(sha: Sha, version: int, name: string, a: string, b: string)
    requires CollisionFree(sha)
    ensures Fingerprint(sha, version, name, a) == Fingerprint(sha, version, name, b) <==> a == b
  {
    hide Decimal;
    var head := Decimal(version) + "\n" + name + "\n";
    assert (head + a)[|head|..] == a && (head + b)[|head|..] == b;
  }

  /** A row of migration `m`, which may be older than checksums. */
  predicate RowOf<S>(sha: Sha, m: Migration<S>, row: Row) {
    row == RowFor(sha, m) || row == Row(m.name, None)
  }

  /** With a collision-free digest, the row of migration `m` is accepted by a
      later release exactly when the release lists its version under its name and,
      if the row has a checksum, the source it was taken from is the release's
      source, or its body where it declares a source. */
  lemma {:induction false} EditRefusedExactly<S(!new)>(sha: Sha, m: Migration<S>, b: seq<Migration<S>>, row: Row)
    requires CollisionFree(sha) && ValidList(b) && RowOf(sha, m, row)
    ensures Accepted(sha, b, m.version, row)
       <==> && 1 <= m.version <= |b| && m.name == b[m.version - 1].name
            && (row.checksum.None? || SameSource(m, b[m.version - 1]))
  {
    hide Fingerprint;
    if 1 <= m.version <= |b| && m.name == b[m.version - 1].name {
      var m' := b[m.version - 1];
      SourceFixed(sha, m.version, m.name, Source(m), Source(m'));
      SourceFixed(sha, m.version, m.name, Source(m), m'.body);
    }
  }

  /** A release is refused on a database that an earlier one left behind exactly
      when it is not compatible with what that one applied. */
  lemma {:induction false} RefusedExactly<S(!new)>(sha: Sha, a: seq<Migration<S>>, b: seq<Migration<S>>,
      fails: set<int>, st: State<S>, k: nat, st': State<S>, out: Outcome)
    requires CollisionFree(sha) && ValidList(a) && ValidList(b) && Recorded(sha, a, st, k)
    requires Runs(sha, b, fails, st, st', out)
    ensures out.Refused? <==> !Compatible(a, b, k)
    ensures out.Refused? ==> st'.schema == st.schema && st'.commits == st.commits
  {
    hide Accepted, Checksum, Pending;
    if Compatible(a, b, k) {
      UpgradeApplies(sha, a, b, st, k);
    } else {
      var v := Culprit(a, b, k);
      assert st.table[v] == RowFor(sha, a[v - 1]);
      EditRefusedExactly(sha, a[v - 1], b, st.table[v]);
      MismatchStops(sha, b, fails, st, st', out, v);
    }
  }

  lemma {:induction false} Culprit<S(!new)>(a: seq<Migration<S>>, b: seq<Migration<S>>, k: nat) returns (v: int)
    requires ValidList(a) && ValidList(b) && k <= |a| && !Compatible(a, b, k)
    ensures 1 <= v <= k
    ensures v > |b| || a[v - 1].name != b[v - 1].name || !SameSource(a[v - 1], b[v - 1])
  {
    hide SameSource;
    if k > |b| {
      v := k;
    } else {
      var i :| 0 <= i < k && !(a[i].name == b[i].name && SameSource(a[i], b[i]));
      v := i + 1;
    }
  }

  /** So an applied migration without a checksum source can change neither its
      text nor, with it, its effect unnoticed. */
  lemma {:induction false} BareEditRefused<S(!new)>(sha: Sha, a: seq<Migration<S>>, b: seq<Migration<S>>,
      fails: set<int>, st: State<S>, k: nat, v: int, st': State<S>, out: Outcome)
    requires CollisionFree(sha) && ValidList(a) && ValidList(b) && Recorded(sha, a, st, k) && 1 <= v <= k && v <= |b|
    requires b[v - 1].checksumSource.None? && Source(a[v - 1]) != b[v - 1].body
    requires Runs(sha, b, fails, st, st', out)
    ensures out.Refused? && st'.schema == st.schema && st'.commits == st.commits
  {
    hide Accepted, Runs;
    RefusedExactly(sha, a, b, fails, st, k, st', out);
    assert !SameSource(a[v - 1], b[v - 1]);
  }

  const ORIGINAL: Migration<int> := Migration(1, "m", Some("ddl"), "x => x + 1", x => x + 1)
  const EDITED: Migration<int> := Migration(1, "m", Some("ddl"), "x => x + 2", x => x + 2)

  /** The promise that editing an applied migration fails fast is broken under a
      checksum source: body and effect change, the run succeeds, executes nothing,
      and leaves a schema the release's own migrations would not build. */
  lemma {:induction false} EditUnderSourceUnnoticed(sha: Sha) returns (st: State<int>)
    ensures Applied(sha, [ORIGINAL], 0, st, 1) && ORIGINAL.body != EDITED.body
    ensures Runs(sha, [EDITED], {}, st, st, Done)
    ensures st.schema != Built([EDITED], 0, 1)
  {
    hide Fingerprint;
    st := State(map v | 1 <= v <= 1 :: RowFor(sha, ByVersion([ORIGINAL], v)), 1, [1]);
    assert Built([ORIGINAL], 0, 1) == [ORIGINAL][0].up(Built([ORIGINAL], 0, 0)) == 1;
    assert Built([EDITED], 0, 1) == [EDITED][0].up(Built([EDITED], 0, 0)) == 2;
    assert UpTo(1) == UpTo(0) + [1] == [1];
    assert "x => x + 1"[9] != "x => x + 2"[9];
    assert Upgraded(sha, [EDITED], st.table, 2) == st.table;
    NothingPending(sha, [EDITED], st.table.Keys, {}, st, 0);
  }
}
