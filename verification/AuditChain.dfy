/** The tamper-evident audit log: the in-memory store of src/audit/store.ts and
    the SQLite repository of src/audit/sqliteRepository.ts.

    SHA-256 over the serialised entry is a parameter `h`, assumed collision free
    and never equal to the sentinel; metadata is its JSON text. */
module AuditChain {
  import opened Wrappers
  import opened CodeUnits

  const GENESIS_HASH := "GENESIS"

  /** The fields the hash covers, apart from the link to the previous entry. */
  datatype Content = Content(id: string, timestamp: Text, action: string, severity: string, actor: string,
                             resource: string, resourceId: string, metadata: string,
                             ipAddress: Option<string>, correlationId: Option<string>)

  datatype Entry = Entry(content: Content, previousHash: string, hash: string)

  type Hash = (Content, string) -> string

  ghost predicate CollisionFree(h: Hash) {
    && (forall a, p, b, q :: h(a, p) == h(b, q) ==> a == b && p == q)
    && (forall a, p :: h(a, p) != GENESIS_HASH)
  }

  function LinkFor(log: seq<Entry>, i: nat): string
    requires i <= |log|
  {
    if i == 0 then GENESIS_HASH else log[i - 1].hash
  }

  /** Entry `i` is linked to its predecessor and carries its own hash. */
  predicate Sound(h: Hash, log: seq<Entry>, i: nat)
    requires i < |log|
  {
    log[i].previousHash == LinkFor(log, i) && log[i].hash == h(log[i].content, log[i].previousHash)
  }

  predicate Verifies(h: Hash, log: seq<Entry>) {
    forall i :: 0 <= i < |log| ==> Sound(h, log, i)
  }

  /** The entry `append` builds on top of a log. */
  function Sealed(h: Hash, log: seq<Entry>, c: Content): Entry {
    Entry(c, LinkFor(log, |log|), h(c, LinkFor(log, |log|)))
  }

  datatype Report = Valid(totalEntries: nat) | Corrupted(totalEntries: nat, index: nat, id: string)

  /** What an integrity report must say of a log. */
  ghost predicate Diagnoses(h: Hash, log: seq<Entry>, r: Report) {
    && r.totalEntries == |log|
    && (r.Valid? ==> Verifies(h, log))
    && (r.Corrupted? ==>
          && r.index < |log| && r.id == log[r.index].content.id && !Sound(h, log, r.index)
          && forall j :: 0 <= j < r.index ==> Sound(h, log, j))
  }

  class AuditStore {
    const h: Hash
    var log: seq<Entry>
    var appendGuard: bool

    constructor (h: Hash)
      ensures this.h == h && log == [] && !appendGuard
    {
      this.h := h;
      log, appendGuard := [], false;
    }

    /** `c` holds the input with the generated id and timestamp. */
    method Append(c: Content) returns (r: Result<Entry, string>)
      modifies this
      ensures appendGuard == old(appendGuard)
      ensures old(appendGuard) ==> r.Err? && log == old(log)
      ensures !old(appendGuard) ==> r == Ok(Sealed(h, old(log), c)) && log == old(log) + [r.value]
    {
      if appendGuard {
        return Err("AuditStore append re-entrancy detected");
      }
      appendGuard := true;
      var previousHash := if |log| == 0 then GENESIS_HASH else log[|log| - 1].hash;
      var entry := Entry(c, previousHash, h(c, previousHash));
      log := log + [entry];
      appendGuard := false;
      r := Ok(entry);
    }

    method VerifyIntegrity() returns (r: Report)
      ensures Diagnoses(h, log, r)
    {
      for i := 0 to |log|
        invariant forall j :: 0 <= j < i ==> Sound(h, log, j)
      {
        var entry := log[i];
        var expectedPreviousHash := if i == 0 then GENESIS_HASH else log[i - 1].hash;
        if entry.previousHash != expectedPreviousHash {
          return Corrupted(|log|, i, entry.content.id);
        }
        if entry.hash != h(entry.content, entry.previousHash) {
          return Corrupted(|log|, i, entry.content.id);
        }
      }
      r := Valid(|log|);
    }
  }

  /** A row of audit_log_entries with its AUTOINCREMENT key. */
  datatype Row = Row(key: nat, entry: Entry)

  function Entries(rows: seq<Row>): (es: seq<Entry>)
    ensures |es| == |rows| && forall i :: 0 <= i < |rows| ==> es[i] == rows[i].entry
  {
    seq(|rows|, i requires 0 <= i < |rows| => rows[i].entry)
  }

  /** Rows in key order, keys positive, ids unique. */
  ghost predicate WellKeyed(rows: seq<Row>) {
    && (forall i :: 0 <= i < |rows| ==> rows[i].key > 0)
    && (forall i, j :: 0 <= i < j < |rows| ==>
          rows[i].key < rows[j].key && rows[i].entry.content.id != rows[j].entry.content.id)
  }

  /** `last` is the highest key the table has handed out. */
  ghost predicate KeyedUpTo(rows: seq<Row>, last: nat) {
    WellKeyed(rows) && forall i :: 0 <= i < |rows| ==> rows[i].key <= last
  }

  lemma {:induction false} RowAppended(rows: seq<Row>, last: nat, e: Entry)
    requires KeyedUpTo(rows, last) && forall i :: 0 <= i < |rows| ==> rows[i].entry.content.id != e.content.id
    ensures KeyedUpTo(rows + [Row(last + 1, e)], last + 1)
    ensures Entries(rows + [Row(last + 1, e)]) == Entries(rows) + [e]
  {
  }

  class SqliteAuditRepository {
    const h: Hash
    var rows: seq<Row>
    var lastSeq: nat

    constructor (h: Hash)
      ensures this.h == h && rows == [] && Keyed()
    {
      this.h := h;
      rows, lastSeq := [], 0;
    }

    ghost predicate Keyed()
      reads this
    {
      KeyedUpTo(rows, lastSeq)
    }

    /** One transaction; a repeated id violates UNIQUE and rolls it back. */
    method Append(c: Content) returns (r: Result<Entry, string>)
      requires Keyed()
      modifies this
      ensures Keyed()
      ensures r.Err? <==> exists i :: 0 <= i < |old(rows)| && old(rows)[i].entry.content.id == c.id
      ensures r.Err? ==> rows == old(rows)
      ensures r.Ok? ==> r.value == Sealed(h, Entries(old(rows)), c)
                        && old(rows) <= rows && Entries(rows) == Entries(old(rows)) + [r.value]
    {
      var taken := HasId(c.id);
      if taken {
        return Err("UNIQUE constraint failed: audit_log_entries.id");
      }
      var previousHash := if |rows| > 0 then rows[|rows| - 1].entry.hash else GENESIS_HASH;
      var entry := Entry(c, previousHash, h(c, previousHash));
      hide KeyedUpTo;
      RowAppended(rows, lastSeq, entry);
      lastSeq := lastSeq + 1;
      rows := rows + [Row(lastSeq, entry)];
      r := Ok(entry);
    }

    method HasId(id: string) returns (found: bool)
      ensures found <==> exists i :: 0 <= i < |rows| && rows[i].entry.content.id == id
    {
      for i := 0 to |rows|
        invariant forall j :: 0 <= j < i ==> rows[j].entry.content.id != id
      {
        if rows[i].entry.content.id == id {
          return true;
        }
      }
      return false;
    }

    method VerifyIntegrity() returns (r: Report)
      ensures Diagnoses(h, Entries(rows), r)
    {
      var previousHash := GENESIS_HASH;
      for i := 0 to |rows|
        invariant previousHash == LinkFor(Entries(rows), i)
        invariant forall j :: 0 <= j < i ==> Sound(h, Entries(rows), j)
      {
        var entry := rows[i].entry;
        if entry.previousHash != previousHash {
          return Corrupted(|rows|, i, entry.content.id);
        }
        if entry.hash != h(entry.content, entry.previousHash) {
          return Corrupted(|rows|, i, entry.content.id);
        }
        previousHash := entry.hash;
      }
      r := Valid(|rows|);
    }
  }

  /** A report is determined by the log, so the two verifiers agree on it. */
  lemma {:induction false} VerifiersAgree(h: Hash, log: seq<Entry>, memory: Report, sqlite: Report)
    requires Diagnoses(h, log, memory) && Diagnoses(h, log, sqlite)
    ensures memory == sqlite
  {
    if memory.Corrupted? && sqlite.Corrupted? {
      assert memory.index == sqlite.index;
    }
  }

  /** Appending keeps a log verifiable. */
  lemma {:induction false} AppendVerifies(h: Hash, log: seq<Entry>, c: Content)
    ensures Verifies(h, log + [Sealed(h, log, c)]) <==> Verifies(h, log)
  {
    var longer := log + [Sealed(h, log, c)];
    forall i | 0 <= i < |log| ensures Sound(h, longer, i) <==> Sound(h, log, i) {
    }
    assert Sound(h, longer, |log|);
  }

  /** No two entries of a verifying log have the same hash. */
  lemma {:induction false} HashesDistinct(h: Hash, log: seq<Entry>, i: nat, j: nat)
    requires CollisionFree(h) && Verifies(h, log) && i < j < |log|
    ensures log[i].hash != log[j].hash
    decreases i
  {
    assert Sound(h, log, i) && Sound(h, log, j) && Sound(h, log, j - 1);
    if i > 0 {
      HashesDistinct(h, log, i - 1, j - 1);
    }
  }

  lemma {:induction false} OnlyFirstLinksToGenesis(h: Hash, log: seq<Entry>, i: nat)
    requires CollisionFree(h) && Verifies(h, log) && i <= |log|
    ensures LinkFor(log, i) == GENESIS_HASH <==> i == 0
  {
    if i > 0 {
      assert Sound(h, log, i - 1);
    }
  }

  /** In verifying logs an entry's hash fixes the whole history before it. */
  lemma {:induction false} HashFixesHistory(h: Hash, a: seq<Entry>, i: nat, b: seq<Entry>, j: nat)
    requires CollisionFree(h) && Verifies(h, a) && Verifies(h, b)
    requires i < |a| && j < |b| && a[i].hash == b[j].hash
    ensures i == j && a[..i + 1] == b[..j + 1]
    decreases i
  {
    assert Sound(h, a, i) && Sound(h, b, j);
    assert a[i] == b[j];
    OnlyFirstLinksToGenesis(h, a, i);
    OnlyFirstLinksToGenesis(h, b, j);
    if i > 0 {
      HashFixesHistory(h, a, i - 1, b, j - 1);
      assert a[..i + 1] == a[..i] + [a[i]] && b[..j + 1] == b[..j] + [b[j]];
    }
  }

  /** Two verifying logs with the same final hash are identical. */
  lemma {:induction false} SameHeadSameLog(h: Hash, a: seq<Entry>, b: seq<Entry>)
    requires CollisionFree(h) && Verifies(h, a) && Verifies(h, b)
    requires a != [] && b != [] && a[|a| - 1].hash == b[|b| - 1].hash
    ensures a == b
  {
    HashFixesHistory(h, a, |a| - 1, b, |b| - 1);
    assert a[..|a|] == a && b[..|b|] == b;
  }

  /** A sequence made only from entries of a verifying log, dropping, repeating
      or reordering them at will, verifies exactly when it is a prefix. */
  lemma {:induction false} OnlyPrefixesVerify(h: Hash, log: seq<Entry>, other: seq<Entry>)
    requires CollisionFree(h) && Verifies(h, log) && forall e :: e in other ==> e in log
    ensures Verifies(h, other) <==> other <= log
  {
    if other <= log {
      forall i | 0 <= i < |other| ensures Sound(h, other, i) {
        assert Sound(h, log, i);
      }
    }
    if Verifies(h, other) && other != [] {
      var n := |other| - 1;
      assert other[n] in log;
      var m :| 0 <= m < |log| && log[m] == other[n];
      HashFixesHistory(h, other, n, log, m);
      assert other == other[..n + 1];
    }
  }

  function CommonPrefix(a: seq<Entry>, b: seq<Entry>): (n: nat)
    ensures n <= |a| && n <= |b| && a[..n] == b[..n]
    ensures n < |a| && n < |b| ==> a[n] != b[n]
  {
    if a == [] || b == [] || a[0] != b[0] then 0
    else
      var m := CommonPrefix(a[1..], b[1..]);
      assert a[..1 + m] == [a[0]] + a[1..][..m] && b[..1 + m] == [b[0]] + b[1..][..m];
      1 + m
  }

  lemma {:induction false} SharedPast(h: Hash, a: seq<Entry>, i: nat, b: seq<Entry>, j: nat, n: nat)
    requires CollisionFree(h) && Verifies(h, a) && Verifies(h, b) && i < |a| && n <= j < |b|
    ensures a[i].hash == b[j].hash ==> n < |a| && a[n] == b[n]
  {
    if a[i].hash == b[j].hash {
      HashFixesHistory(h, a, i, b, j);
      assert a[..i + 1][n] == a[n] && b[..j + 1][n] == b[n];
    }
  }

  /** Sealing any contents on top of a log. */
  function Resealed(h: Hash, log: seq<Entry>, cs: seq<Content>): seq<Entry> {
    if cs == [] then log
    else
      var front := Resealed(h, log, cs[..|cs| - 1]);
      front + [Sealed(h, front, cs[|cs| - 1])]
  }

  /** Keep any prefix of a log, put any contents after it and seal them again. */
  lemma {:induction false} ResealingUndetected(h: Hash, log: seq<Entry>, n: nat, cs: seq<Content>)
    requires Verifies(h, log) && n <= |log|
    ensures Verifies(h, Resealed(h, log[..n], cs)) && |Resealed(h, log[..n], cs)| == n + |cs|
    decreases |cs|
  {
    if cs == [] {
      forall i | 0 <= i < n ensures Sound(h, log[..n], i) {
        assert Sound(h, log, i);
      }
    } else {
      ResealingUndetected(h, log, n, cs[..|cs| - 1]);
      AppendVerifies(h, Resealed(h, log[..n], cs[..|cs| - 1]), cs[|cs| - 1]);
    }
  }

  /** The contents of the entries n..m. */
  function ContentsFrom(log: seq<Entry>, n: nat, m: nat): seq<Content>
    requires n <= m <= |log|
  {
    if n == m then [] else ContentsFrom(log, n, m - 1) + [log[m - 1].content]
  }

  lemma {:induction false} ResealedStep(h: Hash, log: seq<Entry>, cs: seq<Content>, c: Content)
    ensures var front := Resealed(h, log, cs);
            Resealed(h, log, cs + [c]) == front + [Sealed(h, front, c)]
  {
    hide Sealed;
    assert (cs + [c])[..|cs|] == cs;
  }

  lemma {:induction false} SoundIsSealed(h: Hash, log: seq<Entry>, i: nat)
    requires i < |log| && Sound(h, log, i)
    ensures log[..i + 1] == log[..i] + [Sealed(h, log[..i], log[i].content)]
  {
    assert i > 0 ==> log[..i][i - 1] == log[i - 1];
  }

  /** A verifying log is its own beginning with the rest of its contents sealed on top. */
  lemma {:induction false} VerifyingIsSealed(h: Hash, log: seq<Entry>, n: nat, m: nat)
    requires Verifies(h, log) && n <= m <= |log|
    ensures log[..m] == Resealed(h, log[..n], ContentsFrom(log, n, m))
    decreases m
  {
    hide Resealed, Sealed, Sound;
    if n < m {
      VerifyingIsSealed(h, log, n, m - 1);
      SoundIsSealed(h, log, m - 1);
      ResealedStep(h, log[..n], ContentsFrom(log, n, m - 1), log[m - 1].content);
    } else {
      NothingResealed(h, log[..n]);
    }
  }

  lemma {:induction false} NothingResealed(h: Hash, log: seq<Entry>)
    ensures Resealed(h, log, []) == log
  {
  }

  /** `other` leaves the log at position `n`: what follows has been sealed again on
      top of the common part, and no hash of it occurs in the log. */
  ghost predicate Forks(h: Hash, log: seq<Entry>, other: seq<Entry>, n: nat) {
    && n <= |log| && n <= |other|
    && other == Resealed(h, log[..n], ContentsFrom(other, n, |other|))
    && forall i, j :: n <= i < |other| && 0 <= j < |log| ==> log[j].hash != other[i].hash
  }

  /** Any change at all to a verifying log goes unnoticed exactly when it keeps a
      prefix and reseals everything after it under fresh hashes. */
  lemma {:induction false} TamperingExactly(h: Hash, log: seq<Entry>, other: seq<Entry>)
    requires CollisionFree(h) && Verifies(h, log)
    ensures Verifies(h, other) <==> exists n: nat :: Forks(h, log, other, n)
  {
    hide Verifies, Resealed;
    if Verifies(h, other) {
      var n := CommonPrefix(log, other);
      forall i, j | n <= i < |other| && 0 <= j < |log| ensures log[j].hash != other[i].hash {
        SharedPast(h, log, j, other, i, n);
      }
      VerifyingIsSealed(h, other, n, |other|);
      assert other[..|other|] == other;
      assert Forks(h, log, other, n);
    }
    if n: nat :| Forks(h, log, other, n) {
      ResealingUndetected(h, log, n, ContentsFrom(other, n, |other|));
    }
  }

  /** Replacing one entry goes unnoticed in exactly one case: it is the last one
      and the replacement is itself properly linked and hashed. */
  lemma {:induction false} EditDetectedExactly(h: Hash, log: seq<Entry>, i: nat, e: Entry)
    requires CollisionFree(h) && Verifies(h, log) && i < |log| && e != log[i]
    ensures Verifies(h, log[i := e])
       <==> i == |log| - 1 && e.previousHash == LinkFor(log, i) && e.hash == h(e.content, e.previousHash)
  {
    var edited := log[i := e];
    assert edited[i] != log[i];
    if i < |log| - 1 {
      if Verifies(h, edited) {
        SameHeadSameLog(h, log, edited);
      }
    } else {
      forall j | 0 <= j < i ensures Sound(h, edited, j) {
        assert Sound(h, log, j);
      }
      assert Verifies(h, edited) <==> Sound(h, edited, i);
    }
  }
}
