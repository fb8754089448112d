/** Cursor pagination over the audit log: `queryWithCursor` of
    src/audit/sqliteRepository.ts and of src/audit/store.ts. A cursor is the data
    it encodes; `Malformed` is a string that does not decode. */
module AuditPaging {
  import opened Wrappers
  import opened AuditChain
  import opened CodeUnits

  datatype Filters = Filters(action: Option<string>, severity: Option<string>, actor: Option<string>,
                             resource: Option<string>, resourceId: Option<string>,
                             from: Option<Text>, to: Option<Text>)

  datatype Cursor = Start | Malformed | After(lastId: string, filters: Filters)

  datatype Page = Page(entries: seq<Entry>, next: Cursor)

  /** An absent or empty filter value does not filter. */
  predicate Allows(f: Option<string>, v: string) {
    f.None? || f.value == "" || f.value == v
  }

  predicate Match(f: Filters, e: Entry) {
    var c := e.content;
    && Allows(f.action, c.action) && Allows(f.severity, c.severity) && Allows(f.actor, c.actor)
    && Allows(f.resource, c.resource) && Allows(f.resourceId, c.resourceId)
    && (f.from.Some? && f.from.value != [] ==> !Less(c.timestamp, f.from.value))
    && (f.to.Some? && f.to.value != [] ==> !Less(f.to.value, c.timestamp))
  }

  /** The page size used for a requested limit. */
  function PageSize(limit: Option<int>): (n: nat)
    ensures 1 <= n <= 100
  {
    Min(Max(if limit.Some? then limit.value else 50, 1), 100)
  }

  /** A limit within 1..100 is used as given, one outside is moved to the nearer
      end, and none means 50. */
  lemma {:induction false} PageSizeExactly(limit: Option<int>)
    ensures limit.None? ==> PageSize(limit) == 50
    ensures limit.Some? ==>
              var x, n := limit.value, PageSize(limit);
              (x < 1 ==> n == 1) && (x > 100 ==> n == 100) && (1 <= x <= 100 ==> n == x)
  {
  }

  /** The matching entries at positions i..j of a log. */
  function Select(f: Filters, log: seq<Entry>, i: nat, j: nat): seq<Entry>
    requires i <= j <= |log|
    decreases j
  {
    if i == j then [] else Select(f, log, i, j - 1) + if Match(f, log[j - 1]) then [log[j - 1]] else []
  }

  function Take(s: seq<Entry>, n: nat): seq<Entry> { s[..Min(n, |s|)] }

  /** JavaScript's `slice(lo, lo + n)`. */
  function Slice(s: seq<Entry>, lo: nat, n: nat): seq<Entry> { Take(s[Min(lo, |s|)..], n) }

  // --- SQLite ---------------------------------------------------------------

  /** SELECT ... WHERE filters AND seq > start ORDER BY seq, over the first `k` rows. */
  function Rows(f: Filters, rows: seq<Row>, start: nat, k: nat): seq<Entry>
    requires k <= |rows|
  {
    if k == 0 then []
    else
      Rows(f, rows, start, k - 1)
      + if Match(f, rows[k - 1].entry) && (start > 0 ==> rows[k - 1].key > start) then [rows[k - 1].entry] else []
  }

  /** SELECT seq ... WHERE id = ?, or 0 when there is no such row. */
  function KeyOf(rows: seq<Row>, id: string, k: nat): nat
    requires k <= |rows|
  {
    if k == 0 then 0 else if rows[k - 1].entry.content.id == id then rows[k - 1].key else KeyOf(rows, id, k - 1)
  }

  function SqlitePage(rows: seq<Row>, f: Filters, limit: Option<int>, cursor: Cursor): Result<Page, string> {
    if cursor.After? && cursor.filters != f then Err("Cursor filters do not match query filters")
    else
      var start := if cursor.After? then KeyOf(rows, cursor.lastId, |rows|) else 0;
      var n := PageSize(limit);
      var all := Rows(f, rows, start, |rows|);
      var entries := Take(all, n);
      Ok(Page(entries, if |entries| == n && |Take(all, n + 1)| > n then After(entries[n - 1].content.id, f) else Start))
  }

  // --- In memory ------------------------------------------------------------

  /** One past the position of the first entry with this id, or 0. */
  function PositionAfter(log: seq<Entry>, id: string, i: nat): nat
    requires i <= |log|
    decreases |log| - i
  {
    if i == |log| then 0 else if log[i].content.id == id then i + 1 else PositionAfter(log, id, i + 1)
  }

  function MemoryPage(log: seq<Entry>, f: Filters, limit: Option<int>, cursor: Cursor): Page {
    var start := if cursor.After? && cursor.filters == f then PositionAfter(log, cursor.lastId, 0) else 0;
    var n := PageSize(limit);
    var filtered := Select(f, log, 0, |log|);
    var entries := Slice(filtered, start, n);
    Page(entries,
         if start + n < |filtered| && entries != [] then After(entries[|entries| - 1].content.id, f) else Start)
  }

  // ---------------------------------------------------------------------
  // Selections
  // ---------------------------------------------------------------------

  /** A value was asked for. */
  predicate Asked<T(==)>(f: Option<seq<T>>) { f.Some? && f.value != [] }

  /** The selection is exactly the entries of the log with every value that was
      asked for and a timestamp within the bounds that were. */
  lemma {:induction false} SelectExactly(f: Filters, log: seq<Entry>, k: nat, x: Entry)
    requires k <= |log|
    ensures x in Select(f, log, 0, k) <==>
              && x in log[..k]
              && (Asked(f.action) ==> x.content.action == f.action.value)
              && (Asked(f.severity) ==> x.content.severity == f.severity.value)
              && (Asked(f.actor) ==> x.content.actor == f.actor.value)
              && (Asked(f.resource) ==> x.content.resource == f.resource.value)
              && (Asked(f.resourceId) ==> x.content.resourceId == f.resourceId.value)
              && (Asked(f.from) ==> f.from.value == x.content.timestamp || Less(f.from.value, x.content.timestamp))
              && (Asked(f.to) ==> x.content.timestamp == f.to.value || Less(x.content.timestamp, f.to.value))
    decreases k
  {
    hide Less;
    if k > 0 {
      SelectExactly(f, log, k - 1, x);
      assert log[..k] == log[..k - 1] + [log[k - 1]];
      if f.from.Some? {
        LessTotal(f.from.value, x.content.timestamp);
      }
      if f.to.Some? {
        LessTotal(f.to.value, x.content.timestamp);
      }
    }
  }

  lemma {:induction false} SelectSplits(f: Filters, log: seq<Entry>, i: nat, m: nat, j: nat)
    requires i <= m <= j <= |log|
    ensures Select(f, log, i, j) == Select(f, log, i, m) + Select(f, log, m, j)
    decreases j
  {
    hide Match;
    if m < j {
      SelectSplits(f, log, i, m, j - 1);
    }
  }

  lemma {:induction false} SelectOfPrefix(f: Filters, a: seq<Entry>, b: seq<Entry>, i: nat, j: nat)
    requires a <= b && i <= j <= |a|
    ensures Select(f, a, i, j) == Select(f, b, i, j)
    decreases j
  {
    hide Match;
    if i < j {
      SelectOfPrefix(f, a, b, i, j - 1);
    }
  }

  /** The first `n` selected entries are the selection up to some position, and
      the last of them stands just before it. */
  lemma {:induction false} SelectReach(f: Filters, log: seq<Entry>, i: nat, j: nat, n: nat) returns (m: nat)
    requires i <= j <= |log| && n <= |Select(f, log, i, j)|
    ensures i <= m <= j && Select(f, log, i, m) == Select(f, log, i, j)[..n]
    ensures n > 0 ==> i < m && Select(f, log, i, j)[n - 1] == log[m - 1]
    decreases j
  {
    hide Match;
    if n == 0 {
      m := i;
    } else if n <= |Select(f, log, i, j - 1)| {
      m := SelectReach(f, log, i, j - 1, n);
    } else {
      m := j;
    }
  }

  /** Rows after the key of row c are the selection from position c on. */
  lemma {:induction false} RowsAreSelection(f: Filters, rows: seq<Row>, c: nat, k: nat)
    requires WellKeyed(rows) && c <= |rows| && k <= |rows|
    ensures Rows(f, rows, if c == 0 then 0 else rows[c - 1].key, k)
         == if k <= c && c > 0 then [] else Select(f, Entries(rows), c, k)
    decreases k
  {
    hide Match;
    if k > 0 {
      RowsAreSelection(f, rows, c, k - 1);
    }
  }

  lemma {:induction false} KeyFound(rows: seq<Row>, i: nat, k: nat)
    requires WellKeyed(rows) && i < k <= |rows|
    ensures KeyOf(rows, rows[i].entry.content.id, k) == rows[i].key
    decreases k
  {
    if i < k - 1 {
      KeyFound(rows, i, k - 1);
    }
  }

  // ---------------------------------------------------------------------
  // Following the cursor while entries are appended
  // ---------------------------------------------------------------------

  /** One request: the table as it then is, and the requested page size. */
  datatype Request = Request(rows: seq<Row>, limit: Option<int>)

  /** Entries only get appended between requests. */
  ghost predicate Growing(rs: seq<Request>, k: nat)
    requires k <= |rs|
  {
    k == 0 || (Growing(rs, k - 1) && WellKeyed(rs[k - 1].rows) && (k > 1 ==> rs[k - 2].rows <= rs[k - 1].rows))
  }

  /** Where the client stands: what it has collected and the cursor it holds. */
  datatype Walk = Walk(collected: seq<Entry>, cursor: Cursor)

  /** The client after `k` requests; `Start` again means it was told to stop. */
  function Follow(f: Filters, rs: seq<Request>, k: nat): Walk
    requires k <= |rs|
  {
    if k == 0 then Walk([], Start)
    else
      var w := Follow(f, rs, k - 1);
      var p := SqlitePage(rs[k - 1].rows, f, rs[k - 1].limit, w.cursor);
      if p.Err? then w else Walk(w.collected + p.value.entries, p.value.next)
  }

  /** Told to go on after each of the first `k` requests. */
  ghost predicate GoesOn(f: Filters, rs: seq<Request>, k: nat)
    requires k <= |rs|
  {
    k == 0 || (GoesOn(f, rs, k - 1) && Follow(f, rs, k).cursor.After?)
  }

  /** The client has everything matching up to position `c` of the table. */
  ghost predicate Standing(f: Filters, rows: seq<Row>, w: Walk, c: nat) {
    && c <= |rows|
    && w.collected == Select(f, Entries(rows), 0, c)
    && w.cursor == (if c == 0 then Start else After(rows[c - 1].entry.content.id, f))
  }

  /** A page over all the remaining matches. */
  function PageOf(all: seq<Entry>, n: nat, f: Filters): Page
    requires n > 0
  {
    Page(Take(all, n), if |all| > n then After(all[n - 1].content.id, f) else Start)
  }

  lemma {:induction false} PageAfter(f: Filters, rows: seq<Row>, limit: Option<int>, c: nat)
    requires WellKeyed(rows) && c <= |rows|
    ensures SqlitePage(rows, f, limit, if c == 0 then Start else After(rows[c - 1].entry.content.id, f))
         == Ok(PageOf(Select(f, Entries(rows), c, |rows|), PageSize(limit), f))
  {
    hide Match, Select, Rows, WellKeyed;
    RowsAreSelection(f, rows, c, |rows|);
    if c > 0 {
      KeyFound(rows, c - 1, |rows|);
      assert c == |rows| ==> Select(f, Entries(rows), c, |rows|) == [] by { SelectNone(f, Entries(rows), c); }
    }
  }

  lemma {:induction false} SelectNone(f: Filters, log: seq<Entry>, i: nat)
    requires i <= |log|
    ensures Select(f, log, i, i) == []
  {
  }

  lemma {:induction false} PageStep(f: Filters, rows: seq<Row>, limit: Option<int>, w: Walk, c: nat) returns (d: nat)
    requires WellKeyed(rows) && Standing(f, rows, w, c)
    ensures SqlitePage(rows, f, limit, w.cursor).Ok?
    ensures var p := SqlitePage(rows, f, limit, w.cursor).value;
            var v := Walk(w.collected + p.entries, p.next);
            if p.next.After? then Standing(f, rows, v, d)
            else v.cursor == Start && v.collected == Select(f, Entries(rows), 0, |rows|)
  {
    hide Match, Select, SqlitePage, WellKeyed;
    var es, n := Entries(rows), PageSize(limit);
    PageAfter(f, rows, limit, c);
    SelectSplits(f, es, 0, c, |rows|);
    if |Select(f, es, c, |rows|)| > n {
      d := SelectReach(f, es, c, |rows|, n);
      SelectSplits(f, es, 0, c, d);
    } else {
      d := c;
    }
  }

  lemma {:induction false} StandingGrows(f: Filters, a: seq<Row>, b: seq<Row>, w: Walk, c: nat)
    requires a <= b && Standing(f, a, w, c)
    ensures Standing(f, b, w, c)
  {
    assert Entries(a) <= Entries(b);
    SelectOfPrefix(f, Entries(a), Entries(b), 0, c);
  }

  lemma {:induction false} FollowStands(f: Filters, rs: seq<Request>, k: nat) returns (c: nat)
    requires 0 < k <= |rs| && Growing(rs, k) && GoesOn(f, rs, k)
    ensures Standing(f, rs[k - 1].rows, Follow(f, rs, k), c)
    decreases k
  {
    hide Select, SqlitePage;
    c := StandsBefore(f, rs, k);
    c := PageStep(f, rs[k - 1].rows, rs[k - 1].limit, Follow(f, rs, k - 1), c);
  }

  lemma {:induction false} StandsBefore(f: Filters, rs: seq<Request>, k: nat) returns (c: nat)
    requires 0 < k <= |rs| && Growing(rs, k) && GoesOn(f, rs, k - 1)
    ensures Standing(f, rs[k - 1].rows, Follow(f, rs, k - 1), c)
    decreases k, 0
  {
    hide SqlitePage, Match, WellKeyed;
    c := 0;
    if k > 1 {
      c := FollowStands(f, rs, k - 1);
      StandingGrows(f, rs[k - 2].rows, rs[k - 1].rows, Follow(f, rs, k - 1), c);
    }
  }

  /** Whatever is appended between requests, the pages concatenated so far are
      a prefix of the filtered log, and once no cursor is returned they are the
      whole filtered log as of that request. */
  lemma {:induction false} PagesAreFilteredLog(f: Filters, rs: seq<Request>, k: nat)
    requires 0 < k <= |rs| && Growing(rs, k) && GoesOn(f, rs, k - 1)
    ensures var log := Entries(rs[k - 1].rows);
            var w := Follow(f, rs, k);
            && w.collected <= Select(f, log, 0, |log|)
            && (!w.cursor.After? ==> w.collected == Select(f, log, 0, |log|))
  {
    hide SqlitePage, Match;
    var rows := rs[k - 1].rows;
    var c := StandsBefore(f, rs, k);
    var d := PageStep(f, rows, rs[k - 1].limit, Follow(f, rs, k - 1), c);
    if Follow(f, rs, k).cursor.After? {
      SelectSplits(f, Entries(rows), 0, d, |rows|);
    }
  }

  // ---------------------------------------------------------------------
  // The in-memory cursor
  // ---------------------------------------------------------------------

  ghost predicate DistinctIds(log: seq<Entry>) {
    forall i, j :: 0 <= i < j < |log| ==> log[i].content.id != log[j].content.id
  }

  lemma {:induction false} PositionFound(log: seq<Entry>, p: nat, i: nat)
    requires DistinctIds(log) && i <= p < |log|
    ensures PositionAfter(log, log[p].content.id, i) == p + 1
    decreases p - i
  {
    if i < p {
      PositionFound(log, p, i + 1);
    }
  }

  lemma {:induction false} SelectCount(f: Filters, log: seq<Entry>, i: nat, j: nat)
    requires i <= j <= |log|
    ensures |Select(f, log, i, j)| <= j - i
    ensures |Select(f, log, i, j)| == j - i <==> forall k :: i <= k < j ==> Match(f, log[k])
    decreases j
  {
    hide Match;
    if i < j {
      SelectCount(f, log, i, j - 1);
    }
  }

  lemma {:induction false} SelectDistinct(f: Filters, log: seq<Entry>, j: nat, x: nat, y: nat)
    requires DistinctIds(log) && j <= |log| && x < y < |Select(f, log, 0, j)|
    ensures Select(f, log, 0, j)[x] != Select(f, log, 0, j)[y]
    decreases j
  {
    hide Match;
    if y < |Select(f, log, 0, j - 1)| {
      SelectDistinct(f, log, j - 1, x, y);
    } else {
      var m := SelectReach(f, log, 0, j - 1, x + 1);
      assert Select(f, log, 0, j)[x] == log[m - 1] && Select(f, log, 0, j)[y] == log[j - 1];
    }
  }

  /** Two windows of a list without repetitions agree only if they start together. */
  lemma {:induction false} WindowsEqualExactly(all: seq<Entry>, r: nat, q: nat, n: nat)
    requires r <= |all| && r <= q && n > 0
    requires forall x, y :: 0 <= x < y < |all| ==> all[x] != all[y]
    ensures Slice(all, q, n) == Take(all[r..], n) <==> r == |all| || r == q
  {
    if r < |all| {
      assert Take(all[r..], n)[0] == all[r];
      assert q < |all| ==> Slice(all, q, n)[0] == all[q];
    }
  }

  /** The in-memory store counts the cursor's position in the whole log but
      applies it to the filtered list. The page after entry `p` is the right one
      exactly when nothing matches after `p` or every entry up to `p` matches (so
      always, when nothing is filtered). */
  lemma {:induction false} MemoryPageExactly(log: seq<Entry>, f: Filters, limit: Option<int>, p: nat)
    requires DistinctIds(log) && p < |log|
    ensures MemoryPage(log, f, limit, After(log[p].content.id, f)).entries
         == Take(Select(f, log, p + 1, |log|), PageSize(limit))
       <==> Select(f, log, p + 1, |log|) == [] || forall k :: 0 <= k <= p ==> Match(f, log[k])
  {
    hide Match, Select, PositionAfter, Slice, Take;
    PositionFound(log, p, 0);
    SelectCount(f, log, 0, p + 1);
    SelectSplits(f, log, 0, p + 1, |log|);
    var all, r := Select(f, log, 0, |log|), |Select(f, log, 0, p + 1)|;
    assert all[r..] == Select(f, log, p + 1, |log|);
    forall x, y | 0 <= x < y < |all| ensures all[x] != all[y] {
      SelectDistinct(f, log, |log|, x, y);
    }
    WindowsEqualExactly(all, r, p + 1, PageSize(limit));
  }

  /** As long as everything before the cursor matches, the two repositories give
      the same page and the same next cursor. */
  lemma {:induction false} MemoryMatchesSqlite(rows: seq<Row>, f: Filters, limit: Option<int>, c: nat)
    requires WellKeyed(rows) && c <= |rows| && forall k :: 0 <= k < c ==> Match(f, rows[k].entry)
    ensures var cursor := if c == 0 then Start else After(rows[c - 1].entry.content.id, f);
            SqlitePage(rows, f, limit, cursor) == Ok(MemoryPage(Entries(rows), f, limit, cursor))
  {
    hide Match, Select, SqlitePage, PageOf, Slice, PositionAfter;
    var log, n := Entries(rows), PageSize(limit);
    PageAfter(f, rows, limit, c);
    if c > 0 {
      PositionFound(log, c - 1, 0);
    }
    SelectCount(f, log, 0, c);
    SelectSplits(f, log, 0, c, |log|);
    var all := Select(f, log, 0, |log|);
    assert all[c..] == Select(f, log, c, |log|);
    SlicePage(all, c, n, f);
  }

  lemma {:induction false} SlicePage(all: seq<Entry>, c: nat, n: nat, f: Filters)
    requires c <= |all| && n > 0
    ensures var entries := Slice(all, c, n);
            PageOf(all[c..], n, f)
            == Page(entries,
                    if c + n < |all| && entries != [] then After(entries[|entries| - 1].content.id, f) else Start)
  {
  }

  // --- Cursors that are not a page's next cursor --------------------------------

  /** SQLite refuses a cursor of another query and starts again for one it cannot
      read or whose entry it does not have. */
  lemma {:induction false} SqliteOtherCursors(rows: seq<Row>, f: Filters, limit: Option<int>, cursor: Cursor)
    ensures SqlitePage(rows, f, limit, cursor).Err? <==> cursor.After? && cursor.filters != f
    ensures !cursor.After?
            || (cursor.filters == f && forall i :: 0 <= i < |rows| ==> rows[i].entry.content.id != cursor.lastId)
            ==> SqlitePage(rows, f, limit, cursor) == SqlitePage(rows, f, limit, Start)
  {
    if cursor.After? && forall i :: 0 <= i < |rows| ==> rows[i].entry.content.id != cursor.lastId {
      KeyMissing(rows, cursor.lastId, |rows|);
    }
  }

  lemma {:induction false} KeyMissing(rows: seq<Row>, id: string, k: nat)
    requires k <= |rows| && forall i :: 0 <= i < |rows| ==> rows[i].entry.content.id != id
    ensures KeyOf(rows, id, k) == 0
    decreases k
  {
    if k > 0 {
      KeyMissing(rows, id, k - 1);
    }
  }

  /** The in-memory store starts again for all of these. */
  lemma {:induction false} MemoryOtherCursors(log: seq<Entry>, f: Filters, limit: Option<int>, cursor: Cursor)
    requires !cursor.After? || cursor.filters != f || forall i :: 0 <= i < |log| ==> log[i].content.id != cursor.lastId
    ensures MemoryPage(log, f, limit, cursor) == MemoryPage(log, f, limit, Start)
  {
    hide Match, Select;
    if cursor.After? && cursor.filters == f {
      PositionMissing(log, cursor.lastId, 0);
    }
  }

  lemma {:induction false} PositionMissing(log: seq<Entry>, id: string, i: nat)
    requires i <= |log| && forall j :: 0 <= j < |log| ==> log[j].content.id != id
    ensures PositionAfter(log, id, i) == 0
    decreases |log| - i
  {
    if i < |log| {
      PositionMissing(log, id, i + 1);
    }
  }

  // --- Walking the in-memory log ----------------------------------------------

  /** One request: the log as it then is, and the requested page size. */
  datatype LogRequest = LogRequest(log: seq<Entry>, limit: Option<int>)

  ghost predicate GrowingLog(ls: seq<LogRequest>, k: nat)
    requires k <= |ls|
  {
    k == 0 || (GrowingLog(ls, k - 1) && DistinctIds(ls[k - 1].log) && (k > 1 ==> ls[k - 2].log <= ls[k - 1].log))
  }

  /** The client of the in-memory store after `k` requests. */
  function FollowMemory(f: Filters, ls: seq<LogRequest>, k: nat): Walk
    requires k <= |ls|
  {
    if k == 0 then Walk([], Start)
    else
      var w := FollowMemory(f, ls, k - 1);
      var p := MemoryPage(ls[k - 1].log, f, ls[k - 1].limit, w.cursor);
      Walk(w.collected + p.entries, p.next)
  }

  ghost predicate GoesOnMemory(f: Filters, ls: seq<LogRequest>, k: nat)
    requires k <= |ls|
  {
    k == 0 || (GoesOnMemory(f, ls, k - 1) && FollowMemory(f, ls, k).cursor.After?)
  }

  /** The same log as a table numbered from 1. */
  function Numbered(log: seq<Entry>): (rows: seq<Row>)
    ensures Entries(rows) == log && (DistinctIds(log) ==> WellKeyed(rows))
  {
    seq(|log|, i requires 0 <= i < |log| => Row(i + 1, log[i]))
  }

  function InTable(ls: seq<LogRequest>): (rs: seq<Request>)
    ensures |rs| == |ls| && forall i :: 0 <= i < |ls| ==> rs[i] == Request(Numbered(ls[i].log), ls[i].limit)
  {
    seq(|ls|, i requires 0 <= i < |ls| => Request(Numbered(ls[i].log), ls[i].limit))
  }

  lemma {:induction false} GrowingInTable(ls: seq<LogRequest>, k: nat)
    requires k <= |ls| && GrowingLog(ls, k)
    ensures Growing(InTable(ls), k)
    decreases k
  {
    if k > 0 {
      GrowingInTable(ls, k - 1);
      assert k > 1 ==> Numbered(ls[k - 2].log) <= Numbered(ls[k - 1].log);
    }
  }

  const UNFILTERED := Filters(None, None, None, None, None, None, None)

  lemma {:induction false} UnfilteredSelects(log: seq<Entry>, k: nat)
    requires k <= |log|
    ensures Select(UNFILTERED, log, 0, k) == log[..k]
    decreases k
  {
    if k > 0 {
      UnfilteredSelects(log, k - 1);
      assert log[..k] == log[..k - 1] + [log[k - 1]];
    }
  }

  /** Without filters, following the in-memory cursor is following the SQLite one. */
  lemma {:induction false} MemoryWalkIsTableWalk(ls: seq<LogRequest>, k: nat)
    requires k <= |ls| && GrowingLog(ls, k) && (k > 0 ==> GoesOnMemory(UNFILTERED, ls, k - 1))
    ensures FollowMemory(UNFILTERED, ls, k) == Follow(UNFILTERED, InTable(ls), k)
    ensures GoesOnMemory(UNFILTERED, ls, k) ==> GoesOn(UNFILTERED, InTable(ls), k)
    decreases k
  {
    hide SqlitePage, MemoryPage, Select;
    if k > 0 {
      var rs := InTable(ls);
      MemoryWalkIsTableWalk(ls, k - 1);
      GrowingInTable(ls, k);
      var c := StandsBefore(UNFILTERED, rs, k);
      MemoryMatchesSqlite(rs[k - 1].rows, UNFILTERED, ls[k - 1].limit, c);
    }
  }

  /** So, while entries are appended between requests, the unfiltered in-memory
      pages are a prefix of the log, and the whole log once no cursor is returned. */
  lemma {:induction false} MemoryPagesAreLog(ls: seq<LogRequest>, k: nat)
    requires 0 < k <= |ls| && GrowingLog(ls, k) && GoesOnMemory(UNFILTERED, ls, k - 1)
    ensures var log := ls[k - 1].log;
            var w := FollowMemory(UNFILTERED, ls, k);
            w.collected <= log && (!w.cursor.After? ==> w.collected == log)
  {
    hide Follow, FollowMemory, Select;
    var log := ls[k - 1].log;
    MemoryWalkIsTableWalk(ls, k - 1);
    MemoryWalkIsTableWalk(ls, k);
    GrowingInTable(ls, k);
    PagesAreFilteredLog(UNFILTERED, InTable(ls), k);
    UnfilteredSelects(log, |log|);
    assert log[..|log|] == log;
  }

  function ByActor(actor: string): Filters { UNFILTERED.(actor := Some(actor)) }

  function Sample(id: string, actor: string): Entry {
    Entry(Content(id, [], "", "", actor, "", "", "{}", None, None), "", id)
  }

  /** With a filter it need not be: of two matching entries behind one that does
      not match, a client asking for one at a time is given the first and told
      that there are no more. */
  lemma {:induction false} FilteredMemoryWalkLoses(f: Filters, x: Entry, a: Entry, b: Entry)
    requires !Match(f, x) && Match(f, a) && Match(f, b) && DistinctIds([x, a, b])
    ensures var ls := [LogRequest([x, a, b], Some(1)), LogRequest([x, a, b], Some(1))];
            && GrowingLog(ls, 2) && GoesOnMemory(f, ls, 1)
            && FollowMemory(f, ls, 2) == Walk([a], Start) && Select(f, [x, a, b], 0, 3) == [a, b]
  {
    hide Match, PositionAfter;
    var log := [x, a, b];
    var ls := [LogRequest(log, Some(1)), LogRequest(log, Some(1))];
    assert GrowingLog(ls, 1);
    ThreeSelected(f, x, a, b);
    PositionFound(log, 1, 0);
    hide Select;
    assert MemoryPage(log, f, Some(1), Start) == Page([a], After(a.content.id, f));
    assert MemoryPage(log, f, Some(1), After(a.content.id, f)) == Page([], Start);
    assert FollowMemory(f, ls, 1) == Walk([a], After(a.content.id, f));
  }

  lemma {:induction false} ThreeSelected(f: Filters, x: Entry, a: Entry, b: Entry)
    requires !Match(f, x) && Match(f, a) && Match(f, b)
    ensures Select(f, [x, a, b], 0, 3) == [a, b]
  {
    hide Match;
    var log := [x, a, b];
    assert Select(f, log, 0, 1) == [] && Select(f, log, 0, 2) == [a];
  }

  /** Such entries exist. */
  lemma {:induction false} LosableEntries()
    ensures DistinctIds([Sample("0", "x"), Sample("1", "y"), Sample("2", "y")])
    ensures !Match(ByActor("y"), Sample("0", "x"))
    ensures Match(ByActor("y"), Sample("1", "y")) && Match(ByActor("y"), Sample("2", "y"))
  {
    assert "0"[0] != "1"[0] && "1"[0] != "2"[0] && "0"[0] != "2"[0] && "x"[0] != "y"[0];
  }
}
