/** Keyset pagination of API keys, src/auth/apiKeyPagination.ts. A cursor is the
    position it encodes; signing and base64url are left out. */
module KeyPages {
  import opened Wrappers
  import opened CodeUnits
  import opened Sorting

  const DEFAULT_PAGE_SIZE := 20
  const MAX_PAGE_SIZE := 100

  /** The creation instant, in milliseconds, and the id of a key. */
  datatype Position = Position(time: int, id: Text)

  datatype Record = Record(position: Position, data: string)

  /** `isAfterCursor`: the newer key, or at the same instant the greater id, comes first. */
  predicate Precedes(a: Position, b: Position) {
    b.time < a.time || (b.time == a.time && Less(b.id, a.id))
  }

  /** `comparePositions(a, b) < 0`. */
  predicate SortsBefore(a: Record, b: Record) { Precedes(a.position, b.position) }

  function Trunc(x: real): int { if x >= 0.0 then x.Floor else -((-x).Floor) }

  /** `None` is a limit that is not finite. */
  function PageSize(limit: Option<real>): (n: nat)
    ensures 1 <= n <= MAX_PAGE_SIZE
  {
    if limit.Some? then Min(Max(Trunc(limit.value), 1), MAX_PAGE_SIZE) else DEFAULT_PAGE_SIZE
  }

  /** A finite limit is truncated and held within 1..100; any other means 20. */
  lemma {:induction false} PageSizeExactly(limit: Option<real>)
    ensures limit.None? ==> PageSize(limit) == 20
    ensures limit.Some? ==>
              var x, n := limit.value, PageSize(limit);
              && (x < 1.0 ==> n == 1) && (x >= 100.0 ==> n == 100)
              && (1.0 <= x < 100.0 ==> n as real <= x < n as real + 1.0)
  {
  }

  function Eligible(sorted: seq<Record>, cursor: Option<Position>): seq<Record> {
    if sorted == [] then []
    else
      var last := sorted[|sorted| - 1];
      Eligible(sorted[..|sorted| - 1], cursor)
      + if cursor.None? || Precedes(cursor.value, last.position) then [last] else []
  }

  datatype Page = Page(items: seq<Record>, next: Option<Position>)

  function Paginate(records: seq<Record>, limit: Option<real>, cursor: Option<Position>): Page {
    var n := PageSize(limit);
    var eligible := Eligible(Sort(SortsBefore, records), cursor);
    var items := eligible[..Min(n, |eligible|)];
    Page(items, if |eligible| > n && |items| > 0 then Some(items[|items| - 1].position) else None)
  }

  // ---------------------------------------------------------------------
  // One page
  // ---------------------------------------------------------------------

  ghost predicate DistinctPositions(records: seq<Record>) {
    forall i, j :: 0 <= i < j < |records| ==> records[i].position != records[j].position
  }

  ghost predicate Has(records: seq<Record>, p: Position) {
    exists i :: 0 <= i < |records| && records[i].position == p
  }

  /** `a` was created later than `b`, or at the same instant with the greater id. */
  predicate NewerThan(a: Position, b: Position) {
    a.time > b.time || (a.time == b.time && Less(b.id, a.id))
  }

  lemma {:induction false} PrecedesOrders()
    ensures Order(SortsBefore) && forall a, b :: Precedes(a, b) <==> NewerThan(a, b)
    ensures forall a, b :: !Precedes(a, b) && !Precedes(b, a) ==> a == b
    ensures forall a, b, c :: Precedes(a, b) && Precedes(b, c) ==> Precedes(a, c)
  {
    hide Less;
    LessOrders();
  }

  lemma {:induction false} EligibleMember(sorted: seq<Record>, cursor: Option<Position>, x: Record)
    ensures x in Eligible(sorted, cursor) <==> x in sorted && (cursor.None? || Precedes(cursor.value, x.position))
    decreases |sorted|
  {
    hide Precedes;
    if sorted != [] {
      var front := sorted[..|sorted| - 1];
      EligibleMember(front, cursor, x);
      assert sorted == front + [sorted[|sorted| - 1]];
    }
  }

  lemma {:induction false} SortedSnoc(s: seq<Record>, x: Record)
    requires StrictlySorted(SortsBefore, s) && forall y :: y in s ==> SortsBefore(y, x)
    ensures StrictlySorted(SortsBefore, s + [x])
  {
    hide SortsBefore;
  }

  lemma {:induction false} EligibleSorted(sorted: seq<Record>, cursor: Option<Position>)
    requires StrictlySorted(SortsBefore, sorted)
    ensures StrictlySorted(SortsBefore, Eligible(sorted, cursor))
    decreases |sorted|
  {
    hide SortsBefore, Precedes;
    if sorted != [] {
      var front, last := sorted[..|sorted| - 1], sorted[|sorted| - 1];
      EligibleSorted(front, cursor);
      forall y | y in Eligible(front, cursor) ensures SortsBefore(y, last) {
        EligibleMember(front, cursor, y);
      }
      SortedSnoc(Eligible(front, cursor), last);
      assert Eligible(front, cursor) + [] == Eligible(front, cursor);
    }
  }

  /** The first `n` records of a sorted list, and what then lies after the last. */
  lemma {:induction false} CutPage(e: seq<Record>, n: nat)
    requires StrictlySorted(SortsBefore, e) && n > 0
    ensures var m := Min(n, |e|);
            && StrictlySorted(SortsBefore, e[..m])
            && (forall x :: x in e ==> x in e[..m] || (|e| > n && SortsBefore(e[m - 1], x)))
            && (|e| > n ==> e[n] in e && SortsBefore(e[m - 1], e[n]))
  {
    hide SortsBefore;
    var m := Min(n, |e|);
    forall x | x in e ensures x in e[..m] || (|e| > n && SortsBefore(e[m - 1], x)) {
      var i :| 0 <= i < |e| && e[i] == x;
      assert i < m ==> e[..m][i] == x;
    }
  }

  ghost predicate NewestFirst(s: seq<Record>) {
    forall i, j :: 0 <= i < j < |s| ==> NewerThan(s[i].position, s[j].position)
  }

  lemma {:induction false} SortedIsNewestFirst(s: seq<Record>)
    requires StrictlySorted(SortsBefore, s)
    ensures NewestFirst(s)
  {
    hide Less;
    forall i, j | 0 <= i < j < |s| ensures NewerThan(s[i].position, s[j].position) {
      assert SortsBefore(s[i], s[j]);
    }
  }

  /** A page has the newest keys first, and only keys older than the cursor. */
  lemma {:induction false} PageNewestFirst(records: seq<Record>, limit: Option<real>, cursor: Option<Position>)
    requires DistinctPositions(records)
    ensures var items := Paginate(records, limit, cursor).items;
            && NewestFirst(items)
            && (cursor.Some? ==> forall x :: x in items ==> NewerThan(cursor.value, x.position))
  {
    hide Less, Paginate;
    PageIs(records, limit, cursor);
    SortedIsNewestFirst(Paginate(records, limit, cursor).items);
  }

  /** What one page holds: in order, only records after the cursor, and every
      record after the cursor is on it or comes after its last one. */
  lemma {:induction false} PageIs(records: seq<Record>, limit: Option<real>, cursor: Option<Position>)
    requires DistinctPositions(records)
    ensures var p := Paginate(records, limit, cursor);
            && StrictlySorted(SortsBefore, p.items)
            && (forall x :: x in p.items ==> x in records && (cursor.Some? ==> Precedes(cursor.value, x.position)))
            && |p.items| <= PageSize(limit) && (p.next.Some? ==> |p.items| == PageSize(limit))
            && (p.next.Some? ==> p.items != [] && p.next.value == p.items[|p.items| - 1].position)
            && (forall x :: x in records && (cursor.None? || Precedes(cursor.value, x.position)) ==>
                  x in p.items || (p.next.Some? && Precedes(p.next.value, x.position)))
            && (p.next.Some? ==> exists x :: x in records && Precedes(p.next.value, x.position))
  {
    hide Precedes, Sort, Eligible, StrictlySorted;
    PrecedesOrders();
    SortStrict(SortsBefore, records);
    var sorted := Sort(SortsBefore, records);
    var e, n := Eligible(sorted, cursor), PageSize(limit);
    forall x ensures x in e <==> x in records && (cursor.None? || Precedes(cursor.value, x.position)) {
      SortKeepsElements(SortsBefore, records, x);
      EligibleMember(sorted, cursor, x);
    }
    EligibleSorted(sorted, cursor);
    CutPage(e, n);
  }

  // ---------------------------------------------------------------------
  // Following the cursor while keys come and go
  // ---------------------------------------------------------------------

  /** One request: the keys as they then are, and the requested page size. */
  datatype Request = Request(records: seq<Record>, limit: Option<real>)

  datatype Walk = Walk(collected: seq<Record>, cursor: Option<Position>)

  /** The client after `k` requests. */
  function Follow(rs: seq<Request>, k: nat): Walk
    requires k <= |rs|
  {
    if k == 0 then Walk([], None)
    else
      var w := Follow(rs, k - 1);
      var p := Paginate(rs[k - 1].records, rs[k - 1].limit, w.cursor);
      Walk(w.collected + p.items, p.next)
  }

  /** A cursor was returned by each of the first `k` requests. */
  ghost predicate GoesOn(rs: seq<Request>, k: nat)
    requires k <= |rs|
  {
    k == 0 || (GoesOn(rs, k - 1) && Follow(rs, k).cursor.Some?)
  }

  ghost predicate Snapshots(rs: seq<Request>, k: nat)
    requires k <= |rs|
  {
    k == 0 || (Snapshots(rs, k - 1) && DistinctPositions(rs[k - 1].records))
  }

  /** A key with this position is there at each of the first `k` requests. */
  ghost predicate Throughout(rs: seq<Request>, k: nat, p: Position)
    requires k <= |rs|
  {
    k == 0 || (Throughout(rs, k - 1, p) && Has(rs[k - 1].records, p))
  }

  /** In order, nothing beyond the cursor. */
  ghost predicate Ordered(w: Walk) {
    && StrictlySorted(SortsBefore, w.collected)
    && (w.collected == [] || w.cursor.None? || w.cursor.value == w.collected[|w.collected| - 1].position)
    && (w.collected == [] ==> w.cursor.None?)
  }

  lemma {:induction false} JoinStrict(a: seq<Record>, b: seq<Record>)
    requires StrictlySorted(SortsBefore, a) && StrictlySorted(SortsBefore, b)
    requires a != [] ==> forall x :: x in b ==> SortsBefore(a[|a| - 1], x)
    ensures StrictlySorted(SortsBefore, a + b)
  {
    hide Precedes;
    PrecedesOrders();
    forall i, j | 0 <= i < |a| && 0 <= j < |b| ensures SortsBefore(a[i], b[j]) {
      assert b[j] in b;
      assert i < |a| - 1 ==> SortsBefore(a[i], a[|a| - 1]);
    }
  }

  /** The concatenated pages are strictly descending in time and, at one instant,
      in id, so nothing repeats, whatever is created or deleted between requests. */
  lemma {:induction false} PagesDescend(rs: seq<Request>, k: nat)
    requires k <= |rs| && Snapshots(rs, k) && (k > 0 ==> GoesOn(rs, k - 1))
    ensures Ordered(Follow(rs, k)) && NewestFirst(Follow(rs, k).collected)
    decreases k
  {
    hide Precedes, Paginate;
    if k > 0 {
      PagesDescend(rs, k - 1);
      var w, r := Follow(rs, k - 1), rs[k - 1];
      PageIs(r.records, r.limit, w.cursor);
      var items := Paginate(r.records, r.limit, w.cursor).items;
      JoinStrict(w.collected, items);
      assert items != [] ==> (w.collected + items)[|w.collected + items| - 1] == items[|items| - 1];
    }
    SortedIsNewestFirst(Follow(rs, k).collected);
  }

  /** No key that stays is missed: by each request it has been returned or still
      lies ahead of the cursor, and once no cursor is returned it has been returned. */
  lemma {:induction false} NothingMissed(rs: seq<Request>, k: nat, p: Position)
    requires 0 < k <= |rs| && Snapshots(rs, k) && GoesOn(rs, k - 1) && Throughout(rs, k, p)
    ensures var w := Follow(rs, k);
            Has(w.collected, p) || (w.cursor.Some? && Precedes(w.cursor.value, p))
    decreases k
  {
    hide Precedes, Paginate;
    var w, r := Follow(rs, k - 1), rs[k - 1];
    if k > 1 {
      NothingMissed(rs, k - 1, p);
    }
    PageIs(r.records, r.limit, w.cursor);
    var items := Paginate(r.records, r.limit, w.cursor).items;
    if Has(w.collected, p) {
      var i :| 0 <= i < |w.collected| && w.collected[i].position == p;
      assert (w.collected + items)[i].position == p;
    } else {
      var i :| 0 <= i < |r.records| && r.records[i].position == p;
      var x := r.records[i];
      assert x in r.records;
      if x in items {
        var j :| 0 <= j < |items| && items[j] == x;
        assert (w.collected + items)[|w.collected| + j].position == p;
      }
    }
  }

  // --- An unchanging set ------------------------------------------------------

  ghost predicate Unchanging(rs: seq<Request>, k: nat, records: seq<Record>)
    requires k <= |rs|
  {
    k == 0 || (Unchanging(rs, k - 1, records) && rs[k - 1].records == records)
  }

  lemma {:induction false} UnchangingFacts(rs: seq<Request>, k: nat, records: seq<Record>)
    requires k <= |rs| && Unchanging(rs, k, records) && DistinctPositions(records)
    ensures Snapshots(rs, k) && forall i :: 0 <= i < |records| ==> Throughout(rs, k, records[i].position)
    decreases k
  {
    if k > 0 {
      UnchangingFacts(rs, k - 1, records);
    }
  }

  lemma {:induction false} CollectedFrom(rs: seq<Request>, k: nat, records: seq<Record>, x: Record)
    requires k <= |rs| && Unchanging(rs, k, records) && DistinctPositions(records)
    requires k > 0 ==> GoesOn(rs, k - 1)
    requires x in Follow(rs, k).collected
    ensures x in records
    decreases k
  {
    hide Precedes, Paginate;
    if k > 0 {
      var w := Follow(rs, k - 1);
      PageIs(records, rs[k - 1].limit, w.cursor);
      if x in w.collected {
        CollectedFrom(rs, k - 1, records, x);
      }
    }
  }

  /** On an unchanging set the pages up to the last one are exactly the sorted
      set, whatever page sizes were asked for. */
  lemma {:induction false} PagesAreSortedSet(rs: seq<Request>, k: nat, records: seq<Record>)
    requires 0 < k <= |rs| && Unchanging(rs, k, records) && DistinctPositions(records) && GoesOn(rs, k - 1)
    requires Follow(rs, k).cursor.None?
    ensures Follow(rs, k).collected == Sort(SortsBefore, records)
  {
    hide Precedes, Paginate, Sort, Follow;
    UnchangingFacts(rs, k, records);
    PagesDescend(rs, k);
    PrecedesOrders();
    SortStrict(SortsBefore, records);
    var all, sorted := Follow(rs, k).collected, Sort(SortsBefore, records);
    forall x ensures x in all <==> x in sorted {
      SortKeepsElements(SortsBefore, records, x);
      if x in all {
        CollectedFrom(rs, k, records, x);
      } else if x in records {
        NothingMissed(rs, k, x.position);
        var i :| 0 <= i < |all| && all[i].position == x.position;
        CollectedFrom(rs, k, records, all[i]);
      }
    }
    StrictlySortedUnique(SortsBefore, all, sorted);
  }

  /** It ends: every page that is followed by another holds at least one key. */
  lemma {:induction false} PagesProgress(rs: seq<Request>, k: nat)
    requires k <= |rs| && Snapshots(rs, k) && GoesOn(rs, k)
    ensures |Follow(rs, k).collected| >= k
    decreases k
  {
    hide Precedes, Paginate;
    if k > 0 {
      PagesProgress(rs, k - 1);
      PageIs(rs[k - 1].records, rs[k - 1].limit, Follow(rs, k - 1).cursor);
    }
  }

  lemma {:induction false} FinitelyManyPages(rs: seq<Request>, k: nat, records: seq<Record>)
    requires k <= |rs| && Unchanging(rs, k, records) && DistinctPositions(records) && GoesOn(rs, k)
    ensures k <= |records|
  {
    hide Precedes, Paginate, Follow;
    UnchangingFacts(rs, k, records);
    PagesDescend(rs, k);
    PagesProgress(rs, k);
    PrecedesOrders();
    var all := Follow(rs, k).collected;
    forall x | x in all ensures x in records {
      CollectedFrom(rs, k, records, x);
    }
    DistinctFit(all, records);
  }

  lemma {:induction false} DistinctFit(a: seq<Record>, b: seq<Record>)
    requires Distinct(a) && forall x :: x in a ==> x in b
    ensures |a| <= |b|
    decreases |a|
  {
    if a != [] {
      var x := a[|a| - 1];
      assert x in b;
      var i :| 0 <= i < |b| && b[i] == x;
      var a', b' := a[..|a| - 1], b[..i] + b[i + 1..];
      forall y | y in a' ensures y in b' {
        assert y in b;
        var j :| 0 <= j < |b| && b[j] == y;
        assert j != i;
        assert b'[if j < i then j else j - 1] == y;
      }
      DistinctFit(a', b');
    }
  }
}
