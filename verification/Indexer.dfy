/** Replay-safe event indexing: src/contracts/indexer.ts, processor.ts,
    repository.ts, dedupe.ts and the in-memory cursor of cursor.repository.ts.
    The validator's verdict on a payload is an input, and storage does not fail. */
module Indexer {
  import opened Wrappers
  import opened Decimals
  import opened Sorting

  datatype Event = Event(contractId: string, eventId: string, sequence: nat, content: string)

  datatype Verdict = Accept(event: Event) | Reject(reason: string)

  /** `sequence` is what `extractSequence` finds; `None` is Infinity. */
  datatype Payload = Payload(sequence: Option<nat>, verdict: Verdict)

  /** The validator accepts only a non-negative integer sequence, and keeps it. */
  predicate Consistent(p: Payload) { p.verdict.Accept? ==> p.sequence == Some(p.verdict.event.sequence) }

  ghost predicate AllConsistent(b: seq<Payload>) { forall i :: 0 <= i < |b| ==> Consistent(b[i]) }

  function Joined(e: Event): string { e.contractId + ":" + e.eventId }

  /** `buildEventKey`. */
  function Key(e: Event): string { Joined(e) + ":" + Digits(e.sequence) }

  predicate HasKey(p: Payload, k: string) { p.verdict.Accept? && Key(p.verdict.event) == k }

  /** The order of `sortEventsBySequence`: by sequence, unsequenced payloads last. */
  predicate Earlier(a: Payload, b: Payload) {
    a.sequence.Some? && (b.sequence.None? || a.sequence.value < b.sequence.value)
  }

  datatype State = State(events: map<string, Event>, cursors: map<string, nat>)

  datatype BatchResult = BatchResult(processedCount: nat, duplicateCount: nat, errors: seq<string>,
                                     newCursor: Option<nat>)

  datatype Status = Accepted | Duplicate | Invalid

  // --- What a batch says, whatever its order --------------------------------

  /** The first accepted event with key `k`. */
  function First(b: seq<Payload>, k: string): Option<Event> {
    if b == [] then None
    else
      var f, last := First(b[..|b| - 1], k), b[|b| - 1];
      if f.Some? then f else if HasKey(last, k) then Some(last.verdict.event) else None
  }

  function Reasons(b: seq<Payload>): seq<string> {
    if b == [] then []
    else
      var last := b[|b| - 1];
      Reasons(b[..|b| - 1]) + if last.verdict.Reject? then [last.verdict.reason] else []
  }

  /** `m` is the highest sequence of an accepted event, or -1 if there is none. */
  ghost predicate Highest(b: seq<Payload>, m: int) {
    && (forall p :: p in b && p.verdict.Accept? ==> p.verdict.event.sequence <= m)
    && (m == -1 || exists p :: p in b && p.verdict.Accept? && p.verdict.event.sequence == m)
  }

  /** Stored events stay, and every new key gets the first event submitted with it. */
  ghost predicate Merged(m: map<string, Event>, m': map<string, Event>, b: seq<Payload>) {
    forall k :: Lookup(m', k) == if k in m then Some(m[k]) else First(b, k)
  }

  /** What indexing a batch does, in terms of the batch as submitted: events
      are merged, every payload is counted once, the rejected ones are reported in
      order of sequence, and the cursor becomes the batch's highest sequence if it
      has an accepted event. */
  ghost predicate Indexes(st: State, source: string, b: seq<Payload>, st': State, r: BatchResult) {
    && Merged(st.events, st'.events, b)
    && r.processedCount == |st'.events| - |st.events|
    && r.processedCount + r.duplicateCount + |r.errors| == |b|
    && r.errors == Reasons(Sort(Earlier, b)) && |r.errors| == |Reasons(b)|
    && (if r.newCursor.None? then Highest(b, -1) && st'.cursors == st.cursors
        else Highest(b, r.newCursor.value) && st'.cursors == st.cursors[source := r.newCursor.value])
  }

  class ContractEventIndexer {
    var eventsByKey: map<string, Event>
    var cursorsBySourceId: map<string, nat>

    constructor ()
      ensures Contents() == State(map[], map[])
    {
      eventsByKey, cursorsBySourceId := map[], map[];
    }

    function Contents(): State
      reads this
    {
      State(eventsByKey, cursorsBySourceId)
    }

    method IndexBatch(sourceId: string, b: seq<Payload>) returns (r: BatchResult)
      requires AllConsistent(b)
      modifies this
      ensures Indexes(old(Contents()), sourceId, b, Contents(), r)
    {
      hide First, Reasons, Highest;
      var sorted := Sort(Earlier, b);
      SortedFacts(b);
      var processed, duplicates, errors, maxSequence := IngestAll(sorted);
      forall k ensures First(sorted, k) == First(b, k) {
        FirstOfSorted(b, k);
      }
      HighestOfSorted(b, maxSequence);
      var newCursor := None;
      if maxSequence >= 0 {
        cursorsBySourceId := cursorsBySourceId[sourceId := maxSequence];
        newCursor := Some(maxSequence);
      }
      r := BatchResult(processed, duplicates, errors, newCursor);
    }

    /** The loop of `indexBatch`. */
    method IngestAll(sorted: seq<Payload>)
      returns (processed: nat, duplicates: nat, errors: seq<string>, maxSequence: int)
      requires AllConsistent(sorted)
      modifies this`eventsByKey
      ensures Merged(old(eventsByKey), eventsByKey, sorted)
      ensures processed == |eventsByKey| - |old(eventsByKey)|
      ensures processed + duplicates + |errors| == |sorted| && errors == Reasons(sorted)
      ensures maxSequence >= -1 && Highest(sorted, maxSequence)
    {
      hide Key, Highest, Merged, Reasons, UpdateMaxSequence;
      processed, duplicates, errors, maxSequence := 0, 0, [], -1;
      EmptyBatch(eventsByKey);
      for i := 0 to |sorted|
        invariant Merged(old(eventsByKey), eventsByKey, sorted[..i])
        invariant processed == |eventsByKey| - |old(eventsByKey)|
        invariant processed + duplicates + |errors| == i && errors == Reasons(sorted[..i])
        invariant maxSequence >= -1 && Highest(sorted[..i], maxSequence)
      {
        var p := sorted[i];
        HighestStep(sorted[..i], p, maxSequence);
        ReasonsStep(sorted[..i], p);
        assert sorted[..i] + [p] == sorted[..i + 1];
        ghost var before := eventsByKey;
        var status := Ingest(p);
        MergedStep(old(eventsByKey), before, sorted[..i], p, eventsByKey);
        match status {
          case Accepted =>
            processed := processed + 1;
            maxSequence := UpdateMaxSequence(p, maxSequence);
          case Duplicate =>
            duplicates := duplicates + 1;
            maxSequence := UpdateMaxSequence(p, maxSequence);
          case Invalid =>
            errors := errors + [p.verdict.reason];
        }
      }
      assert sorted[..|sorted|] == sorted;
    }

    /** `ContractEventProcessor.ingest`. */
    method Ingest(p: Payload) returns (status: Status)
      modifies this`eventsByKey
      ensures status.Invalid? <==> p.verdict.Reject?
      ensures !status.Accepted? ==> eventsByKey == old(eventsByKey)
      ensures status.Duplicate? ==> Key(p.verdict.event) in old(eventsByKey)
      ensures status.Accepted? ==>
                var k := Key(p.verdict.event);
                k !in old(eventsByKey) && eventsByKey == old(eventsByKey)[k := p.verdict.event]
                && |eventsByKey| == |old(eventsByKey)| + 1
    {
      if p.verdict.Reject? {
        return Invalid;
      }
      var key := Key(p.verdict.event);
      if key in eventsByKey {
        return Duplicate;
      }
      ghost var before := eventsByKey;
      eventsByKey := eventsByKey[key := p.verdict.event];
      assert eventsByKey.Keys == before.Keys + {key};
      return Accepted;
    }
  }

  function UpdateMaxSequence(p: Payload, currentMax: int): int {
    if p.sequence.Some? then Max(currentMax, p.sequence.value) else currentMax
  }

  lemma {:induction false} EmptyBatch(m: map<string, Event>)
    ensures Merged(m, m, []) && Reasons([]) == [] && Highest([], -1)
  {
  }

  lemma {:induction false} FirstStep(b: seq<Payload>, p: Payload, k: string)
    ensures First(b + [p], k)
         == if First(b, k).Some? then First(b, k) else if HasKey(p, k) then Some(p.verdict.event) else None
  {
    hide HasKey;
    assert (b + [p])[..|b|] == b;
  }

  lemma {:induction false} ReasonsStep(b: seq<Payload>, p: Payload)
    ensures Reasons(b + [p]) == Reasons(b) + if p.verdict.Reject? then [p.verdict.reason] else []
  {
    assert (b + [p])[..|b|] == b;
  }

  lemma {:induction false} MergedStep(m0: map<string, Event>, m: map<string, Event>, b: seq<Payload>, p: Payload,
                                      m': map<string, Event>)
    requires Merged(m0, m, b)
    requires if p.verdict.Accept? && Key(p.verdict.event) !in m then m' == m[Key(p.verdict.event) := p.verdict.event]
             else m' == m
    ensures Merged(m0, m', b + [p])
  {
    hide Key, First, Reasons;
    forall k ensures Lookup(m', k) == if k in m0 then Some(m0[k]) else First(b + [p], k) {
      FirstStep(b, p, k);
      assert Lookup(m, k) == if k in m0 then Some(m0[k]) else First(b, k);
    }
  }

  lemma {:induction false} HighestStep(b: seq<Payload>, p: Payload, m: int)
    requires Highest(b, m) && m >= -1 && Consistent(p)
    ensures Highest(b + [p], if p.verdict.Accept? then UpdateMaxSequence(p, m) else m)
    ensures UpdateMaxSequence(p, m) >= -1
  {
    if p.verdict.Accept? && p.verdict.event.sequence > m {
      assert p in b + [p];
    } else if m != -1 {
      var q :| q in b && q.verdict.Accept? && q.verdict.event.sequence == m;
      assert q in b + [p];
    }
  }

  // --- Sorting a batch changes none of that ----------------------------------

  /** Events with the same key have the same sequence. */
  lemma {:induction false} KeyExactly(a: Event, b: Event)
    ensures Key(a) == Key(b)
       <==> a.sequence == b.sequence && Joined(a) == Joined(b)
  {
    hide Joined;
    if Key(a) == Key(b) {
      SplitKey(Joined(a), a.sequence, Joined(b), b.sequence);
    }
  }

  lemma {:induction false} SplitKey(x: string, m: nat, y: string, n: nat)
    requires x + ":" + Digits(m) == y + ":" + Digits(n)
    ensures m == n && x == y
  {
    hide Digits;
    var s, t := x + ":" + Digits(m), y + ":" + Digits(n);
    DigitsAreDigits(m);
    DigitsAreDigits(n);
    assert s[|x|] == ':' && t[|y|] == ':';
    assert forall i :: |x| < i < |s| ==> s[i] == Digits(m)[i - |x| - 1];
    assert forall i :: |y| < i < |t| ==> t[i] == Digits(n)[i - |y| - 1];
    assert |x| == |y|;
    assert x == s[..|x|] && y == t[..|x|];
    assert Digits(m) == s[|x| + 1..] && Digits(n) == t[|x| + 1..];
    DigitsInjective(m, n);
  }

  lemma {:induction false} EarlierOrders()
    ensures Order(Earlier)
  {
  }

  lemma {:induction false} SortedFacts(b: seq<Payload>)
    requires AllConsistent(b)
    ensures var s := Sort(Earlier, b);
            && AllConsistent(s) && Sorted(Earlier, s) && |s| == |b| && |Reasons(s)| == |Reasons(b)|
  {
    hide Sort, Reasons;
    EarlierOrders();
    SortSorted(Earlier, b);
    SortPermutes(Earlier, b);
    var s := Sort(Earlier, b);
    assert |multiset(s)| == |multiset(b)|;
    forall i | 0 <= i < |s| ensures Consistent(s[i]) {
      SortKeepsElements(Earlier, b, s[i]);
    }
    ReasonsOfSorted(b);
  }

  /** The payloads with sequence `q`, in order. */
  function OfSequence(b: seq<Payload>, q: Option<nat>): seq<Payload> {
    if b == [] then []
    else
      var last := b[|b| - 1];
      OfSequence(b[..|b| - 1], q) + if last.sequence == q then [last] else []
  }

  lemma {:induction false} OfSequenceInsert(s: seq<Payload>, x: Payload, q: Option<nat>)
    ensures OfSequence(Insert(Earlier, s, x), q) == OfSequence(s, q) + if x.sequence == q then [x] else []
    decreases |s|
  {
    var r := Insert(Earlier, s, x);
    if s == [] || !Earlier(x, s[|s| - 1]) {
      assert r[..|r| - 1] == s;
    } else {
      OfSequenceInsert(s[..|s| - 1], x, q);
      assert r[..|r| - 1] == Insert(Earlier, s[..|s| - 1], x);
    }
  }

  /** The order in which a batch is worked off and its rejections reported: by
      sequence, those without one last, and at one sequence as submitted. */
  lemma {:induction false} WorkedOffInOrder(b: seq<Payload>, q: Option<nat>)
    ensures OfSequence(Sort(Earlier, b), q) == OfSequence(b, q)
    ensures forall i, j :: 0 <= i < j < |Sort(Earlier, b)| ==>
              var x, y := Sort(Earlier, b)[i].sequence, Sort(Earlier, b)[j].sequence;
              y.None? || (x.Some? && x.value <= y.value)
    decreases |b|
  {
    EarlierOrders();
    SortSorted(Earlier, b);
    if b != [] {
      WorkedOffInOrder(b[..|b| - 1], q);
      OfSequenceInsert(Sort(Earlier, b[..|b| - 1]), b[|b| - 1], q);
    }
  }

  lemma {:induction false} ReasonsInsert(s: seq<Payload>, x: Payload)
    ensures |Reasons(Insert(Earlier, s, x))| == |Reasons(s)| + if x.verdict.Reject? then 1 else 0
    decreases |s|
  {
    hide Earlier;
    var r := Insert(Earlier, s, x);
    if s == [] || !Earlier(x, s[|s| - 1]) {
      assert r[..|r| - 1] == s;
    } else {
      ReasonsInsert(s[..|s| - 1], x);
      assert r[..|r| - 1] == Insert(Earlier, s[..|s| - 1], x);
    }
  }

  lemma {:induction false} ReasonsOfSorted(b: seq<Payload>)
    ensures |Reasons(Sort(Earlier, b))| == |Reasons(b)|
    decreases |b|
  {
    if b != [] {
      ReasonsOfSorted(b[..|b| - 1]);
      ReasonsInsert(Sort(Earlier, b[..|b| - 1]), b[|b| - 1]);
    }
  }

  lemma {:induction false} FirstFrom(b: seq<Payload>, k: string)
    ensures First(b, k).Some? <==> exists p :: p in b && HasKey(p, k)
    ensures First(b, k).Some? ==> Key(First(b, k).value) == k
    decreases |b|
  {
    hide Key;
    if b != [] {
      FirstFrom(b[..|b| - 1], k);
      assert b == b[..|b| - 1] + [b[|b| - 1]];
    }
  }

  lemma {:induction false} SameKeyNotEarlier(a: Payload, b: Payload, k: string)
    requires Consistent(a) && Consistent(b) && HasKey(a, k) && HasKey(b, k)
    ensures !Earlier(a, b)
  {
    KeyExactly(a.verdict.event, b.verdict.event);
  }

  /** The sort is stable where it matters: payloads with one key keep their order. */
  lemma {:induction false} FirstInsert(s: seq<Payload>, x: Payload, k: string)
    requires AllConsistent(s) && Consistent(x)
    ensures First(Insert(Earlier, s, x), k)
         == if First(s, k).Some? then First(s, k) else if HasKey(x, k) then Some(x.verdict.event) else None
    decreases |s|
  {
    hide HasKey, Earlier, Consistent;
    var r := Insert(Earlier, s, x);
    if s == [] || !Earlier(x, s[|s| - 1]) {
      assert r[..|r| - 1] == s;
    } else {
      var front, last := s[..|s| - 1], s[|s| - 1];
      FirstInsert(front, x, k);
      assert r[..|r| - 1] == Insert(Earlier, front, x);
      if HasKey(x, k) && HasKey(last, k) {
        SameKeyNotEarlier(x, last, k);
      }
    }
  }

  lemma {:induction false} FirstOfSorted(b: seq<Payload>, k: string)
    requires AllConsistent(b)
    ensures First(Sort(Earlier, b), k) == First(b, k)
    decreases |b|
  {
    hide HasKey, Earlier, Consistent;
    if b != [] {
      var front := b[..|b| - 1];
      FirstOfSorted(front, k);
      var s := Sort(Earlier, front);
      forall i | 0 <= i < |s| ensures Consistent(s[i]) {
        SortKeepsElements(Earlier, front, s[i]);
      }
      FirstInsert(s, b[|b| - 1], k);
    }
  }

  lemma {:induction false} HighestOfSorted(b: seq<Payload>, m: int)
    ensures Highest(Sort(Earlier, b), m) <==> Highest(b, m)
  {
    hide Sort;
    forall p ensures p in Sort(Earlier, b) <==> p in b {
      SortKeepsElements(Earlier, b, p);
    }
  }

  // ---------------------------------------------------------------------
  // Any number of batches
  // ---------------------------------------------------------------------

  datatype Batch = Batch(source: string, payloads: seq<Payload>)

  /** `sts[k]` is the store after the first `k` batches, `rs` the results. */
  ghost predicate History(bs: seq<Batch>, sts: seq<State>, rs: seq<BatchResult>, k: nat)
    requires k <= |bs| && |sts| == |bs| + 1 && |rs| == |bs|
  {
    k == 0 ||
    (History(bs, sts, rs, k - 1) && Indexes(sts[k - 1], bs[k - 1].source, bs[k - 1].payloads, sts[k], rs[k - 1]))
  }

  /** Every payload of the first `k` batches, in order. */
  function Submitted(bs: seq<Batch>, k: nat): seq<Payload>
    requires k <= |bs|
  {
    if k == 0 then [] else Submitted(bs, k - 1) + bs[k - 1].payloads
  }

  function TotalProcessed(rs: seq<BatchResult>, k: nat): nat
    requires k <= |rs|
  {
    if k == 0 then 0 else TotalProcessed(rs, k - 1) + rs[k - 1].processedCount
  }

  ghost predicate KeyIn(ps: seq<Payload>, key: string) { exists p :: p in ps && HasKey(p, key) }

  /** What is stored, and how much was accepted in all, over any run of batches. */
  lemma {:induction false} StoredIsSubmitted(bs: seq<Batch>, sts: seq<State>, rs: seq<BatchResult>, k: nat)
    requires k <= |bs| && |sts| == |bs| + 1 && |rs| == |bs| && History(bs, sts, rs, k)
    ensures forall key :: key in sts[k].events <==> key in sts[0].events || KeyIn(Submitted(bs, k), key)
    ensures TotalProcessed(rs, k) == |sts[k].events| - |sts[0].events|
    decreases k
  {
    hide HasKey, First;
    if k > 0 {
      StoredIsSubmitted(bs, sts, rs, k - 1);
      var st, st', b := sts[k - 1], sts[k], bs[k - 1].payloads;
      forall key ensures key in st'.events <==> key in st.events || KeyIn(b, key) {
        FirstFrom(b, key);
        assert Lookup(st'.events, key) == if key in st.events then Some(st.events[key]) else First(b, key);
      }
      forall key ensures KeyIn(Submitted(bs, k), key) <==> KeyIn(Submitted(bs, k - 1), key) || KeyIn(b, key) {
        KeyInJoined(Submitted(bs, k - 1), b, key);
      }
    }
  }

  lemma {:induction false} FirstJoined(a: seq<Payload>, b: seq<Payload>, key: string)
    ensures First(a + b, key) == if First(a, key).Some? then First(a, key) else First(b, key)
    decreases |b|
  {
    hide HasKey;
    if b == [] {
      assert a + b == a;
    } else {
      var front, last := b[..|b| - 1], b[|b| - 1];
      FirstJoined(a, front, key);
      assert a + b == (a + front) + [last] && b == front + [last];
      FirstStep(a + front, last, key);
      FirstStep(front, last, key);
    }
  }

  /** The first event ever submitted with a key is the one that stays stored. */
  lemma {:induction false} FirstSubmittedStays(bs: seq<Batch>, sts: seq<State>, rs: seq<BatchResult>, k: nat,
                                               key: string)
    requires k <= |bs| && |sts| == |bs| + 1 && |rs| == |bs| && History(bs, sts, rs, k)
    ensures Lookup(sts[k].events, key)
         == if key in sts[0].events then Some(sts[0].events[key]) else First(Submitted(bs, k), key)
    decreases k
  {
    hide HasKey, First;
    if k == 0 {
      FirstFrom([], key);
    } else {
      FirstSubmittedStays(bs, sts, rs, k - 1, key);
      FirstJoined(Submitted(bs, k - 1), bs[k - 1].payloads, key);
      assert Merged(sts[k - 1].events, sts[k].events, bs[k - 1].payloads);
    }
  }

  lemma {:induction false} KeyInJoined(a: seq<Payload>, b: seq<Payload>, key: string)
    ensures KeyIn(a + b, key) <==> KeyIn(a, key) || KeyIn(b, key)
  {
    hide HasKey;
    if KeyIn(a, key) {
      var p :| p in a && HasKey(p, key);
      assert p in a + b;
    }
    if KeyIn(b, key) {
      var p :| p in b && HasKey(p, key);
      assert p in a + b;
    }
  }

  /** However the same payloads are ordered, repeated and split into batches, the
      same keys end up stored and the same number of events is accepted. */
  lemma {:induction false} SplittingDoesNotMatter(bs: seq<Batch>, sts: seq<State>, rs: seq<BatchResult>,
                                                  bs': seq<Batch>, sts': seq<State>, rs': seq<BatchResult>)
    requires |sts| == |bs| + 1 && |rs| == |bs| && History(bs, sts, rs, |bs|)
    requires |sts'| == |bs'| + 1 && |rs'| == |bs'| && History(bs', sts', rs', |bs'|)
    requires sts[0] == sts'[0]
    requires forall p :: p in Submitted(bs, |bs|) <==> p in Submitted(bs', |bs'|)
    ensures sts[|bs|].events.Keys == sts'[|bs'|].events.Keys
    ensures TotalProcessed(rs, |bs|) == TotalProcessed(rs', |bs'|)
  {
    hide HasKey, Submitted, History;
    StoredIsSubmitted(bs, sts, rs, |bs|);
    StoredIsSubmitted(bs', sts', rs', |bs'|);
    var a, b := sts[|bs|].events, sts'[|bs'|].events;
    forall key ensures key in a <==> key in b {
      assert KeyIn(Submitted(bs, |bs|), key) <==> KeyIn(Submitted(bs', |bs'|), key);
    }
    assert a.Keys == b.Keys;
    assert |a.Keys| == |b.Keys|;
  }

  lemma {:induction false} HighestUnique(b: seq<Payload>, m: int, n: int)
    requires Highest(b, m) && Highest(b, n) && m >= -1 && n >= -1
    ensures m == n
  {
  }

  /** A batch whose keys are all stored already adds nothing. */
  lemma {:induction false} NothingNew(st: State, source: string, b: seq<Payload>, st': State, r: BatchResult)
    requires Indexes(st, source, b, st', r) && forall key :: KeyIn(b, key) ==> key in st.events
    ensures r.processedCount == 0 && st'.events == st.events && r.duplicateCount == |b| - |Reasons(b)|
  {
    hide HasKey, First, Reasons, Highest;
    forall key ensures Lookup(st'.events, key) == Lookup(st.events, key) {
      FirstFrom(b, key);
    }
    forall key ensures key in st'.events <==> key in st.events {
      assert Lookup(st'.events, key) == Lookup(st.events, key);
    }
    assert st'.events.Keys == st.events.Keys;
    forall key | key in st.events ensures st'.events[key] == st.events[key] {
      assert Lookup(st'.events, key) == Lookup(st.events, key);
    }
  }

  /** Replaying a batch at once accepts nothing and leaves the store, cursor
      included, exactly as it was. */
  lemma {:induction false} ReplayIsNoOp(st: State, source: string, b: seq<Payload>, st': State, r: BatchResult,
                                        st'': State, r': BatchResult)
    requires Indexes(st, source, b, st', r) && Indexes(st', source, b, st'', r')
    ensures r'.processedCount == 0 && r'.duplicateCount == |b| - |Reasons(b)| && st'' == st'
    ensures r'.newCursor == r.newCursor
  {
    hide HasKey, First, Reasons, Highest;
    forall key | KeyIn(b, key) ensures key in st'.events {
      FirstFrom(b, key);
      assert Lookup(st'.events, key) == if key in st.events then Some(st.events[key]) else First(b, key);
    }
    NothingNew(st', source, b, st'', r');
    HighestUnique(b, if r.newCursor.Some? then r.newCursor.value else -1,
                  if r'.newCursor.Some? then r'.newCursor.value else -1);
    assert st''.cursors == st'.cursors;
  }

  // ---------------------------------------------------------------------
  // When the cursor moves backwards
  // ---------------------------------------------------------------------

  /** The batch has an accepted event, so it writes the cursor. */
  ghost predicate Moves(b: seq<Payload>) { exists p :: p in b && p.verdict.Accept? }

  ghost predicate AllBelow(b: seq<Payload>, m: int) {
    forall p :: p in b && p.verdict.Accept? ==> p.verdict.event.sequence < m
  }

  lemma {:induction false} CursorAfter(st: State, source: string, b: seq<Payload>, st': State, r: BatchResult)
    requires Indexes(st, source, b, st', r)
    ensures if Moves(b)
            then source in st'.cursors && Highest(b, st'.cursors[source])
                 && st'.cursors == st.cursors[source := st'.cursors[source]]
            else st'.cursors == st.cursors
  {
    hide First, Reasons;
    if p :| p in b && p.verdict.Accept? {
      assert !Highest(b, -1);
    }
  }

  lemma {:induction false} HighestBelow(b: seq<Payload>, h: nat, m: int)
    requires Highest(b, h)
    ensures h < m <==> AllBelow(b, m)
  {
  }

  /** One batch takes its source's cursor back if and only if it has accepted
      events and all of them lie before the cursor. */
  lemma {:induction false} CursorRegressesExactly(st: State, source: string, b: seq<Payload>, st': State,
                                                  r: BatchResult)
    requires Indexes(st, source, b, st', r) && source in st.cursors
    ensures source in st'.cursors
    ensures st'.cursors[source] < st.cursors[source] <==> Moves(b) && AllBelow(b, st.cursors[source])
  {
    hide Indexes, Highest, Moves, AllBelow;
    CursorAfter(st, source, b, st', r);
    if Moves(b) {
      HighestBelow(b, st'.cursors[source], st.cursors[source]);
    }
  }

  /** The latest of the first `k` batches that wrote the cursor of `source`. */
  ghost function LastMove(bs: seq<Batch>, k: nat, source: string): (i: Option<nat>)
    requires k <= |bs|
    ensures i.Some? ==> i.value < k && bs[i.value].source == source && Moves(bs[i.value].payloads)
  {
    if k == 0 then None
    else if bs[k - 1].source == source && Moves(bs[k - 1].payloads) then Some(k - 1)
    else LastMove(bs, k - 1, source)
  }

  /** Over any run a cursor is the highest accepted sequence of the latest batch
      of its source that had one, whatever earlier batches reached. */
  lemma {:induction false} CursorOverRun(bs: seq<Batch>, sts: seq<State>, rs: seq<BatchResult>, k: nat, source: string)
    requires k <= |bs| && |sts| == |bs| + 1 && |rs| == |bs| && History(bs, sts, rs, k)
    ensures match LastMove(bs, k, source)
            case None => Lookup(sts[k].cursors, source) == Lookup(sts[0].cursors, source)
            case Some(i) => source in sts[k].cursors && Highest(bs[i].payloads, sts[k].cursors[source])
    decreases k
  {
    hide Indexes, Highest, Moves;
    if k > 0 {
      CursorOverRun(bs, sts, rs, k - 1, source);
      CursorAfter(sts[k - 1], bs[k - 1].source, bs[k - 1].payloads, sts[k], rs[k - 1]);
    }
  }

  /** Some accepted event of `a` lies after every accepted event of `b`. */
  ghost predicate Overtakes(a: seq<Payload>, b: seq<Payload>) {
    exists q :: q in a && q.verdict.Accept? && AllBelow(b, q.verdict.event.sequence)
  }

  lemma {:induction false} HighestOvertakes(a: seq<Payload>, h: nat, b: seq<Payload>, g: nat)
    requires Highest(a, h) && Highest(b, g)
    ensures g < h <==> Overtakes(a, b)
  {
    if g < h {
      var q :| q in a && q.verdict.Accept? && q.verdict.event.sequence == h;
      assert AllBelow(b, q.verdict.event.sequence);
    }
  }

  /** In any run, a batch takes back a cursor that an earlier batch of the run
      wrote if and only if it is of the same source, has accepted events, and all
      of them lie before some accepted event of the last batch that wrote it. */
  lemma {:induction false} CursorDropsExactly(bs: seq<Batch>, sts: seq<State>, rs: seq<BatchResult>, k: nat,
                                              source: string)
    requires 0 < k <= |bs| && |sts| == |bs| + 1 && |rs| == |bs| && History(bs, sts, rs, k)
    requires LastMove(bs, k - 1, source).Some?
    ensures source in sts[k - 1].cursors && source in sts[k].cursors
    ensures sts[k].cursors[source] < sts[k - 1].cursors[source]
       <==> && bs[k - 1].source == source && Moves(bs[k - 1].payloads)
            && Overtakes(bs[LastMove(bs, k - 1, source).value].payloads, bs[k - 1].payloads)
  {
    hide Indexes, Highest, Moves, Overtakes;
    var last := LastMove(bs, k - 1, source).value;
    CursorOverRun(bs, sts, rs, k - 1, source);
    CursorAfter(sts[k - 1], bs[k - 1].source, bs[k - 1].payloads, sts[k], rs[k - 1]);
    if bs[k - 1].source == source && Moves(bs[k - 1].payloads) {
      HighestOvertakes(bs[last].payloads, sts[k - 1].cursors[source], bs[k - 1].payloads, sts[k].cursors[source]);
    }
  }

  /** A payload the validator accepts as `e`. */
  function Submit(e: Event): Payload { Payload(Some(e.sequence), Accept(e)) }

  lemma {:induction false} SingleBatch(st: State, source: string, e: Event)
    requires Key(e) !in st.events
    ensures Indexes(st, source, [Submit(e)], State(st.events[Key(e) := e], st.cursors[source := e.sequence]),
                    BatchResult(1, 0, [], Some(e.sequence)))
  {
    hide Key, HasKey;
    var b := [Submit(e)];
    EmptyBatch(st.events);
    MergedStep(st.events, st.events, [], Submit(e), st.events[Key(e) := e]);
    ReasonsStep([], Submit(e));
    assert [] + b == b;
    assert b[..0] == [] && Sort(Earlier, b) == b;
    assert Submit(e) in b;
    assert st.events[Key(e) := e].Keys == st.events.Keys + {Key(e)};
  }

  /** Two batches of one event each, the second with the lower sequence: both are
      accepted and the cursor drops. */
  lemma {:induction false} CursorDrops(source: string, e: Event, f: Event)
    returns (sts: seq<State>, rs: seq<BatchResult>)
    requires f.sequence < e.sequence
    ensures |sts| == 3 && |rs| == 2 && sts[0] == State(map[], map[])
    ensures History([Batch(source, [Submit(e)]), Batch(source, [Submit(f)])], sts, rs, 2)
    ensures rs[0].processedCount == 1 && rs[1].processedCount == 1
    ensures source in sts[1].cursors && source in sts[2].cursors
    ensures sts[1].cursors[source] == e.sequence && sts[2].cursors[source] == f.sequence
  {
    hide Indexes, Key;
    var st0 := State(map[], map[]);
    var st1 := State(map[Key(e) := e], map[source := e.sequence]);
    var st2 := State(st1.events[Key(f) := f], st1.cursors[source := f.sequence]);
    SingleBatch(st0, source, e);
    KeyExactly(e, f);
    SingleBatch(st1, source, f);
    sts := [st0, st1, st2];
    rs := [BatchResult(1, 0, [], Some(e.sequence)), BatchResult(1, 0, [], Some(f.sequence))];
    assert History([Batch(source, [Submit(e)]), Batch(source, [Submit(f)])], sts, rs, 1);
  }

  // ---------------------------------------------------------------------
  // When a key identifies an event
  // ---------------------------------------------------------------------

  /** `trim` leaves `s` alone and there is something left; `white` is what it removes. */
  predicate Trimmed(white: char -> bool, s: string) { s != [] && !white(s[0]) && !white(s[|s| - 1]) }

  /** The validator hands on trimmed, non-empty identifiers. */
  predicate Named(white: char -> bool, e: Event) { Trimmed(white, e.contractId) && Trimmed(white, e.eventId) }

  /** `contractId:eventId` can be cut at its `i`-th character into two other
      acceptable identifiers. */
  ghost predicate Cut(white: char -> bool, e: Event, i: nat) {
    var s := Joined(e);
    i < |s| && i != |e.contractId| && s[i] == ':' && Trimmed(white, s[..i]) && Trimmed(white, s[i + 1..])
  }

  ghost predicate SameIdentity(e: Event, f: Event) {
    e.contractId == f.contractId && e.eventId == f.eventId && e.sequence == f.sequence
  }

  lemma {:induction false} JoinedParts(e: Event)
    ensures var s, i := Joined(e), |e.contractId|;
            i < |s| && s[i] == ':' && s[..i] == e.contractId && s[i + 1..] == e.eventId
  {
  }

  lemma {:induction false} CutCollides(white: char -> bool, e: Event, i: nat) returns (f: Event)
    requires Cut(white, e, i)
    ensures Named(white, f) && Key(f) == Key(e) && !SameIdentity(e, f)
  {
    hide Key, Trimmed;
    var s := Joined(e);
    f := Event(s[..i], s[i + 1..], e.sequence, e.content);
    assert s == s[..i] + [s[i]] + s[i + 1..];
    KeyExactly(f, e);
  }

  lemma {:induction false} SameKeySameIdentity(white: char -> bool, e: Event, f: Event)
    requires Named(white, f) && Key(f) == Key(e) && !Cut(white, e, |f.contractId|)
    ensures SameIdentity(e, f)
  {
    hide Key, Trimmed, Joined;
    JoinedParts(e);
    JoinedParts(f);
    KeyExactly(f, e);
  }

  /** No other event the validator hands on has the key of `e` if and only if
      `contractId:eventId` has no further colon with trimmed text on both sides. */
  lemma {:induction false} KeyIdentifiesExactly(white: char -> bool, e: Event)
    ensures (forall f :: Named(white, f) && Key(f) == Key(e) ==> SameIdentity(e, f))
       <==> !exists i: nat :: Cut(white, e, i)
  {
    hide Key, Named, Cut, SameIdentity;
    if i: nat :| Cut(white, e, i) {
      var f := CutCollides(white, e, i);
    } else {
      forall f | Named(white, f) && Key(f) == Key(e) ensures SameIdentity(e, f) {
        SameKeySameIdentity(white, e, f);
      }
    }
  }

  /** Two events the code cannot tell apart. */
  lemma {:induction false} CollidingPair(white: char -> bool, n: nat, content: string, content': string)
    requires !white('a')
    ensures var e, f := Event("a:a", "a", n, content), Event("a", "a:a", n, content');
            Named(white, e) && Named(white, f) && Key(e) == Key(f) && !SameIdentity(e, f)
  {
    var e, f := Event("a:a", "a", n, content), Event("a", "a:a", n, content');
    assert Joined(e) == "a:a:a" && Joined(f) == "a:a:a";
    KeyExactly(e, f);
  }

  /** An event whose key is taken is counted as a duplicate and not stored,
      whatever event holds the key. */
  lemma {:induction false} CollidingEventLost(st: State, source: string, e: Event, f: Event, st': State, r: BatchResult)
    requires Lookup(st.events, Key(e)) == Some(e) && Key(f) == Key(e)
    requires Indexes(st, source, [Submit(f)], st', r)
    ensures r.processedCount == 0 && r.duplicateCount == 1 && r.errors == [] && st'.events == st.events
  {
    hide Key, First, Highest;
    var b := [Submit(f)];
    ReasonsStep([], Submit(f));
    assert [] + b == b;
    forall key | KeyIn(b, key) ensures key in st.events {
      assert forall p :: p in b ==> p == Submit(f);
    }
    NothingNew(st, source, b, st', r);
  }
}
