/** The CSV export of src/audit/exportService.ts, over entries already redacted,
    and a reader for section 2 of RFC 4180 that takes LF as the end of a record. */
module CsvExport {
  import opened Wrappers

  /** The exported columns of an entry; metadata is its JSON text. */
  datatype Entry = Entry(id: string, timestamp: string, action: string, severity: string, actor: string,
                         resource: string, resourceId: string, ipAddress: Option<string>,
                         correlationId: Option<string>, metadata: string)

  const HEADERS: seq<string> :=
    ["id", "timestamp", "action", "severity", "actor", "resource", "resourceId", "ipAddress", "correlationId",
     "metadata"]

  /** `entry[column]`. */
  function Field(e: Entry, column: string): Option<string> {
    if column == "id" then Some(e.id)
    else if column == "timestamp" then Some(e.timestamp)
    else if column == "action" then Some(e.action)
    else if column == "severity" then Some(e.severity)
    else if column == "actor" then Some(e.actor)
    else if column == "resource" then Some(e.resource)
    else if column == "resourceId" then Some(e.resourceId)
    else if column == "ipAddress" then e.ipAddress
    else if column == "correlationId" then e.correlationId
    else Some(e.metadata)
  }

  function Columns(e: Entry): (cells: seq<Option<string>>)
    ensures |cells| == |HEADERS|
  {
    seq(|HEADERS|, i requires 0 <= i < |HEADERS| => Field(e, HEADERS[i]))
  }

  predicate FormulaStart(c: char) { c in "=+-@\t\r" }

  predicate Dangerous(s: string) { s != [] && FormulaStart(s[0]) }

  function Neutralise(s: string): string { if Dangerous(s) then "'" + s else s }

  predicate Special(c: char) { c == '"' || c == ',' || c == '\n' || c == '\r' }

  predicate NeedsQuotes(s: string) { exists i :: 0 <= i < |s| && Special(s[i]) }

  /** Every quote doubled. */
  function Doubled(s: string): string {
    if s == [] then [] else (if s[0] == '"' then [s[0], s[0]] else [s[0]]) + Doubled(s[1..])
  }

  function CsvCell(v: Option<string>): string {
    if v.None? then ""
    else
      var safe := Neutralise(v.value);
      if NeedsQuotes(safe) then ['"'] + Doubled(safe) + ['"'] else safe
  }

  /** `map(csvCell)` and `join(',')`. */
  function Row(cells: seq<Option<string>>): string {
    if cells == [] then "" else CsvCell(cells[0]) + MoreCells(cells[1..])
  }

  function MoreCells(cells: seq<Option<string>>): string {
    if cells == [] then "" else [','] + CsvCell(cells[0]) + MoreCells(cells[1..])
  }

  function HeaderLine(names: seq<string>): string {
    if names == [] then "" else names[0] + MoreNames(names[1..])
  }

  function MoreNames(names: seq<string>): string {
    if names == [] then "" else [','] + names[0] + MoreNames(names[1..])
  }

  /** One line per entry, for the first `k` entries. */
  function Lines(entries: seq<Entry>, k: nat): string
    requires k <= |entries|
  {
    if k == 0 then "" else Lines(entries, k - 1) + (Row(Columns(entries[k - 1])) + "\n")
  }

  /** The whole file. */
  function Export(entries: seq<Entry>): string { (HeaderLine(HEADERS) + "\n") + Lines(entries, |entries|) }

  method CreateCsvExport(entries: seq<Entry>) returns (text: string, recordCount: nat)
    ensures text == Export(entries) && recordCount == |entries|
  {
    hide Row, Columns, HeaderLine;
    var header := HeaderLine(HEADERS) + "\n";
    text, recordCount := header, 0;
    for i := 0 to |entries|
      invariant recordCount == i && text == header + Lines(entries, i)
    {
      var line := Row(Columns(entries[i])) + "\n";
      recordCount := recordCount + 1;
      text := text + line;
      assert header + (Lines(entries, i) + line) == header + Lines(entries, i) + line;
    }
  }

  // ---------------------------------------------------------------------
  // Reading
  // ---------------------------------------------------------------------

  datatype Reading<+T> = Fail | Got(value: T, rest: string)

  /** After an opening quote: up to the quote that is not doubled. */
  function ReadQuoted(s: string): (r: Reading<string>)
    ensures r.Got? ==> |r.rest| < |s|
  {
    if s == [] then Fail
    else if s[0] != '"' then
      var r := ReadQuoted(s[1..]);
      if r.Fail? then Fail else Got([s[0]] + r.value, r.rest)
    else if |s| > 1 && s[1] == '"' then
      var r := ReadQuoted(s[2..]);
      if r.Fail? then Fail else Got("\"" + r.value, r.rest)
    else Got("", s[1..])
  }

  /** Up to a comma or a line end, with no quote or carriage return on the way. */
  function ReadPlain(s: string): (r: Reading<string>)
    ensures r.Got? ==> |r.rest| <= |s|
  {
    if s == [] || s[0] == ',' || s[0] == '\n' then Got("", s)
    else if s[0] == '"' || s[0] == '\r' then Fail
    else
      var r := ReadPlain(s[1..]);
      if r.Fail? then Fail else Got([s[0]] + r.value, r.rest)
  }

  function ReadField(s: string): (r: Reading<string>)
    ensures r.Got? ==> |r.rest| <= |s|
  {
    if s != [] && s[0] == '"' then ReadQuoted(s[1..]) else ReadPlain(s)
  }

  function ReadRecord(s: string): (r: Reading<seq<string>>)
    ensures r.Got? ==> |r.rest| <= |s| && (s != [] ==> |r.rest| < |s|)
    decreases |s|
  {
    var f := ReadField(s);
    if f.Fail? then Fail
    else if f.rest == [] then Got([f.value], [])
    else if f.rest[0] == '\n' then Got([f.value], f.rest[1..])
    else if f.rest[0] == ',' then
      var more := ReadRecord(f.rest[1..]);
      if more.Fail? then Fail else Got([f.value] + more.value, more.rest)
    else Fail
  }

  function ReadFile(s: string): Option<seq<seq<string>>>
    decreases |s|
  {
    if s == [] then Some([])
    else
      var r := ReadRecord(s);
      if r.Fail? then None
      else
        var more := ReadFile(r.rest);
        if more.None? then None else Some([r.value] + more.value)
  }

  // ---------------------------------------------------------------------
  // Round trip
  // ---------------------------------------------------------------------

  /** The text a column should read back as. */
  function Shown(v: Option<string>): string { if v.None? then "" else Neutralise(v.value) }

  function ShownAll(cells: seq<Option<string>>): (r: seq<string>)
    ensures |r| == |cells|
  {
    if cells == [] then [] else [Shown(cells[0])] + ShownAll(cells[1..])
  }

  function Records(entries: seq<Entry>, k: nat): (r: seq<seq<string>>)
    requires k <= |entries|
    ensures |r| == k && forall i :: 0 <= i < k ==> r[i] == ShownAll(Columns(entries[i]))
  {
    if k == 0 then [] else Records(entries, k - 1) + [ShownAll(Columns(entries[k - 1]))]
  }

  predicate EndsField(rest: string) { rest != [] && (rest[0] == ',' || rest[0] == '\n') }

  lemma {:induction false} QuotedStep(c: char, more: string)
    requires ReadQuoted(more).Got?
    ensures ReadQuoted((if c == '"' then [c, c] else [c]) + more)
         == Got([c] + ReadQuoted(more).value, ReadQuoted(more).rest)
  {
    var text := (if c == '"' then [c, c] else [c]) + more;
    assert if c == '"' then text[2..] == more else text[1..] == more;
  }

  lemma {:induction false} QuotedReads(s: string, rest: string)
    requires EndsField(rest)
    ensures ReadQuoted(Doubled(s) + (['"'] + rest)) == Got(s, rest)
    decreases |s|
  {
    hide ReadQuoted;
    var text := Doubled(s) + (['"'] + rest);
    if s == [] {
      assert text == ['"'] + rest;
      QuotedEnd(rest);
    } else {
      var more := Doubled(s[1..]) + (['"'] + rest);
      QuotedReads(s[1..], rest);
      assert text == (if s[0] == '"' then [s[0], s[0]] else [s[0]]) + more;
      QuotedStep(s[0], more);
      assert s == [s[0]] + s[1..];
    }
  }

  lemma {:induction false} QuotedEnd(rest: string)
    requires EndsField(rest)
    ensures ReadQuoted(['"'] + rest) == Got("", rest)
  {
    assert (['"'] + rest)[1..] == rest;
  }

  lemma {:induction false} PlainReads(s: string, rest: string)
    requires EndsField(rest) && !NeedsQuotes(s)
    ensures ReadPlain(s + rest) == Got(s, rest)
    decreases |s|
  {
    if s == [] {
      assert s + rest == rest;
    } else {
      assert !Special(s[0]);
      assert forall i :: 0 <= i < |s[1..]| ==> s[1..][i] == s[i + 1];
      PlainReads(s[1..], rest);
      assert s + rest == [s[0]] + (s[1..] + rest) && (s + rest)[1..] == s[1..] + rest;
      assert s == [s[0]] + s[1..];
    }
  }

  lemma {:induction false} CellReads(v: Option<string>, rest: string)
    requires EndsField(rest)
    ensures ReadField(CsvCell(v) + rest) == Got(Shown(v), rest)
  {
    hide Neutralise, Doubled, ReadQuoted, ReadPlain, NeedsQuotes;
    var safe := Shown(v);
    var text := CsvCell(v) + rest;
    EmptyIsPlain();
    if NeedsQuotes(safe) {
      QuotedReads(safe, rest);
      assert text[1..] == Doubled(safe) + (['"'] + rest);
    } else {
      PlainReads(safe, rest);
      PlainStarts(safe, rest);
    }
  }

  lemma {:induction false} EmptyIsPlain()
    ensures !NeedsQuotes("")
  {
  }

  lemma {:induction false} PlainStarts(s: string, rest: string)
    requires !NeedsQuotes(s) && EndsField(rest)
    ensures (s + rest)[0] != '"'
  {
    assert s == [] || !Special(s[0]);
  }

  lemma {:induction false} RecordStep(field: string, s: string, rest: string)
    requires ReadField(s) == Got(field, rest) && EndsField(rest)
    ensures rest[0] == '\n' ==> ReadRecord(s) == Got([field], rest[1..])
    ensures rest[0] == ',' && ReadRecord(rest[1..]).Got? ==>
              ReadRecord(s) == Got([field] + ReadRecord(rest[1..]).value, ReadRecord(rest[1..]).rest)
  {
    hide ReadField;
  }

  lemma {:induction false} RowText(cells: seq<Option<string>>, u: string)
    requires cells != []
    ensures Row(cells) + u == CsvCell(cells[0]) + (MoreCells(cells[1..]) + u)
    ensures MoreCells(cells) + u == [','] + (Row(cells) + u)
  {
    hide CsvCell;
    var c, more := CsvCell(cells[0]), MoreCells(cells[1..]);
    assert (c + more) + u == c + (more + u);
    assert ([','] + c + more) + u == [','] + ((c + more) + u);
  }

  lemma {:induction false} RowReads(cells: seq<Option<string>>, rest: string)
    requires cells != []
    ensures ReadRecord(Row(cells) + (['\n'] + rest)) == Got(ShownAll(cells), rest)
    decreases |cells|
  {
    hide CsvCell, Shown, ReadField, ReadRecord, Row;
    var u := ['\n'] + rest;
    var tail := MoreCells(cells[1..]) + u;
    RowText(cells, u);
    if |cells| == 1 {
      assert tail == u && tail[1..] == rest;
      assert ShownAll(cells) == [Shown(cells[0])];
    } else {
      RowText(cells[1..], u);
      assert tail[1..] == Row(cells[1..]) + u;
      RowReads(cells[1..], rest);
    }
    CellReads(cells[0], tail);
    RecordStep(Shown(cells[0]), CsvCell(cells[0]) + tail, tail);
  }

  function Named(names: seq<string>): (cells: seq<Option<string>>)
    ensures |cells| == |names| && forall i :: 0 <= i < |names| ==> cells[i] == Some(names[i])
  {
    seq(|names|, i requires 0 <= i < |names| => Some(names[i]))
  }

  predicate Letters(s: string) { forall i :: 0 <= i < |s| ==> 'A' <= s[i] <= 'z' }

  /** A name made of letters is its own cell. */
  lemma {:induction false} LetterCell(name: string)
    requires Letters(name)
    ensures CsvCell(Some(name)) == name && Shown(Some(name)) == name
  {
    assert !Dangerous(name) && !NeedsQuotes(name);
  }

  lemma {:induction false} HeaderIsRow(names: seq<string>)
    requires forall i :: 0 <= i < |names| ==> Letters(names[i])
    ensures HeaderLine(names) == Row(Named(names)) && MoreNames(names) == MoreCells(Named(names))
    decreases |names|
  {
    hide CsvCell, Letters;
    if names != [] {
      LetterCell(names[0]);
      HeaderIsRow(names[1..]);
      assert Named(names)[1..] == Named(names[1..]);
    }
  }

  lemma {:induction false} NamesShown(names: seq<string>)
    requires forall i :: 0 <= i < |names| ==> Letters(names[i])
    ensures ShownAll(Named(names)) == names
  {
    hide ShownAll, Shown, Letters, Named;
    forall j | 0 <= j < |names| ensures ShownAll(Named(names))[j] == names[j] {
      ShownAt(Named(names), j);
      LetterCell(names[j]);
    }
  }

  lemma {:induction false} HeadersAreLetters()
    ensures forall i :: 0 <= i < |HEADERS| ==> Letters(HEADERS[i])
  {
  }

  lemma {:induction false} FileStep(s: string, record: seq<string>, rest: string)
    requires s != [] && ReadRecord(s) == Got(record, rest) && ReadFile(rest).Some?
    ensures ReadFile(s) == Some([record] + ReadFile(rest).value)
  {
    hide ReadRecord;
  }

  /** The lines of entries i.. of the file. */
  function LinesFrom(entries: seq<Entry>, i: nat): string
    requires i <= |entries|
    decreases |entries| - i
  {
    if i == |entries| then "" else Row(Columns(entries[i])) + (['\n'] + LinesFrom(entries, i + 1))
  }

  lemma {:induction false} LinesSplit(entries: seq<Entry>, i: nat)
    requires i <= |entries|
    ensures Lines(entries, |entries|) == Lines(entries, i) + LinesFrom(entries, i)
    decreases |entries| - i
  {
    hide Row, Columns;
    if i < |entries| {
      LinesSplit(entries, i + 1);
      var before, row, after := Lines(entries, i), Row(Columns(entries[i])), LinesFrom(entries, i + 1);
      assert (before + (row + "\n")) + after == before + (row + (['\n'] + after));
    }
  }

  lemma {:induction false} LinesRead(entries: seq<Entry>, i: nat)
    requires i <= |entries|
    ensures ReadFile(LinesFrom(entries, i)) == Some(Records(entries, |entries|)[i..])
    decreases |entries| - i
  {
    hide Row, Columns, ReadRecord, ShownAll, ReadFile;
    var all := Records(entries, |entries|);
    if i == |entries| {
      EmptyFile();
      assert all[i..] == [];
    } else {
      LinesRead(entries, i + 1);
      RowReads(Columns(entries[i]), LinesFrom(entries, i + 1));
      FileStep(LinesFrom(entries, i), ShownAll(Columns(entries[i])), LinesFrom(entries, i + 1));
      assert all[i..] == [all[i]] + all[i + 1..];
    }
  }

  lemma {:induction false} EmptyFile()
    ensures ReadFile("") == Some([])
  {
  }

  lemma {:induction false} ShownAt(cells: seq<Option<string>>, j: nat)
    requires j < |cells|
    ensures ShownAll(cells)[j] == Shown(cells[j]) && !Dangerous(ShownAll(cells)[j])
    decreases |cells|
  {
    if j > 0 {
      ShownAt(cells[1..], j - 1);
    }
  }

  lemma {:induction false} FileReads(names: seq<string>, entries: seq<Entry>)
    requires names != [] && forall i :: 0 <= i < |names| ==> Letters(names[i])
    ensures ReadFile((HeaderLine(names) + "\n") + Lines(entries, |entries|))
         == Some([names] + Records(entries, |entries|))
  {
    hide Row, Lines, ReadRecord, ShownAll, HeaderLine, ReadFile, Named, Letters, Columns;
    var rest, all := LinesFrom(entries, 0), Records(entries, |entries|);
    LinesSplit(entries, 0);
    NoLines(entries);
    LinesRead(entries, 0);
    HeaderIsRow(names);
    NamesShown(names);
    RowReads(Named(names), rest);
    var text := (HeaderLine(names) + "\n") + Lines(entries, |entries|);
    assert text == HeaderLine(names) + (['\n'] + rest);
    FileStep(text, names, rest);
    assert all[0..] == all;
  }

  lemma {:induction false} NoLines(entries: seq<Entry>)
    ensures Lines(entries, 0) == ""
  {
  }

  /** Reading the exported file back gives the header and exactly one record per
      entry. */
  lemma {:induction false} ExportReadsBack(entries: seq<Entry>)
    ensures ReadFile(Export(entries))
         == Some([["id", "timestamp", "action", "severity", "actor", "resource", "resourceId", "ipAddress",
                   "correlationId", "metadata"]] + Records(entries, |entries|))
    ensures |Records(entries, |entries|)| == |entries|
  {
    hide ReadFile, Records, HeaderLine, Letters;
    HeadersAreLetters();
    FileReads(HEADERS, entries);
  }

  /** `r` is `t`, with an apostrophe in front exactly if `t` starts like a formula. */
  predicate Harmless(t: string, r: string) {
    if t != [] && t[0] in {'=', '+', '-', '@', '\t', '\r'} then r == "'" + t else r == t
  }

  lemma {:induction false} ShownHarmless(v: Option<string>)
    ensures Harmless(if v.Some? then v.value else "", Shown(v)) && !Dangerous(Shown(v))
  {
  }

  /** Each record has ten fields, the columns in the order of the header, each made
      harmless, and none starts with a formula character. */
  lemma {:induction false} RecordFields(entries: seq<Entry>, i: nat)
    requires i < |entries|
    ensures var e, r := entries[i], Records(entries, |entries|)[i];
            && |r| == |HEADERS| == 10
            && Harmless(e.id, r[0]) && Harmless(e.timestamp, r[1]) && Harmless(e.action, r[2])
            && Harmless(e.severity, r[3]) && Harmless(e.actor, r[4]) && Harmless(e.resource, r[5])
            && Harmless(e.resourceId, r[6])
            && Harmless(if e.ipAddress.Some? then e.ipAddress.value else "", r[7])
            && Harmless(if e.correlationId.Some? then e.correlationId.value else "", r[8])
            && Harmless(e.metadata, r[9])
            && forall j :: 0 <= j < 10 ==> !Dangerous(r[j])
  {
    hide ShownAll, Shown, Dangerous, Harmless;
    var e := entries[i];
    FieldsAre(e);
    forall j | 0 <= j < 10
      ensures var v := Columns(e)[j];
              Records(entries, |entries|)[i][j] == Shown(v) && !Dangerous(Shown(v))
              && Harmless(if v.Some? then v.value else "", Shown(v))
    {
      ShownAt(Columns(e), j);
      ShownHarmless(Columns(e)[j]);
    }
  }

  lemma {:induction false} FieldsAre(e: Entry)
    ensures Columns(e) == [Some(e.id), Some(e.timestamp), Some(e.action), Some(e.severity), Some(e.actor),
                           Some(e.resource), Some(e.resourceId), e.ipAddress, e.correlationId, Some(e.metadata)]
  {
    NamesDiffer();
  }

  lemma {:induction false} NamesDiffer()
    ensures forall i, j :: 0 <= i < j < |HEADERS| ==> HEADERS[i] != HEADERS[j]
  {
    assert "resource"[0] == 'r';
  }

  /** A cell is written as it is unless it holds a quote, a comma or a line break. */
  lemma {:induction false} CellQuotedExactly(t: string)
    ensures var r := Shown(Some(t));
            if forall i :: 0 <= i < |r| ==> r[i] !in {'"', ',', '\n', '\r'}
            then CsvCell(Some(t)) == r
            else |CsvCell(Some(t))| >= 2 && CsvCell(Some(t))[0] == '"'
  {
  }

  /** Neutralising loses exactly one bit: a dangerous text and the same text
      already carrying the apostrophe become equal. */
  lemma {:induction false} NeutraliseExactly(s: string, t: string)
    ensures Neutralise(s) == Neutralise(t)
       <==> s == t || (Dangerous(s) && t == "'" + s) || (Dangerous(t) && s == "'" + t)
  {
    assert ("'" + s)[1..] == s && ("'" + t)[1..] == t;
  }
}
