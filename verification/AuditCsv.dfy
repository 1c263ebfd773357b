/** The audit log's CSV export, and a reader after RFC 4180, section 2, that gets the rows back. */
module AuditCsv {
  import opened Common
  import opened Text

  /** A field of an audit row: null, or its string form (ISO date, JSON, or plain text). */
  datatype Cell = Missing | Present(text: string)

  datatype Column =
    | Id | CreatedAt | ActorName | Action | TargetType | TargetId | Outcome | Summary | Metadata
    | ActorId | ActorRole | ActorDept | Ip | UserAgent

  const COLUMNS: seq<Column> :=
    [Id, CreatedAt, ActorName, Action, TargetType, TargetId, Outcome, Summary, Metadata,
     ActorId, ActorRole, ActorDept, Ip, UserAgent]

  type AuditRow = Column -> Cell

  predicate IsLetter(c: char) { 'a' <= c <= 'z' || 'A' <= c <= 'Z' }

  function NameOf(col: Column): (name: string)
    ensures forall i :: 0 <= i < |name| ==> IsLetter(name[i])
  {
    match col
    case Id => "id"
    case CreatedAt => "createdAt"
    case ActorName => "actorName"
    case Action => "action"
    case TargetType => "targetType"
    case TargetId => "targetId"
    case Outcome => "outcome"
    case Summary => "summary"
    case Metadata => "metadata"
    case ActorId => "actorId"
    case ActorRole => "actorRole"
    case ActorDept => "actorDept"
    case Ip => "ip"
    case UserAgent => "userAgent"
  }

  predicate IsFormula(s: string) { s != "" && s[0] in {'=', '+', '-', '@'} }

  /** The text a spreadsheet will not take for a formula. */
  function Guarded(s: string): string { if IsFormula(s) then "'" + s else s }

  function TextOf(c: Cell): string { if c.Missing? then "" else c.text }

  predicate NeedsQuotes(s: string) { '"' in s || ',' in s || '\n' in s }

  function DoubleQuotes(s: string): string {
    if s == "" then "" else (if s[0] == '"' then "\"\"" else [s[0]]) + DoubleQuotes(s[1..])
  }

  function EscText(s: string): string { if NeedsQuotes(s) then "\"" + DoubleQuotes(s) + "\"" else s }

  function Esc(c: Cell): string { EscText(Guarded(TextOf(c))) }

  /** What a reader should find in the header, and in a row. */
  function Header(cols: seq<Column>): (fields: seq<string>)
    ensures |fields| == |cols|
  {
    seq(|cols|, i requires 0 <= i < |cols| => NameOf(cols[i]))
  }

  function FieldsOf(cols: seq<Column>, row: AuditRow): (fields: seq<string>)
    ensures |fields| == |cols|
  {
    seq(|cols|, i requires 0 <= i < |cols| => Guarded(TextOf(row(cols[i]))))
  }

  function EscAll(fields: seq<string>): (cells: seq<string>)
    ensures |cells| == |fields| && forall i :: 0 <= i < |fields| ==> cells[i] == EscText(fields[i])
  {
    seq(|fields|, i requires 0 <= i < |fields| => EscText(fields[i]))
  }

  function Line(fields: seq<string>): string {
    Join(EscAll(fields), ",")
  }

  function LinesOf(records: seq<seq<string>>): (lines: seq<string>)
    ensures |lines| == |records| && forall i :: 0 <= i < |records| ==> lines[i] == Line(records[i])
  {
    seq(|records|, i requires 0 <= i < |records| => Line(records[i]))
  }

  function Records(cols: seq<Column>, rows: seq<AuditRow>): (records: seq<seq<string>>)
    ensures |records| == |rows| + 1
    ensures records[0] == Header(cols) && forall i :: 0 <= i < |rows| ==> records[i + 1] == FieldsOf(cols, rows[i])
  {
    [Header(cols)] + seq(|rows|, i requires 0 <= i < |rows| => FieldsOf(cols, rows[i]))
  }

  /** Header, rows, and a final line break. */
  function CsvText(cols: seq<Column>, rows: seq<AuditRow>): string {
    Join(LinesOf(Records(cols, rows)), "\n") + "\n"
  }

  lemma {:induction false} TakeOneMore<T>(s: seq<T>, all: seq<T>, x: T)
    requires |s| < |all| && s == all[..|s|] && x == all[|s|]
    ensures s + [x] == all[..|s| + 1]
  {
  }

  /** A carriage return the writer leaves unquoted. */
  predicate BareCr(s: string) { '\r' in s && '"' !in s && ',' !in s && '\n' !in s }

  lemma {:induction false} LettersArePlain(s: string)
    requires forall i :: 0 <= i < |s| ==> IsLetter(s[i])
    ensures !NeedsQuotes(s) && !IsFormula(s) && !BareCr(s)
  {
  }

  lemma {:induction false} HeaderIsPlain(cols: seq<Column>)
    ensures Line(Header(cols)) == Join(Header(cols), ",")
    ensures forall f :: f in Header(cols) ==> !IsFormula(f) && !BareCr(f)
  {
    forall i | 0 <= i < |Header(cols)|
      ensures !NeedsQuotes(Header(cols)[i]) && !IsFormula(Header(cols)[i]) && !BareCr(Header(cols)[i]) {
      LettersArePlain(Header(cols)[i]);
    }
    assert EscAll(Header(cols)) == Header(cols);
  }

  method HeaderLine(cols: seq<Column>) returns (line: string)
    ensures line == Line(Header(cols))
  {
    HeaderIsPlain(cols);
    line := Join(Header(cols), ",");
  }

  function EscRow(cols: seq<Column>, row: AuditRow): (cells: seq<string>)
    ensures cells == EscAll(FieldsOf(cols, row))
  {
    seq(|cols|, i requires 0 <= i < |cols| => Esc(row(cols[i])))
  }

  method RowLine(cols: seq<Column>, row: AuditRow) returns (line: string)
    ensures line == Line(FieldsOf(cols, row))
  {
    var cells := EscRow(cols, row);
    line := Join(cells, ",");
  }

  method CsvLines(cols: seq<Column>, rows: seq<AuditRow>, ghost records: seq<seq<string>>) returns (lines: seq<string>)
    requires |records| == |rows| + 1
    requires records[0] == Header(cols) && forall i :: 0 <= i < |rows| ==> records[i + 1] == FieldsOf(cols, rows[i])
    ensures lines == LinesOf(records)
  {
    var header := HeaderLine(cols);
    lines := [header];
    for i := 0 to |rows|
      invariant lines == LinesOf(records)[..i + 1]
    {
      var line := RowLine(cols, rows[i]);
      TakeOneMore(lines, LinesOf(records), line);
      lines := lines + [line];
    }
  }

  method WriteCsv(cols: seq<Column>, rows: seq<AuditRow>) returns (csv: string)
    ensures csv == CsvText(cols, rows)
  {
    var lines := CsvLines(cols, rows, Records(cols, rows));
    csv := Join(lines, "\n") + "\n";
  }

  method ToCsv(rows: seq<AuditRow>) returns (csv: string)
    ensures csv == CsvText(COLUMNS, rows)
  {
    csv := WriteCsv(COLUMNS, rows);
  }

  // --- the reader ----------------------------------------------------------

  datatype FieldRead = FieldRead(field: string, rest: string)
  datatype RecordRead = RecordRead(fields: seq<string>, rest: string)

  /** An unquoted field: up to the next comma or line break, and free of quotes. */
  function ReadPlain(s: string, strict: bool): Option<FieldRead> {
    if s == "" || s[0] == ',' || s[0] == '\n' then Some(FieldRead("", s))
    else if s[0] == '"' || (strict && s[0] == '\r') then None
    else
      var r := ReadPlain(s[1..], strict);
      if r.None? then None else Some(FieldRead([s[0]] + r.value.field, r.value.rest))
  }

  /** The inside of a quoted field: a doubled quote is one quote, a single one ends it. */
  function ReadQuoted(s: string): Option<FieldRead> {
    if s == "" then None
    else if s[0] != '"' then
      var r := ReadQuoted(s[1..]);
      if r.None? then None else Some(FieldRead([s[0]] + r.value.field, r.value.rest))
    else if |s| > 1 && s[1] == '"' then
      var r := ReadQuoted(s[2..]);
      if r.None? then None else Some(FieldRead("\"" + r.value.field, r.value.rest))
    else Some(FieldRead("", s[1..]))
  }

  function ReadField(s: string, strict: bool): Option<FieldRead> {
    if s != "" && s[0] == '"' then ReadQuoted(s[1..]) else ReadPlain(s, strict)
  }

  lemma {:induction false} ReadPlainShrinks(s: string, strict: bool)
    ensures ReadPlain(s, strict).Some? ==> |ReadPlain(s, strict).value.rest| <= |s|
  {
    if !(s == "" || s[0] == ',' || s[0] == '\n') {
      ReadPlainShrinks(s[1..], strict);
    }
  }

  lemma {:induction false} ReadQuotedShrinks(s: string)
    ensures ReadQuoted(s).Some? ==> |ReadQuoted(s).value.rest| < |s|
    decreases |s|
  {
    if s == "" {
    } else {
      if s[0] != '"' {
        ReadQuotedShrinks(s[1..]);
      } else if |s| > 1 && s[1] == '"' {
        ReadQuotedShrinks(s[2..]);
      }
    }
  }

  /** Fields separated by commas, ended by a line break or the end of the file. */
  function ReadRecord(s: string, strict: bool): (r: Option<RecordRead>)
    ensures r.Some? ==> |r.value.rest| <= |s| && (s != "" ==> |r.value.rest| < |s|)
    decreases |s|
  {
    ReadPlainShrinks(s, strict);
    if s != "" then ReadQuotedShrinks(s[1..]); ReadRecordBody(s, strict) else ReadRecordBody(s, strict)
  }

  function ReadRecordBody(s: string, strict: bool): (r: Option<RecordRead>)
    requires ReadField(s, strict).Some? ==> |ReadField(s, strict).value.rest| <= |s|
    ensures r.Some? ==> |r.value.rest| <= |s| && (s != "" ==> |r.value.rest| < |s|)
    decreases |s|, 0
  {
    var f := ReadField(s, strict);
    if f.None? then None
    else if f.value.rest == "" then Some(RecordRead([f.value.field], ""))
    else if f.value.rest[0] == '\n' then Some(RecordRead([f.value.field], f.value.rest[1..]))
    else if f.value.rest[0] == ',' then
      var more := ReadRecord(f.value.rest[1..], strict);
      if more.None? then None else Some(RecordRead([f.value.field] + more.value.fields, more.value.rest))
    else None
  }

  /** Records until the end of the file. */
  function ReadFile(s: string, strict: bool): Option<seq<seq<string>>>
    decreases |s|
  {
    if s == "" then Some([])
    else
      var r := ReadRecord(s, strict);
      if r.None? then None
      else
        var more := ReadFile(r.value.rest, strict);
        if more.None? then None else Some([r.value.fields] + more.value)
  }

  // --- writing then reading ------------------------------------------------

  predicate AtDelimiter(rest: string) { rest != "" && (rest[0] == ',' || rest[0] == '\n') }

  function InQuotes(c: char): string { if c == '"' then "\"\"" else [c] }

  lemma {:induction false} QuotedChar(c: char, tail: string)
    requires ReadQuoted(tail).Some?
    ensures var r := ReadQuoted(tail).value;
      ReadQuoted(InQuotes(c) + tail) == Some(FieldRead([c] + r.field, r.rest))
  {
    var all := InQuotes(c) + tail;
    if c == '"' {
      assert all[2..] == tail;
    } else {
      assert all[1..] == tail;
    }
  }

  lemma {:induction false} QuotedRoundTrip(s: string, rest: string)
    requires AtDelimiter(rest)
    ensures ReadQuoted(DoubleQuotes(s) + "\"" + rest) == Some(FieldRead(s, rest))
  {
    if s == "" {
      assert DoubleQuotes(s) + "\"" + rest == "\"" + rest;
      assert ("\"" + rest)[1..] == rest;
    } else {
      var more := DoubleQuotes(s[1..]);
      QuotedRoundTrip(s[1..], rest);
      QuotedChar(s[0], more + "\"" + rest);
      assert DoubleQuotes(s) == InQuotes(s[0]) + more;
      Regroup(InQuotes(s[0]), more, "\"");
      Regroup(InQuotes(s[0]), more + "\"", rest);
      assert [s[0]] + s[1..] == s;
    }
  }

  lemma {:induction false} PlainRoundTrip(s: string, rest: string, strict: bool)
    requires AtDelimiter(rest) && !NeedsQuotes(s)
    ensures ReadPlain(s + rest, strict) == if strict && '\r' in s then None else Some(FieldRead(s, rest))
  {
    if s == "" {
      assert s + rest == rest;
    } else {
      assert (s + rest)[1..] == s[1..] + rest;
      assert [s[0]] + s[1..] == s;
      assert s[0] in s && forall c :: c in s <==> c == s[0] || c in s[1..];
      PlainRoundTrip(s[1..], rest, strict);
    }
  }

  lemma {:induction false} QuotedField(s: string, rest: string, strict: bool)
    requires AtDelimiter(rest) && NeedsQuotes(s)
    ensures ReadField(EscText(s) + rest, strict) == Some(FieldRead(s, rest))
  {
    var all := EscText(s) + rest;
    var inner := DoubleQuotes(s) + "\"" + rest;
    assert all == "\"" + inner;
    assert all[0] == '"' && all[1..] == inner;
    QuotedRoundTrip(s, rest);
  }

  lemma {:induction false} PlainField(s: string, rest: string, strict: bool)
    requires AtDelimiter(rest) && !NeedsQuotes(s)
    ensures ReadField(EscText(s) + rest, strict) == if strict && BareCr(s) then None else Some(FieldRead(s, rest))
  {
    var all := s + rest;
    PlainRoundTrip(s, rest, strict);
    if s == "" {
      assert all == rest;
    } else {
      assert all[0] == s[0] && s[0] in s;
    }
  }

  lemma {:induction false} FieldRoundTrip(s: string, rest: string, strict: bool)
    requires AtDelimiter(rest)
    ensures ReadField(EscText(s) + rest, strict) == if strict && BareCr(s) then None else Some(FieldRead(s, rest))
  {
    if NeedsQuotes(s) {
      QuotedField(s, rest, strict);
    } else {
      PlainField(s, rest, strict);
    }
  }

  predicate AnyBareCr(fields: seq<string>) { exists f :: f in fields && BareCr(f) }

  lemma {:induction false} RecordRoundTrip(fields: seq<string>, rest: string, strict: bool)
    requires |fields| > 0
    ensures ReadRecord(Line(fields) + "\n" + rest, strict) ==
      if strict && AnyBareCr(fields) then None else Some(RecordRead(fields, rest))
  {
    var cells := EscAll(fields);
    var s := Line(fields) + "\n" + rest;
    assert forall f :: f in fields <==> f == fields[0] || f in fields[1..];
    if |fields| == 1 {
      assert s == EscText(fields[0]) + ("\n" + rest);
      assert fields == [fields[0]];
      FieldRoundTrip(fields[0], "\n" + rest, strict);
      assert ("\n" + rest)[1..] == rest;
    } else {
      var tail := Line(fields[1..]) + "\n" + rest;
      assert cells[1..] == EscAll(fields[1..]);
      assert s == EscText(fields[0]) + ("," + tail);
      FieldRoundTrip(fields[0], "," + tail, strict);
      assert ("," + tail)[1..] == tail;
      RecordRoundTrip(fields[1..], rest, strict);
      assert [fields[0]] + fields[1..] == fields;
    }
  }

  function FileText(records: seq<seq<string>>): string {
    if records == [] then "" else Line(records[0]) + "\n" + FileText(records[1..])
  }

  lemma {:induction false} FileRoundTrip(records: seq<seq<string>>, strict: bool)
    requires forall r :: r in records ==> |r| > 0
    ensures ReadFile(FileText(records), strict) ==
      if strict && exists r :: r in records && AnyBareCr(r) then None else Some(records)
  {
    if records == [] {
    } else {
      assert forall r :: r in records <==> r == records[0] || r in records[1..];
      RecordRoundTrip(records[0], FileText(records[1..]), strict);
      FileRoundTrip(records[1..], strict);
      assert [records[0]] + records[1..] == records;
    }
  }

  lemma {:induction false} JoinLines(records: seq<seq<string>>)
    requires records != []
    ensures Join(LinesOf(records), "\n") + "\n" == FileText(records)
  {
    if |records| > 1 {
      JoinLines(records[1..]);
      assert LinesOf(records)[1..] == LinesOf(records[1..]);
    } else {
      assert FileText(records[1..]) == "";
    }
  }

  /** Some row of the export has a field with an unquoted carriage return. */
  ghost predicate SomeBareCr(cols: seq<Column>, rows: seq<AuditRow>) {
    exists i :: 0 <= i < |rows| && AnyBareCr(FieldsOf(cols, rows[i]))
  }

  lemma {:induction false} BareCrInRecords(cols: seq<Column>, rows: seq<AuditRow>)
    ensures SomeBareCr(cols, rows) <==> exists r :: r in Records(cols, rows) && AnyBareCr(r)
  {
  }

  /**
   * Reading an export gives back the header and one record of fourteen fields per row,
   * each the formula-guarded text of the value. A reader that takes a carriage return
   * for a line break refuses the export exactly when some field holds one unquoted.
   */
  lemma {:induction false} ExportRoundTrip(cols: seq<Column>, rows: seq<AuditRow>, strict: bool)
    requires |cols| > 0
    ensures ReadFile(CsvText(cols, rows), strict) ==
      if strict && SomeBareCr(cols, rows) then None else Some(Records(cols, rows))
  {
    JoinLines(Records(cols, rows));
    FileRoundTrip(Records(cols, rows), strict);
    BareCrInRecords(cols, rows);
  }

  /** No field of an export starts with a formula character. */
  lemma {:induction false} NoFormulaSurvives(cols: seq<Column>, rows: seq<AuditRow>)
    ensures forall r, f :: r in Records(cols, rows) && f in r ==> f == "" || f[0] !in {'=', '+', '-', '@'}
  {
  }

  /** What stands in each place: nothing for a null, an apostrophe before a formula, the text otherwise. */
  lemma {:induction false} ExportedField(cols: seq<Column>, rows: seq<AuditRow>, i: nat, k: nat)
    requires i < |rows| && k < |cols|
    ensures |Records(cols, rows)| == |rows| + 1 && |Records(cols, rows)[i + 1]| == |cols|
    ensures var cell, field := rows[i](cols[k]), Records(cols, rows)[i + 1][k];
      && (cell == Missing || cell == Present("") ==> field == "")
      && (cell.Present? && cell.text != "" ==>
            field == if cell.text[0] in {'=', '+', '-', '@'} then "'" + cell.text else cell.text)
  {
  }

  /** Every field of an audit row has its one place, under a name no other field has. */
  lemma {:induction false} EveryColumnOnce(a: Column)
    ensures |COLUMNS| == 14 && Distinct(COLUMNS) && a in COLUMNS
    ensures forall b :: NameOf(a) == NameOf(b) ==> a == b
  {
    match a
    case Id => assert COLUMNS[0] == a;
    case CreatedAt => assert COLUMNS[1] == a;
    case ActorName => assert COLUMNS[2] == a;
    case Action => assert COLUMNS[3] == a;
    case TargetType => assert COLUMNS[4] == a;
    case TargetId => assert COLUMNS[5] == a;
    case Outcome => assert COLUMNS[6] == a;
    case Summary => assert COLUMNS[7] == a;
    case Metadata => assert COLUMNS[8] == a;
    case ActorId => assert COLUMNS[9] == a;
    case ActorRole => assert COLUMNS[10] == a;
    case ActorDept => assert COLUMNS[11] == a;
    case Ip => assert COLUMNS[12] == a;
    case UserAgent => assert COLUMNS[13] == a;
  }

  /** The guard loses exactly one distinction: a formula, and that formula already quoted. */
  lemma {:induction false} GuardConfusesExactly(s: string, t: string)
    ensures Guarded(s) == Guarded(t) <==> s == t || (IsFormula(t) && s == "'" + t) || (IsFormula(s) && t == "'" + s)
  {
    if IsFormula(s) && IsFormula(t) && Guarded(s) == Guarded(t) {
      assert Guarded(s)[1..] == s && Guarded(t)[1..] == t;
    }
  }

  /** The header of an export. */
  lemma {:induction false} HeaderNames(rows: seq<AuditRow>)
    ensures Records(COLUMNS, rows)[0] ==
      ["id", "createdAt", "actorName", "action", "targetType", "targetId", "outcome", "summary", "metadata",
       "actorId", "actorRole", "actorDept", "ip", "userAgent"]
  {
  }
}
