/** Reading CREATE TABLE statements into the schema model, and printing them back. */
module SchemaParser {
  import opened Common
  import opened Text
  import opened SchemaModel
  import opened SchemaLexer

  // --- bodies and their parts ----------------------------------------------

  /** Where the paren `d + 1` levels up is closed; `|s|` if it is not. */
  function FindClose(s: string, d: nat): (k: nat)
    ensures k <= |s|
  {
    if s == "" then 0
    else if s[0] == ')' && d == 0 then 0
    else 1 + FindClose(s[1..], if s[0] == '(' then d + 1 else if s[0] == ')' then d - 1 else d)
  }

  /** What stands between the open paren at `openIdx` and the close paren that matches it. */
  function ParenBody(str: string, openIdx: nat): Option<string> {
    if openIdx >= |str| || str[openIdx] != '(' then None
    else
      var s := str[openIdx + 1..];
      var k := FindClose(s, 0);
      if k == |s| then None else Some(s[..k])
  }

  method ExtractParenBody(str: string, openIdx: nat) returns (body: Option<string>)
    ensures body == ParenBody(str, openIdx)
  {
    if openIdx >= |str| || str[openIdx] != '(' {
      return None;
    }
    var depth := 0;
    var i := openIdx;
    while i < |str|
      invariant openIdx <= i <= |str|
      invariant i == openIdx ==> depth == 0
      invariant i > openIdx ==> depth >= 1
      invariant i > openIdx ==> FindClose(str[openIdx + 1..], 0) == i - openIdx - 1 + FindClose(str[i..], depth - 1)
    {
      assert i > openIdx ==> str[i..][0] == str[i] && str[i..][1..] == str[i + 1..];
      if str[i] == '(' {
        depth := depth + 1;
      } else if str[i] == ')' {
        depth := depth - 1;
        if depth == 0 {
          assert str[openIdx + 1..][..i - openIdx - 1] == str[openIdx + 1..i];
          return Some(str[openIdx + 1..i]);
        }
      }
      i := i + 1;
    }
    body := None;
  }

  /** Cuts at commas outside parens; a blank last piece is dropped. */
  function SplitFrom(s: string, current: string, depth: int): seq<string>
    decreases |s|
  {
    if s == "" then (if Blank(current) then [] else [current])
    else
      var d := if s[0] == '(' then depth + 1 else if s[0] == ')' then depth - 1 else depth;
      if s[0] == ',' && d == 0 then [current] + SplitFrom(s[1..], "", d)
      else SplitFrom(s[1..], current + [s[0]], d)
  }

  function TopLevelParts(body: string): seq<string> { SplitFrom(body, "", 0) }

  method SplitTopLevel(body: string) returns (parts: seq<string>)
    ensures parts == TopLevelParts(body)
  {
    parts := [];
    var depth := 0;
    var current := "";
    for i := 0 to |body|
      invariant TopLevelParts(body) == parts + SplitFrom(body[i..], current, depth)
    {
      var ch := body[i];
      assert body[i..][0] == ch && body[i..][1..] == body[i + 1..];
      if ch == '(' {
        depth := depth + 1;
      } else if ch == ')' {
        depth := depth - 1;
      }
      if ch == ',' && depth == 0 {
        parts := parts + [current];
        current := "";
      } else {
        current := current + [ch];
      }
    }
    if Trim(current) != "" {
      parts := parts + [current];
    }
  }

  // --- one part ------------------------------------------------------------

  datatype Part =
    | IndexPart(index: IndexDef)
    | ColumnPart(column: ColumnDef, inlinePrimaryKey: bool)
    | IgnoredPart

  function LeadingName(s: string): Option<string> {
    var n := NameAt(s, 0);
    if n.None? then None else Some(n.value.text)
  }

  function KeptNames(parts: seq<string>): seq<string> {
    if parts == [] then []
    else
      var n := LeadingName(Trim(parts[0]));
      (if n.Some? then [n.value] else []) + KeptNames(parts[1..])
  }

  function ParseIndexColumns(part: string): seq<string> {
    var body := ParenBody(part, IndexOf(part, '(', 0));
    if body.None? then [] else KeptNames(TopLevelParts(body.value))
  }

  /** An optional name between here and an open paren. */
  function OptionalNameThenParen(s: string, i: nat): Option<string>
    requires i <= |s|
  {
    var a := QuoteEnd(s, SkipSpaces(s, i));
    var b := WordCharsEnd(s, a);
    var p := SkipSpaces(s, QuoteEnd(s, b));
    if p < |s| && s[p] == '(' then Some(s[a..b]) else None
  }

  /** End of an optional KEY or INDEX. */
  function AfterKeyword(s: string, i: nat): (k: nat)
    requires i <= |s|
    ensures i <= k <= |s|
  {
    if WordAt(s, i, "key") then i + 3 else if WordAt(s, i, "index") then i + 5 else i
  }

  function UniqueName(s: string): Option<string> {
    if !WordAt(s, 0, "unique") then None
    else
      var p := SpacesAfter(s, 6);
      if p.None? then None
      else
        var named := OptionalNameThenParen(s, AfterKeyword(s, p.value));
        if named.Some? then named else OptionalNameThenParen(s, p.value)
  }

  function PlainIndexName(s: string): Option<string> {
    var q := AfterKeyword(s, 0);
    if q == 0 then None
    else
      var p := SpacesAfter(s, q);
      var n := if p.None? then None else NameAt(s, p.value);
      if n.None? then None
      else
        var o := SkipSpaces(s, n.value.end);
        if o < |s| && s[o] == '(' then Some(n.value.text) else None
  }

  function ParseIndexDefinition(part: string): Option<IndexDef> {
    if PhraseAt(part, 0, "primary", "key").Some? then Some(IndexDef(PRIMARY, ParseIndexColumns(part), true))
    else if UniqueName(part).Some? then Some(IndexDef(UniqueName(part).value, ParseIndexColumns(part), true))
    else if PlainIndexName(part).Some? then Some(IndexDef(PlainIndexName(part).value, ParseIndexColumns(part), false))
    else None
  }

  /** CONSTRAINT, FOREIGN KEY and CHECK clauses are skipped. */
  predicate IsSkippedClause(part: string) {
    || (WordAt(part, 0, "constraint") && WordEndsAt(part, 10))
    || (WordAt(part, 0, "check") && WordEndsAt(part, 5))
    || (PhraseAt(part, 0, "foreign", "key").Some? && WordEndsAt(part, PhraseAt(part, 0, "foreign", "key").value))
  }

  /** End of an optional keyword after white space. */
  function AfterModifier(s: string, i: nat, word: string): (k: nat)
    requires i <= |s|
    ensures i <= k <= |s|
  {
    var gap := SpacesAfter(s, i);
    if gap.Some? && WordAt(s, gap.value, word) then gap.value + |word| else i
  }

  /** End of optional white space and parens, which reach to the first close paren. */
  function ArgumentsEnd(s: string, i: nat): (k: nat)
    requires i <= |s|
    ensures i <= k <= |s|
  {
    var open := SkipSpaces(s, i);
    if open < |s| && s[open] == '(' && IndexOf(s, ')', open) < |s| then IndexOf(s, ')', open) + 1 else i
  }

  /** Length of the type at the front of a definition, zero if there is none. */
  function TypeLength(rest: string): (k: nat)
    ensures k <= |rest|
  {
    var e1 := LettersEnd(rest, 0);
    if e1 == 0 then 0
    else
      AfterModifier(rest, AfterModifier(rest, ArgumentsEnd(rest, e1), "unsigned"), "zerofill")
  }

  /** What the text after a column's name says. */
  function ReadRest(name: string, rest: string): Option<Part> {
    var k := TypeLength(rest);
    if k == 0 then None
    else
      var inlinePrimaryKey := HasPhrase(rest, "primary", "key");
      Some(ColumnPart(
             ColumnDef(name, NormalizeType(rest[..k]), !HasPhrase(rest, "not", "null") && !inlinePrimaryKey,
                       "`" + name + "` " + rest),
             inlinePrimaryKey))
  }

  function ParseColumnDefinition(part: string): Option<Part> {
    var n := NameAt(part, 0);
    if n.None? then None
    else
      var gap := SpacesAfter(part, n.value.end);
      if gap.None? || gap.value == |part| then None
      else ReadRest(n.value.text, Trim(part[gap.value..]))
  }

  function ReadPart(part: string): Part {
    var index := ParseIndexDefinition(part);
    if index.Some? then IndexPart(index.value)
    else if IsSkippedClause(part) then IgnoredPart
    else
      var column := ParseColumnDefinition(part);
      if column.None? then IgnoredPart else column.value
  }

  // --- the statement -------------------------------------------------------

  function InlinePrimary(c: ColumnDef): IndexDef { IndexDef(PRIMARY, [c.name], true) }

  datatype Contents = Contents(columns: seq<ColumnDef>, indexes: seq<IndexDef>, inlineIndexes: seq<IndexDef>)

  function AddPart(before: Contents, trimmed: string, read: string -> Part): Contents {
    if trimmed == "" then before
    else
      match read(trimmed)
      case IndexPart(i) => before.(indexes := before.indexes + [i])
      case IgnoredPart => before
      case ColumnPart(c, inlinePrimaryKey) =>
        var more := if inlinePrimaryKey then [InlinePrimary(c)] else [];
        Contents(before.columns + [c], before.indexes + more, before.inlineIndexes + more)
  }

  /**
   * Columns and indexes the parts contribute, in order, each part read by `read`;
   * `inlineIndexes` are the PRIMARY entries that come from column definitions.
   */
  function ContentsOf(parts: seq<string>, read: string -> Part): Contents {
    if parts == [] then Contents([], [], [])
    else AddPart(ContentsOf(parts[..|parts| - 1], read), Trim(parts[|parts| - 1]), read)
  }

  datatype Header = Header(name: string, openParen: nat)

  function NameThenParen(s: string, i: nat): (h: Option<Header>)
    requires i <= |s|
    ensures h.Some? ==> h.value.openParen < |s| && s[h.value.openParen] == '('
  {
    var n := NameAt(s, i);
    if n.None? then None
    else
      var p := SkipSpaces(s, n.value.end);
      if p < |s| && s[p] == '(' then Some(Header(n.value.text, p)) else None
  }

  /** After CREATE TABLE and white space. */
  function CreateEnd(s: string): (k: Option<nat>)
    ensures k.Some? ==> k.value <= |s|
  {
    var words := PhraseAt(s, 0, "create", "table");
    if words.None? then None else SpacesAfter(s, words.value)
  }

  /** After IF NOT EXISTS and white space. */
  function ExistsEnd(s: string, i: nat): (k: Option<nat>)
    requires i <= |s|
    ensures k.Some? ==> k.value <= |s|
  {
    var ifNot := PhraseAt(s, i, "if", "not");
    var gap := if ifNot.None? then None else SpacesAfter(s, ifNot.value);
    if gap.Some? && WordAt(s, gap.value, "exists") then SpacesAfter(s, gap.value + 6) else None
  }

  /** Where the table name starts: after CREATE TABLE and an optional IF NOT EXISTS. */
  function NameStart(s: string): (start: Option<nat>)
    ensures start.Some? ==> start.value <= |s|
  {
    var p := CreateEnd(s);
    if p.None? then None
    else
      var after := ExistsEnd(s, p.value);
      if after.Some? then after else p
  }

  /** CREATE TABLE, an optional IF NOT EXISTS, a name, and the open paren. */
  function ParseHeader(s: string): (h: Option<Header>)
    ensures h.Some? ==> h.value.openParen < |s| && s[h.value.openParen] == '('
  {
    var start := NameStart(s);
    if start.None? then None else NameThenParen(s, start.value)
  }

  function CreateTableOf(statement: string): Option<TableDef> {
    var header := ParseHeader(statement);
    if header.None? then None
    else
      var body := ParenBody(statement, header.value.openParen);
      if body.None? then None
      else
        var contents := ContentsOf(TopLevelParts(body.value), ReadPart);
        Some(TableDef(header.value.name, contents.columns, contents.indexes, Some(Trim(statement) + ";")))
  }

  /** Sorts the parts into columns and indexes; blank parts and skipped clauses add nothing. */
  method ReadParts(parts: seq<string>, read: string -> Part) returns (columns: seq<ColumnDef>, indexes: seq<IndexDef>)
    ensures columns == ContentsOf(parts, read).columns && indexes == ContentsOf(parts, read).indexes
  {
    columns, indexes := [], [];
    for i := 0 to |parts|
      invariant columns == ContentsOf(parts[..i], read).columns && indexes == ContentsOf(parts[..i], read).indexes
    {
      assert parts[..i + 1][..i] == parts[..i];
      var trimmed := Trim(parts[i]);
      if trimmed == "" {
        continue;
      }
      match read(trimmed)
      case IndexPart(index) => indexes := indexes + [index];
      case IgnoredPart =>
      case ColumnPart(column, inlinePrimaryKey) =>
        columns := columns + [column];
        if inlinePrimaryKey {
          indexes := indexes + [InlinePrimary(column)];
        }
    }
    assert parts[..|parts|] == parts;
  }

  method ParseCreateTable(statement: string) returns (table: Option<TableDef>)
    ensures table == CreateTableOf(statement)
  {
    var header := ParseHeader(statement);
    if header.None? {
      return None;
    }
    var body := ExtractParenBody(statement, header.value.openParen);
    if body.None? {
      return None;
    }
    var parts := SplitTopLevel(body.value);
    var columns, indexes := ReadParts(parts, ReadPart);
    table := Some(TableDef(header.value.name, columns, indexes, Some(Trim(statement) + ";")));
  }

  // --- printing ------------------------------------------------------------

  function Raws(columns: seq<ColumnDef>): (raws: seq<string>)
    ensures |raws| == |columns| && forall i :: 0 <= i < |columns| ==> raws[i] == columns[i].raw
  {
    seq(|columns|, i requires 0 <= i < |columns| => columns[i].raw)
  }

  function JoinDefinitions(raws: seq<string>): string {
    if raws == [] then ""
    else if |raws| == 1 then "  " + raws[0]
    else "  " + raws[0] + ",\n" + JoinDefinitions(raws[1..])
  }

  function BuildCreateStatement(table: TableDef): string {
    "CREATE TABLE " + "`" + table.name + "`" + (" (" + ("\n" + JoinDefinitions(Raws(table.columns)) + "\n" + ");"))
  }
}
