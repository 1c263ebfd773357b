/** Printing a parsed table and parsing it again. */
module SchemaRoundTrip {
  import opened Common
  import opened Text
  import opened SchemaModel
  import opened SchemaLexer
  import opened SchemaParser

  // --- extracted bodies and their parts ------------------------------------

  lemma {:induction false} FindCloseBalanced(s: string, d: nat)
    requires FindClose(s, d) < |s|
    ensures WalkParens(s[..FindClose(s, d)], d) == Some(0)
  {
    var k := FindClose(s, d);
    if !(s[0] == ')' && d == 0) {
      var d' := if s[0] == '(' then d + 1 else if s[0] == ')' then d - 1 else d;
      FindCloseBalanced(s[1..], d');
      assert s[..k][1..] == s[1..][..k - 1];
    }
  }

  lemma {:induction false} FindCloseAfter(body: string, post: string, d: nat)
    requires WalkParens(body, d) == Some(0)
    ensures FindClose(body + ")" + post, d) == |body|
  {
    var s := body + ")" + post;
    if body == "" {
    } else {
      var d' := if s[0] == '(' then d + 1 else if s[0] == ')' then d - 1 else d;
      assert s[1..] == body[1..] + ")" + post;
      FindCloseAfter(body[1..], post, d');
    }
  }

  /** Cutting a balanced text at its top-level commas leaves balanced pieces without any. */
  lemma {:induction false} PartsAreWhole(s: string, current: string, depth: nat)
    requires Walk(current, 0) == Some(depth) && WalkParens(s, depth) == Some(0)
    ensures forall p :: p in SplitFrom(s, current, depth) ==> OnePart(p)
    decreases |s|
  {
    if s == "" {
    } else {
      WalkAppend(current, [s[0]], 0);
      if s[0] == ',' && depth == 0 {
        PartsAreWhole(s[1..], "", 0);
      } else {
        var d := if s[0] == '(' then depth + 1 else if s[0] == ')' then depth - 1 else depth;
        assert Walk([s[0]], depth) == Some(d) by {
          assert [s[0]][1..] == "";
        }
        PartsAreWhole(s[1..], current + [s[0]], d);
      }
    }
  }

  /** Every part of a body the reader extracts is balanced and has no top-level comma. */
  lemma {:induction false} ExtractedPartsAreWhole(str: string, openIdx: nat)
    requires ParenBody(str, openIdx).Some?
    ensures forall p :: p in TopLevelParts(ParenBody(str, openIdx).value) ==> OnePart(p)
  {
    FindCloseBalanced(str[openIdx + 1..], 0);
    PartsAreWhole(ParenBody(str, openIdx).value, "", 0);
  }

  lemma {:induction false} SplitAcross(a: string, rest: string, current: string, d: nat)
    requires Walk(a, d).Some?
    ensures SplitFrom(a + rest, current, d) == SplitFrom(rest, current + a, Walk(a, d).value)
    decreases |a|
  {
    if a == "" {
      assert a + rest == rest && current + a == current;
    } else {
      assert (a + rest)[1..] == a[1..] + rest;
      assert current + a == current + [a[0]] + a[1..];
      var d' := if a[0] == '(' then d + 1 else if a[0] == ')' then d - 1 else d;
      SplitAcross(a[1..], rest, current + [a[0]], d');
    }
  }

  // --- columns -------------------------------------------------------------

  lemma {:induction false} SpacesNeutral(s: string)
    requires Blank(s)
    ensures Neutral(s)
  {
  }

  lemma {:induction false} CoreWhole(pre: string, core: string, post: string)
    requires OnePart(pre + (core + post)) && Neutral(pre) && Neutral(post)
    ensures OnePart(core)
  {
    NeutralWalk(pre, 0);
    WalkAppend(pre, core + post, 0);
    WalkAppend(core, post, 0);
    if Walk(core, 0).Some? {
      NeutralWalk(post, Walk(core, 0).value);
    }
  }

  /** A text is its trimmed form between white space. */
  lemma {:induction false} TrimParts(s: string) returns (pre: string, post: string)
    ensures Blank(pre) && Blank(post) && s == pre + (Trim(s) + post)
  {
    var a := SkipSpaces(s, 0);
    var b := SkipSpacesBack(s, a, |s|);
    pre, post := s[..a], s[b..];
    SkippedIsBlank(s, 0);
    ThreeParts(s, a, b);
  }

  lemma {:induction false} TrimWhole(s: string)
    requires OnePart(s)
    ensures OnePart(Trim(s))
  {
    var pre, post := TrimParts(s);
    SpacesNeutral(pre);
    SpacesNeutral(post);
    CoreWhole(pre, Trim(s), post);
  }

  lemma {:induction false} SuffixWhole(s: string, k: nat)
    requires k <= |s| && OnePart(s) && Neutral(s[..k])
    ensures OnePart(s[k..])
  {
    assert s == s[..k] + s[k..];
    NeutralWalk(s[..k], 0);
    WalkAppend(s[..k], s[k..], 0);
  }

  predicate IsName(name: string) { name != "" && forall i :: 0 <= i < |name| ==> IsWordChar(name[i]) }

  /** What a column definition keeps: a name, and trimmed text the type can be read from. */
  predicate IsColumn(c: ColumnDef, inlinePrimaryKey: bool, rest: string) {
    && IsName(c.name) && rest != "" && Trim(rest) == rest
    && c.raw == "`" + c.name + "` " + rest
    && ReadRest(c.name, rest) == Some(ColumnPart(c, inlinePrimaryKey))
  }

  lemma {:induction false} TrimTwice(s: string)
    ensures Trim(Trim(s)) == Trim(s)
  {
  }

  lemma {:induction false} ColumnFromDefinition(part: string)
    requires ReadPart(part).ColumnPart?
    ensures ParseColumnDefinition(part) == Some(ReadPart(part))
  {
  }

  lemma {:induction false} RestShape(name: string, rest: string)
    requires ReadRest(name, rest).Some?
    ensures ReadRest(name, rest).value.ColumnPart?
    ensures ReadRest(name, rest).value.column.name == name
    ensures ReadRest(name, rest).value.column.raw == "`" + name + "` " + rest
    ensures rest != ""
  {
  }

  lemma {:induction false} NamePrefix(s: string)
    requires NameAt(s, 0).Some?
    ensures IsName(NameAt(s, 0).value.text)
    ensures Neutral(s[..NameAt(s, 0).value.end])
  {
  }

  /** A definition is a name, white space, and the text the rest is read from. */
  lemma {:induction false} DefinitionShape(part: string) returns (gap: nat)
    requires ParseColumnDefinition(part).Some?
    ensures NameAt(part, 0).Some? && NameAt(part, 0).value.end < gap <= |part|
    ensures Blank(part[NameAt(part, 0).value.end..gap])
    ensures ParseColumnDefinition(part) == ReadRest(NameAt(part, 0).value.text, Trim(part[gap..]))
  {
    var end := NameAt(part, 0).value.end;
    gap := SpacesAfter(part, end).value;
    SkippedIsBlank(part, end);
  }

  lemma {:induction false} NeutralAppend(s: string, t: string)
    requires Neutral(s) && Neutral(t)
    ensures Neutral(s + t)
  {
  }

  /** What follows a name and white space in a whole part is whole, trimmed or not. */
  lemma {:induction false} RestWhole(part: string, gap: nat)
    requires OnePart(part) && NameAt(part, 0).Some? && NameAt(part, 0).value.end <= gap <= |part|
    requires Blank(part[NameAt(part, 0).value.end..gap])
    ensures IsName(NameAt(part, 0).value.text) && OnePart(Trim(part[gap..]))
  {
    var end := NameAt(part, 0).value.end;
    NamePrefix(part);
    SpacesNeutral(part[end..gap]);
    NeutralAppend(part[..end], part[end..gap]);
    assert part[..gap] == part[..end] + part[end..gap];
    SuffixWhole(part, gap);
    TrimWhole(part[gap..]);
  }

  /** Reading a whole part as a column yields a whole definition. */
  lemma {:induction false} ColumnOfPart(part: string) returns (rest: string)
    requires OnePart(part) && ReadPart(part).ColumnPart?
    ensures IsColumn(ReadPart(part).column, ReadPart(part).inlinePrimaryKey, rest)
    ensures OnePart(rest)
  {
    ColumnFromDefinition(part);
    var gap := DefinitionShape(part);
    rest := Trim(part[gap..]);
    RestShape(NameAt(part, 0).value.text, rest);
    TrimTwice(part[gap..]);
    RestWhole(part, gap);
  }

  /** Printed definitions are whole parts. */
  lemma {:induction false} RawWhole(name: string, rest: string)
    requires IsName(name) && OnePart(rest)
    ensures OnePart("`" + name + "` " + rest)
  {
    var quoted := "`" + name + "` ";
    NeutralWalk(quoted, 0);
    WalkAppend(quoted, rest, 0);
  }

  /** The name of a printed definition, and where the rest of it starts. */
  lemma {:induction false} QuotedName(name: string, rest: string)
    requires IsName(name) && rest != "" && !IsSpace(rest[0])
    ensures var s := "`" + name + "` " + rest;
      && NameAt(s, 0) == Some(Name(name, |name| + 2))
      && SpacesAfter(s, |name| + 2) == Some(|name| + 3)
      && s[|name| + 3..] == rest
  {
    var s := "`" + name + "` " + rest;
    var e := 1 + |name|;
    assert s[0] == '`' && s[e] == '`' && s[e + 1] == ' ' && s[e + 2] == rest[0];
    assert s[1..e] == name;
    assert QuoteEnd(s, 0) == 1;
    forall i | 1 <= i < e ensures IsWordChar(s[i]) {
      assert s[i] == name[i - 1];
    }
    var w := WordCharsEnd(s, 1);
    assert !IsWordChar(s[e]);
    assert w == e;
    assert QuoteEnd(s, e) == e + 1;
    var k := SkipSpaces(s, e + 1);
    assert IsSpace(s[e + 1]);
    assert k == e + 2;
  }

  lemma {:induction false} ReadPartOfColumn(s: string)
    requires ParseIndexDefinition(s).None? && !IsSkippedClause(s) && ParseColumnDefinition(s).Some?
    ensures ReadPart(s) == ParseColumnDefinition(s).value
  {
  }

  lemma {:induction false} DefinitionReads(s: string, n: Name, gap: nat)
    requires NameAt(s, 0) == Some(n) && SpacesAfter(s, n.end) == Some(gap) && gap < |s|
    ensures ParseColumnDefinition(s) == ReadRest(n.text, Trim(s[gap..]))
  {
  }

  lemma {:induction false} TrimmedRaw(name: string, rest: string)
    requires rest != "" && Trim(rest) == rest
    ensures !IsSpace(rest[0])
    ensures Trim("`" + name + "` " + rest) == "`" + name + "` " + rest
  {
  }

  lemma {:induction false} RawDefinition(name: string, rest: string)
    requires IsName(name) && rest != "" && Trim(rest) == rest
    ensures ParseColumnDefinition("`" + name + "` " + rest) == ReadRest(name, rest)
  {
    TrimmedRaw(name, rest);
    QuotedName(name, rest);
    DefinitionReads("`" + name + "` " + rest, Name(name, |name| + 2), |name| + 3);
  }

  lemma {:induction false} OtherWord(s: string, word: string)
    requires s != "" && s[0] == '`' && word != "" && word[0] != '`'
    ensures !WordAt(s, 0, word)
  {
  }

  /** Text that starts with a quote mark is no index definition. */
  lemma {:induction false} NoIndexStarts(s: string)
    requires s != "" && s[0] == '`'
    ensures ParseIndexDefinition(s).None?
  {
    OtherWord(s, "primary");
    OtherWord(s, "unique");
    OtherWord(s, "key");
    OtherWord(s, "index");
    assert PhraseAt(s, 0, "primary", "key").None?;
    assert UniqueName(s).None?;
    assert PlainIndexName(s).None?;
  }

  /** Nor is it a clause that is skipped. */
  lemma {:induction false} NoClauseStarts(s: string)
    requires s != "" && s[0] == '`'
    ensures !IsSkippedClause(s)
  {
    OtherWord(s, "constraint");
    OtherWord(s, "check");
    OtherWord(s, "foreign");
    assert PhraseAt(s, 0, "foreign", "key").None?;
  }

  /** Reading a printed definition gives the column back. */
  lemma {:induction false} RawReadsBack(c: ColumnDef, inlinePrimaryKey: bool, rest: string)
    requires IsColumn(c, inlinePrimaryKey, rest)
    ensures Trim(c.raw) == c.raw
    ensures ReadPart(c.raw) == ColumnPart(c, inlinePrimaryKey)
  {
    TrimmedRaw(c.name, rest);
    RawDefinition(c.name, rest);
    NoIndexStarts(c.raw);
    NoClauseStarts(c.raw);
    ReadPartOfColumn(c.raw);
  }

  // --- the header ----------------------------------------------------------

  lemma {:induction false} NameInside(pre: string, name: string, post: string)
    requires IsName(name)
    ensures NameAt(pre + "`" + name + "`" + post, |pre|) == Some(Name(name, |pre| + |name| + 2))
  {
    var s := pre + "`" + name + "`" + post;
    var b := |pre| + 1;
    var e := b + |name|;
    assert s[|pre|] == '`' && s[e] == '`' && s[b..e] == name;
    forall i | b <= i < e ensures IsWordChar(s[i]) {
      assert s[i] == name[i - b];
    }
    assert WordCharsEnd(s, b) == e;
  }

  lemma {:induction false} OtherWordAt(s: string, i: nat, word: string)
    requires i < |s| && s[i] == '`' && word != "" && word[0] != '`'
    ensures !WordAt(s, i, word)
  {
  }

  /** The fixed words of a printed statement are recognised as such. */
  lemma {:induction false} CreateTableWords(rest: string)
    requires rest != "" && rest[0] == '`'
    ensures var s := "CREATE TABLE " + rest;
      && PhraseAt(s, 0, "create", "table") == Some(12)
      && SpacesAfter(s, 12) == Some(13)
      && PhraseAt(s, 13, "if", "not") == None
  {
    var s := "CREATE TABLE " + rest;
    assert s[0] == 'C' && s[1] == 'R' && s[2] == 'E' && s[3] == 'A' && s[4] == 'T' && s[5] == 'E' && s[6] == ' ';
    assert s[7] == 'T' && s[8] == 'A' && s[9] == 'B' && s[10] == 'L' && s[11] == 'E' && s[12] == ' ' && s[13] == '`';
    assert WordAt(s, 0, "create");
    assert SkipSpaces(s, 6) == 7;
    assert WordAt(s, 7, "table");
    assert SkipSpaces(s, 12) == 13;
    OtherWordAt(s, 13, "if");
  }

  lemma {:induction false} HeaderFromWords(s: string)
    requires PhraseAt(s, 0, "create", "table") == Some(12) && |s| >= 13
    requires SpacesAfter(s, 12) == Some(13) && PhraseAt(s, 13, "if", "not") == None
    ensures ParseHeader(s) == NameThenParen(s, 13)
  {
  }

  lemma {:induction false} PrintedName(s: string, pre: string, name: string, tail: string)
    requires IsName(name) && s == pre + "`" + name + "`" + (" (" + tail)
    ensures NameThenParen(s, |pre|) == Some(Header(name, |pre| + |name| + 3))
  {
    NameInside(pre, name, " (" + tail);
    var e := |pre| + |name| + 2;
    assert s[e] == ' ' && s[e + 1] == '(';
    assert SkipSpaces(s, e) == e + 1;
  }

  lemma {:induction false} PrintedHeader(name: string, tail: string)
    requires IsName(name)
    ensures ParseHeader("CREATE TABLE " + "`" + name + "`" + (" (" + tail)) == Some(Header(name, |name| + 16))
  {
    var pre := "CREATE TABLE ";
    var s := pre + "`" + name + "`" + (" (" + tail);
    var rest := "`" + name + "`" + (" (" + tail);
    assert s == pre + rest;
    CreateTableWords(rest);
    HeaderFromWords(s);
    PrintedName(s, pre, name, tail);
  }

  // --- the body ------------------------------------------------------------

  /** A definition that survives being joined with others and cut out again. */
  predicate Printable(raw: string) { raw != "" && Trim(raw) == raw && OnePart(raw) }

  function Line(raw: string): string { "\n" + ("  " + raw) }

  /** How a definition list is cut up again. */
  function PrintedParts(raws: seq<string>): (parts: seq<string>)
    requires raws != []
    ensures |parts| == |raws|
  {
    if |raws| == 1 then [Line(raws[0]) + "\n"] else [Line(raws[0])] + PrintedParts(raws[1..])
  }

  lemma {:induction false} PaddedWhole(pre: string, s: string)
    requires Blank(pre) && OnePart(s)
    ensures OnePart(pre + s)
  {
    SpacesNeutral(pre);
    NeutralWalk(pre, 0);
    WalkAppend(pre, s, 0);
  }

  lemma {:induction false} LineWhole(raw: string)
    requires Printable(raw)
    ensures OnePart(Line(raw)) && WalkParens(Line(raw), 0) == Some(0)
    ensures !Blank(Line(raw) + "\n")
  {
    PaddedWhole("  ", raw);
    PaddedWhole("\n", "  " + raw);
    WalkIsWalkParens(Line(raw), 0);
    assert !IsSpace(raw[0]) && (Line(raw) + "\n")[3] == raw[0];
  }

  lemma {:induction false} LastLineSplits(raw: string)
    requires Printable(raw)
    ensures TopLevelParts(Line(raw) + "\n") == [Line(raw) + "\n"]
    ensures WalkParens(Line(raw) + "\n", 0) == Some(0)
  {
    var line := Line(raw);
    LineWhole(raw);
    SplitAcross(line, "\n", "", 0);
    assert "" + line == line;
    assert "\n"[1..] == "";
    NeutralWalk("\n", 0);
    WalkParensAppend(line, "\n", 0);
  }

  lemma {:induction false} NextLineSplits(raw: string, tail: string)
    requires Printable(raw) && WalkParens(tail, 0) == Some(0)
    ensures TopLevelParts(Line(raw) + ("," + tail)) == [Line(raw)] + TopLevelParts(tail)
    ensures WalkParens(Line(raw) + ("," + tail), 0) == Some(0)
  {
    var line := Line(raw);
    LineWhole(raw);
    SplitAcross(line, "," + tail, "", 0);
    assert "" + line == line;
    assert ("," + tail)[1..] == tail;
    WalkParensAppend(line, "," + tail, 0);
  }

  function PrintedBody(raws: seq<string>): string { "\n" + JoinDefinitions(raws) + "\n" }

  lemma {:induction false} PrintedBodyStep(raws: seq<string>)
    requires |raws| > 1
    ensures PrintedBody(raws) == Line(raws[0]) + ("," + PrintedBody(raws[1..]))
  {
  }

  lemma {:induction false} PrintedSplits(raws: seq<string>)
    requires raws != [] && forall i :: 0 <= i < |raws| ==> Printable(raws[i])
    ensures TopLevelParts(PrintedBody(raws)) == PrintedParts(raws)
    ensures WalkParens(PrintedBody(raws), 0) == Some(0)
  {
    if |raws| == 1 {
      assert PrintedBody(raws) == Line(raws[0]) + "\n";
      LastLineSplits(raws[0]);
    } else {
      PrintedBodyStep(raws);
      PrintedSplits(raws[1..]);
      NextLineSplits(raws[0], PrintedBody(raws[1..]));
    }
  }

  lemma {:induction false} TrimPadded(pre: string, s: string, post: string)
    requires Blank(pre) && Blank(post) && s != "" && Trim(s) == s
    ensures Trim(pre + s + post) == s
  {
    var t := pre + s + post;
    assert !IsSpace(s[0]) && !IsSpace(s[|s| - 1]);
    assert t[|pre|] == s[0] && t[|pre| + |s| - 1] == s[|s| - 1];
    assert forall i :: 0 <= i < |pre| ==> t[i] == pre[i];
    assert forall i :: |pre| + |s| <= i < |t| ==> t[i] == post[i - |pre| - |s|];
    assert SkipSpaces(t, 0) == |pre|;
    assert SkipSpacesBack(t, |pre|, |t|) == |pre| + |s|;
    assert t[|pre|..|pre| + |s|] == s;
  }

  lemma {:induction false} LinePadded(raw: string, post: string)
    ensures Line(raw) + post == "\n  " + raw + post
  {
  }

  lemma {:induction false} LineTrims(raw: string, post: string)
    requires raw != "" && Trim(raw) == raw && Blank(post)
    ensures Trim(Line(raw) + post) == raw
  {
    LinePadded(raw, post);
    TrimPadded("\n  ", raw, post);
  }

  lemma {:induction false} PrintedPartsAre(raws: seq<string>, i: nat)
    requires i < |raws|
    ensures PrintedParts(raws)[i] == if i == |raws| - 1 then Line(raws[i]) + "\n" else Line(raws[i])
    decreases |raws|
  {
    if i == 0 {
    } else {
      PrintedPartsAre(raws[1..], i - 1);
    }
  }

  lemma {:induction false} PrintedPartsTrim(raws: seq<string>, i: nat)
    requires i < |raws| && raws[i] != "" && Trim(raws[i]) == raws[i]
    ensures Trim(PrintedParts(raws)[i]) == raws[i]
  {
    PrintedPartsAre(raws, i);
    var post := if i == |raws| - 1 then "\n" else "";
    assert PrintedParts(raws)[i] == Line(raws[i]) + post;
    LineTrims(raws[i], post);
  }

  // --- the whole table -----------------------------------------------------

  /** The PRIMARY entries that come from the column definitions themselves. */
  function InlineOf(columns: seq<ColumnDef>, read: string -> Part): seq<IndexDef> {
    if columns == [] then []
    else
      var n := |columns| - 1;
      var part := read(columns[n].raw);
      InlineOf(columns[..n], read) +
      (if part.ColumnPart? && part.inlinePrimaryKey then [InlinePrimary(columns[n])] else [])
  }

  ghost predicate ReadsBack(c: ColumnDef, read: string -> Part) {
    c.raw != "" && read(c.raw).ColumnPart? && read(c.raw).column == c
  }

  /** A column that prints as one part and reads back as itself. */
  ghost predicate Stable(c: ColumnDef, read: string -> Part) {
    Printable(c.raw) && ReadsBack(c, read)
  }

  lemma {:induction false} ContentsStep(parts: seq<string>, trimmed: string, read: string -> Part)
    requires parts != [] && Trim(parts[|parts| - 1]) == trimmed
    ensures ContentsOf(parts, read) == AddPart(ContentsOf(parts[..|parts| - 1], read), trimmed, read)
  {
  }

  lemma {:induction false} ColumnAdded(before: Contents, c: ColumnDef, read: string -> Part)
    requires ReadsBack(c, read)
    ensures var more := if read(c.raw).inlinePrimaryKey then [InlinePrimary(c)] else [];
      AddPart(before, c.raw, read)
      == Contents(before.columns + [c], before.indexes + more, before.inlineIndexes + more)
  {
  }

  lemma {:induction false} ContentsOfPrinted(parts: seq<string>, columns: seq<ColumnDef>, read: string -> Part)
    requires |parts| == |columns| && forall c :: c in columns ==> ReadsBack(c, read)
    requires forall i :: 0 <= i < |parts| ==> Trim(parts[i]) == columns[i].raw
    ensures ContentsOf(parts, read) == Contents(columns, InlineOf(columns, read), InlineOf(columns, read))
  {
    if parts == [] {
    } else {
      var n := |parts| - 1;
      assert columns == columns[..n] + [columns[n]];
      ContentsOfPrinted(parts[..n], columns[..n], read);
      ContentsStep(parts, columns[n].raw, read);
      ColumnAdded(ContentsOf(parts[..n], read), columns[n], read);
    }
  }

  lemma {:induction false} EmptyBody(raws: seq<string>)
    requires raws == []
    ensures TopLevelParts(PrintedBody(raws)) == [] && WalkParens(PrintedBody(raws), 0) == Some(0)
  {
    var s := PrintedBody(raws);
    assert s == "\n\n" && s[1..] == "\n" && "\n"[1..] == "";
    NeutralWalk(s, 0);
    assert "" + ['\n'] == "\n" && "\n" + ['\n'] == "\n\n" && Blank("\n\n");
    assert SplitFrom("", "\n\n", 0) == [];
    assert SplitFrom("\n", "\n", 0) == SplitFrom("", "\n\n", 0);
  }

  /** Splitting and reading the printed column list gives the columns back. */
  lemma {:induction false} PrintedContents(columns: seq<ColumnDef>, read: string -> Part)
    requires forall c :: c in columns ==> Stable(c, read)
    ensures ContentsOf(TopLevelParts(PrintedBody(Raws(columns))), read)
         == Contents(columns, InlineOf(columns, read), InlineOf(columns, read))
    ensures WalkParens(PrintedBody(Raws(columns)), 0) == Some(0)
  {
    var raws := Raws(columns);
    if columns == [] {
      EmptyBody(raws);
    } else {
      forall i | 0 <= i < |raws| ensures Printable(raws[i]) {
        assert Stable(columns[i], read);
      }
      PrintedSplits(raws);
      forall i | 0 <= i < |raws| ensures Trim(PrintedParts(raws)[i]) == columns[i].raw {
        PrintedPartsTrim(raws, i);
      }
      ContentsOfPrinted(PrintedParts(raws), columns, read);
    }
  }

  /** What `read` must do for whole parts to give stable columns. */
  ghost predicate ReadsStably(read: string -> Part) {
    forall p :: OnePart(p) && p != "" && Trim(p) == p && read(p).ColumnPart? ==>
      Stable(read(p).column, read) && read(read(p).column.raw) == read(p)
  }

  /** Everything read from whole parts is stable, and the inline entries match the columns. */
  lemma {:induction false} ContentsStable(parts: seq<string>, read: string -> Part)
    requires ReadsStably(read) && forall p :: p in parts ==> OnePart(p)
    ensures forall c :: c in ContentsOf(parts, read).columns ==> Stable(c, read)
    ensures ContentsOf(parts, read).inlineIndexes == InlineOf(ContentsOf(parts, read).columns, read)
  {
    if parts == [] {
    } else {
      var n := |parts| - 1;
      ContentsStable(parts[..n], read);
      var trimmed := Trim(parts[n]);
      if trimmed != "" && read(trimmed).ColumnPart? {
        TrimWhole(parts[n]);
        TrimTwice(parts[n]);
        var c := read(trimmed).column;
        var before := ContentsOf(parts[..n], read).columns;
        assert (before + [c])[..|before|] == before;
      }
    }
  }

  lemma {:induction false} ReadPartStable(p: string)
    requires OnePart(p) && ReadPart(p).ColumnPart?
    ensures Printable(ReadPart(p).column.raw)
    ensures ReadPart(ReadPart(p).column.raw) == ReadPart(p)
  {
    var rest := ColumnOfPart(p);
    var part := ReadPart(p);
    RawWhole(part.column.name, rest);
    RawReadsBack(part.column, part.inlinePrimaryKey, rest);
  }

  lemma {:induction false} ReadPartReadsStably()
    ensures ReadsStably(ReadPart)
  {
    forall p | OnePart(p) && p != "" && Trim(p) == p && ReadPart(p).ColumnPart?
      ensures Stable(ReadPart(p).column, ReadPart) && ReadPart(ReadPart(p).column.raw) == ReadPart(p)
    {
      ReadPartStable(p);
    }
  }

  lemma {:induction false} ParsedNameIsName(s: string)
    requires ParseHeader(s).Some?
    ensures IsName(ParseHeader(s).value.name)
  {
  }

  lemma {:induction false} ParenBodyOf(pre: string, body: string, post: string)
    requires WalkParens(body, 0) == Some(0)
    ensures ParenBody(pre + "(" + body + ")" + post, |pre|) == Some(body)
  {
    var s := pre + "(" + body + ")" + post;
    assert s[|pre| + 1..] == body + ")" + post;
    FindCloseAfter(body, post, 0);
    assert (body + ")" + post)[..|body|] == body;
  }

  lemma {:induction false} Regroup(a: string, body: string)
    ensures a + (" (" + (body + ");")) == (a + " ") + "(" + body + ")" + ";"
  {
  }

  function Printed(name: string, body: string): string {
    "CREATE TABLE " + "`" + name + "`" + (" (" + (body + ");"))
  }

  lemma {:induction false} PrintedBodyFound(name: string, body: string)
    requires IsName(name) && WalkParens(body, 0) == Some(0)
    ensures ParseHeader(Printed(name, body)) == Some(Header(name, |name| + 16))
    ensures ParenBody(Printed(name, body), |name| + 16) == Some(body)
  {
    PrintedHeader(name, body + ");");
    var a := "CREATE TABLE " + "`" + name + "`";
    Regroup(a, body);
    ParenBodyOf(a + " ", body, ";");
    assert |a + " "| == |name| + 16;
  }

  lemma {:induction false} TableFromBody(s: string, name: string, openParen: nat, body: string)
    requires ParseHeader(s) == Some(Header(name, openParen)) && ParenBody(s, openParen) == Some(body)
    ensures var c := ContentsOf(TopLevelParts(body), ReadPart);
      CreateTableOf(s) == Some(TableDef(name, c.columns, c.indexes, Some(Trim(s) + ";")))
  {
  }

  lemma {:induction false} PrintedIsBuilt(t: TableDef)
    ensures BuildCreateStatement(t) == Printed(t.name, PrintedBody(Raws(t.columns)))
  {
  }

  lemma {:induction false} PrintedReads(t: TableDef)
    requires IsName(t.name) && forall c :: c in t.columns ==> Stable(c, ReadPart)
    ensures var r := CreateTableOf(BuildCreateStatement(t));
      r.Some? && r.value.name == t.name && r.value.columns == t.columns &&
      r.value.indexes == InlineOf(t.columns, ReadPart)
  {
    var body := PrintedBody(Raws(t.columns));
    PrintedContents(t.columns, ReadPart);
    PrintedIsBuilt(t);
    PrintedBodyFound(t.name, body);
    TableFromBody(Printed(t.name, body), t.name, |t.name| + 16, body);
  }

  /** The parts of the definition list of an accepted statement. */
  function PartsOf(statement: string): seq<string>
    requires CreateTableOf(statement).Some?
  {
    TopLevelParts(ParenBody(statement, ParseHeader(statement).value.openParen).value)
  }

  lemma {:induction false} ParsedTableStable(statement: string)
    requires CreateTableOf(statement).Some?
    ensures var t := CreateTableOf(statement).value;
      && IsName(t.name)
      && (forall c :: c in t.columns ==> Stable(c, ReadPart))
      && ContentsOf(PartsOf(statement), ReadPart).inlineIndexes == InlineOf(t.columns, ReadPart)
  {
    var header := ParseHeader(statement).value;
    ParsedNameIsName(statement);
    ExtractedPartsAreWhole(statement, header.openParen);
    ReadPartReadsStably();
    ContentsStable(PartsOf(statement), ReadPart);
    TableFromBody(statement, header.name, header.openParen, ParenBody(statement, header.openParen).value);
  }

  /**
   * Printing then parsing preserves the table: for every statement the reader accepts,
   * the printed form is accepted too, with the same name, the same columns down to
   * their text, and exactly the PRIMARY entries the columns carry.
   */
  lemma {:induction false} PrintParseRoundTrip(statement: string)
    requires CreateTableOf(statement).Some?
    ensures var t := CreateTableOf(statement).value;
            var r := CreateTableOf(BuildCreateStatement(t));
      && r.Some? && r.value.name == t.name && r.value.columns == t.columns
      && r.value.indexes == ContentsOf(PartsOf(statement), ReadPart).inlineIndexes
  {
    ParsedTableStable(statement);
    PrintedReads(CreateTableOf(statement).value);
  }

  lemma {:induction false} IntTypeLength()
    ensures TypeLength("int") == 3
  {
    var s := "int";
    assert LettersEnd(s, 3) == 3;
    assert LettersEnd(s, 2) == 3;
    assert LettersEnd(s, 1) == 3;
  }

  lemma {:induction false} IntText()
    ensures Trim("int") == "int" && Neutral("int") && "int"[..3] == "int"
    ensures !HasPhrase("int", "primary", "key") && !HasPhrase("int", "not", "null")
  {
    TrimIdentity("int");
    NotThere("int", "primary", "key");
    NotThere("int", "not", "null");
  }

  lemma {:induction false} CollapseNothing(s: string)
    requires forall i :: 0 <= i < |s| ==> !IsSpace(s[i])
    ensures Collapse(s, false) == s
  {
    if s == "" {
    } else {
      CollapseNothing(s[1..]);
    }
  }

  lemma {:induction false} IntType()
    ensures NormalizeType("int") == "int"
  {
    var s := "int";
    TrimIdentity(s);
    assert LowerAll(s) == s;
    CollapseNothing(s);
  }

  function IntColumn(name: string): ColumnDef {
    ColumnDef(name, "int", true, "`" + name + "` " + "int")
  }

  /** Text with a type, and neither key nor null phrase, is a nullable column. */
  lemma {:induction false} PlainColumn(name: string, rest: string)
    requires IsName(name) && rest != "" && Trim(rest) == rest && TypeLength(rest) > 0
    requires !HasPhrase(rest, "primary", "key") && !HasPhrase(rest, "not", "null")
    ensures IsColumn(ColumnDef(name, NormalizeType(rest[..TypeLength(rest)]), true, "`" + name + "` " + rest),
                     false, rest)
  {
  }

  lemma {:induction false} ColumnStable(c: ColumnDef, inlinePrimaryKey: bool, rest: string)
    requires IsColumn(c, inlinePrimaryKey, rest) && Neutral(rest)
    ensures Stable(c, ReadPart) && ReadPart(c.raw) == ColumnPart(c, inlinePrimaryKey)
  {
    RawReadsBack(c, inlinePrimaryKey, rest);
    NeutralWalk(rest, 0);
    RawWhole(c.name, rest);
  }

  lemma {:induction false} IntColumnIs(name: string, rest: string)
    requires IsName(name) && rest == "int"
    ensures IsColumn(IntColumn(name), false, rest)
  {
    IntTypeLength();
    IntText();
    IntType();
    PlainColumn(name, rest);
  }

  lemma {:induction false} IntColumnStable(name: string)
    requires IsName(name)
    ensures Stable(IntColumn(name), ReadPart) && ReadPart(IntColumn(name).raw) == ColumnPart(IntColumn(name), false)
  {
    IntColumnIs(name, "int");
    IntText();
    ColumnStable(IntColumn(name), false, "int");
  }

  lemma {:induction false} NothingInline(c: ColumnDef, read: string -> Part)
    requires read(c.raw) == ColumnPart(c, false)
    ensures InlineOf([c], read) == []
  {
    assert [c][..0] == [] && InlineOf([], read) == [];
  }

  /** The reader does accept statements: a table of one plain column, printed, reads back. */
  lemma {:induction false} OneColumnTable(table: string, column: string)
    requires IsName(table) && IsName(column)
    ensures var r := CreateTableOf(BuildCreateStatement(TableDef(table, [IntColumn(column)], [], None)));
      r.Some? && r.value.name == table && r.value.columns == [IntColumn(column)] && r.value.indexes == []
  {
    var c := IntColumn(column);
    IntColumnStable(column);
    NothingInline(c, ReadPart);
    PrintedReads(TableDef(table, [c], [], None));
  }
}
