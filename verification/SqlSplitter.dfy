/** Splitting a file into statements: comments out, cut at semicolons, start lines kept. */
module SqlSplitter {
  import opened Text

  /** A character together with where it stood in the original text. */
  datatype Cell = Cell(ch: char, pos: nat)

  datatype RawStatement = RawStatement(raw: string, line: nat)

  function Chars(cells: seq<Cell>): (s: string)
    ensures |s| == |cells| && forall i :: 0 <= i < |cells| ==> s[i] == cells[i].ch
  {
    seq(|cells|, i requires 0 <= i < |cells| => cells[i].ch)
  }

  function Tagged(sql: string): (cells: seq<Cell>)
    ensures |cells| == |sql| && forall i :: 0 <= i < |sql| ==> cells[i] == Cell(sql[i], i)
  {
    seq(|sql|, i requires 0 <= i < |sql| => Cell(sql[i], i))
  }

  // --- comments ------------------------------------------------------------

  predicate Starts(cells: seq<Cell>, i: nat, a: char, b: char) {
    i + 1 < |cells| && cells[i].ch == a && cells[i + 1].ch == b
  }

  /** Index of the next star-slash at or after `i`; `|cells|` when there is none. */
  function FindClose(cells: seq<Cell>, i: nat): (k: nat)
    requires i <= |cells|
    ensures i <= k <= |cells| && (k < |cells| ==> k + 2 <= |cells| && Starts(cells, k, '*', '/'))
    ensures forall j :: i <= j < k ==> !Starts(cells, j, '*', '/')
    decreases |cells| - i
  {
    if i == |cells| || Starts(cells, i, '*', '/') then i else FindClose(cells, i + 1)
  }

  /** Everything but line breaks becomes a space. */
  function BlankOut(cells: seq<Cell>): (out: seq<Cell>)
    ensures |out| == |cells|
    ensures forall i :: 0 <= i < |cells| ==>
      out[i] == (if cells[i].ch == '\n' then cells[i] else Cell(' ', cells[i].pos))
  {
    seq(|cells|, i requires 0 <= i < |cells| => if cells[i].ch == '\n' then cells[i] else Cell(' ', cells[i].pos))
  }

  /** Closed block comments are blanked out; an unclosed one stays as it is. */
  function BlankBlockComments(cells: seq<Cell>): seq<Cell>
    decreases |cells|
  {
    if cells == [] then []
    else if Starts(cells, 0, '/', '*') && FindClose(cells, 2) < |cells| then
      var end := FindClose(cells, 2) + 2;
      BlankOut(cells[..end]) + BlankBlockComments(cells[end..])
    else [cells[0]] + BlankBlockComments(cells[1..])
  }

  datatype Marker = Dashes | Hash

  predicate StartsLineComment(cells: seq<Cell>, marker: Marker) {
    if marker == Dashes then Starts(cells, 0, '-', '-') else cells != [] && cells[0].ch == '#'
  }

  /** Line comments are removed up to, not including, the line break. */
  function DropLineComments(cells: seq<Cell>, marker: Marker, inside: bool): seq<Cell>
    decreases |cells|
  {
    if cells == [] then []
    else if cells[0].ch == '\n' then [cells[0]] + DropLineComments(cells[1..], marker, false)
    else if inside || StartsLineComment(cells, marker) then DropLineComments(cells[1..], marker, true)
    else [cells[0]] + DropLineComments(cells[1..], marker, false)
  }

  function Cleaned(sql: string): seq<Cell> {
    DropLineComments(DropLineComments(BlankBlockComments(Tagged(sql)), Dashes, false), Hash, false)
  }

  /**
   * `cells` is what is left of `sql[from..]`: positions climb, no line break is skipped,
   * and every character is the original one or a space in place of something else.
   */
  ghost predicate Traces(sql: string, cells: seq<Cell>, from: nat)
    requires from <= |sql|
    decreases |cells|
  {
    if cells == [] then '\n' !in sql[from..]
    else
      && from <= cells[0].pos < |sql|
      && '\n' !in sql[from..cells[0].pos]
      && (cells[0].ch == sql[cells[0].pos] || (cells[0].ch == ' ' && sql[cells[0].pos] != '\n'))
      && Traces(sql, cells[1..], cells[0].pos + 1)
  }

  lemma {:induction false} TaggedTraces(sql: string, i: nat)
    requires i <= |sql|
    ensures Traces(sql, Tagged(sql)[i..], i)
    decreases |sql| - i
  {
    if i < |sql| {
      TaggedTraces(sql, i + 1);
      assert Tagged(sql)[i..][1..] == Tagged(sql)[i + 1..];
    }
  }

  /** Skipping characters that are not line breaks only moves the start back. */
  lemma {:induction false} TracesFromEarlier(sql: string, cells: seq<Cell>, from: nat, from': nat)
    requires from <= from' <= |sql| && '\n' !in sql[from..from'] && Traces(sql, cells, from')
    ensures Traces(sql, cells, from)
  {
  }

  /** A character that is left out, and no line break. */
  lemma {:induction false} SkipCell(sql: string, c: Cell, rest: seq<Cell>, from: nat)
    requires from <= c.pos < |sql| && '\n' !in sql[from..c.pos] && sql[c.pos] != '\n'
    requires Traces(sql, rest, c.pos + 1)
    ensures Traces(sql, rest, from)
  {
    assert sql[from..c.pos + 1] == sql[from..c.pos] + [sql[c.pos]];
    TracesFromEarlier(sql, rest, from, c.pos + 1);
  }

  lemma {:induction false} DropTraces(sql: string, cells: seq<Cell>, from: nat, marker: Marker, inside: bool)
    requires from <= |sql| && Traces(sql, cells, from)
    ensures Traces(sql, DropLineComments(cells, marker, inside), from)
    decreases |cells|
  {
    if cells == [] {
    } else {
      var stays := cells[0].ch == '\n' || !(inside || StartsLineComment(cells, marker));
      DropTraces(sql, cells[1..], cells[0].pos + 1, marker, !stays);
      if !stays {
        SkipCell(sql, cells[0], DropLineComments(cells[1..], marker, true), from);
      }
    }
  }

  /** Where the text after the first `end` cells begins. */
  function After(cells: seq<Cell>, from: nat, end: nat): nat
    requires end <= |cells|
  {
    if end == 0 then from else cells[end - 1].pos + 1
  }

  lemma {:induction false} TailTraces(sql: string, cells: seq<Cell>, from: nat, end: nat)
    requires from <= |sql| && Traces(sql, cells, from) && end <= |cells|
    ensures After(cells, from, end) <= |sql| && Traces(sql, cells[end..], After(cells, from, end))
    decreases end
  {
    if end == 0 {
      assert cells[0..] == cells;
    } else {
      TailTraces(sql, cells[1..], cells[0].pos + 1, end - 1);
      assert cells[1..][end - 1..] == cells[end..];
    }
  }

  lemma {:induction false} BlankOutCons(cells: seq<Cell>, end: nat, rest: seq<Cell>)
    requires 0 < end <= |cells|
    ensures var out := BlankOut(cells[..end]) + rest;
      out[0] == BlankOut([cells[0]])[0] && out[1..] == BlankOut(cells[1..][..end - 1]) + rest
  {
  }

  /** Blanking out a stretch of cells leaves the trace intact. */
  lemma {:induction false} BlankOutTraces(sql: string, cells: seq<Cell>, from: nat, end: nat, rest: seq<Cell>)
    requires from <= |sql| && Traces(sql, cells, from) && end <= |cells|
    requires After(cells, from, end) <= |sql| && Traces(sql, rest, After(cells, from, end))
    ensures Traces(sql, BlankOut(cells[..end]) + rest, from)
    decreases end
  {
    if end == 0 {
      assert BlankOut(cells[..end]) + rest == rest;
    } else {
      BlankOutTraces(sql, cells[1..], cells[0].pos + 1, end - 1, rest);
      BlankOutCons(cells, end, rest);
    }
  }

  /** One closed block comment, blanked out. */
  lemma {:induction false} OneBlockTraces(sql: string, cells: seq<Cell>, from: nat, end: nat)
    requires from <= |sql| && Traces(sql, cells, from) && end <= |cells|
    requires After(cells, from, end) <= |sql|
    requires Traces(sql, BlankBlockComments(cells[end..]), After(cells, from, end))
    ensures Traces(sql, BlankOut(cells[..end]) + BlankBlockComments(cells[end..]), from)
  {
    BlankOutTraces(sql, cells, from, end, BlankBlockComments(cells[end..]));
  }

  lemma {:induction false} BlankTraces(sql: string, cells: seq<Cell>, from: nat)
    requires from <= |sql| && Traces(sql, cells, from)
    ensures Traces(sql, BlankBlockComments(cells), from)
    decreases |cells|
  {
    if cells == [] {
    } else {
      if Starts(cells, 0, '/', '*') && FindClose(cells, 2) < |cells| {
        var end := FindClose(cells, 2) + 2;
        TailTraces(sql, cells, from, end);
        BlankTraces(sql, cells[end..], After(cells, from, end));
        OneBlockTraces(sql, cells, from, end);
      } else {
        BlankTraces(sql, cells[1..], cells[0].pos + 1);
      }
    }
  }

  lemma {:induction false} CleanedTraces(sql: string)
    ensures Traces(sql, Cleaned(sql), 0)
  {
    TaggedTraces(sql, 0);
    assert Tagged(sql)[0..] == Tagged(sql);
    BlankTraces(sql, Tagged(sql), 0);
    DropTraces(sql, BlankBlockComments(Tagged(sql)), 0, Dashes, false);
    DropTraces(sql, DropLineComments(BlankBlockComments(Tagged(sql)), Dashes, false), 0, Hash, false);
  }

  lemma {:induction false} CountCharsCons(cells: seq<Cell>, k: nat)
    requires 0 < k <= |cells|
    ensures CountNewlines(Chars(cells[..k]))
         == (if cells[0].ch == '\n' then 1 else 0) + CountNewlines(Chars(cells[1..][..k - 1]))
  {
    var c := cells[0].ch;
    assert Chars(cells[..k]) == [c] + Chars(cells[1..][..k - 1]);
    CountNewlinesAppend([c], Chars(cells[1..][..k - 1]));
    assert [c][..0] == "";
  }

  /** Counting line breaks in what is left counts those of the original text. */
  lemma {:induction false} SameNewlines(sql: string, cells: seq<Cell>, from: nat, k: nat)
    requires from <= |sql| && Traces(sql, cells, from) && k < |cells|
    ensures cells[k].pos < |sql|
    ensures cells[k].ch == sql[cells[k].pos] || cells[k].ch == ' '
    ensures CountNewlines(sql[..from]) + CountNewlines(Chars(cells[..k])) == CountNewlines(sql[..cells[k].pos])
    decreases k
  {
    var p := cells[0].pos;
    assert sql[..p] == sql[..from] + sql[from..p];
    CountNewlinesAppend(sql[..from], sql[from..p]);
    NoNewlines(sql[from..p]);
    if k > 0 {
      SameNewlines(sql, cells[1..], p + 1, k - 1);
      assert sql[..p + 1][..p] == sql[..p];
      CountCharsCons(cells, k);
    }
  }

  // --- no comment is left --------------------------------------------------

  ghost predicate NoClosedBlock(cells: seq<Cell>) {
    forall i: nat, j: nat :: i + 2 <= j && Starts(cells, i, '/', '*') ==> !Starts(cells, j, '*', '/')
  }

  /** Blanking keeps every position, and shows each character or a space. */
  lemma {:induction false} BlankingIsPointwise(cells: seq<Cell>)
    ensures |BlankBlockComments(cells)| == |cells|
    ensures forall i :: 0 <= i < |cells| ==>
      BlankBlockComments(cells)[i] == cells[i] || BlankBlockComments(cells)[i].ch == ' '
    decreases |cells|
  {
    if cells == [] {
    } else {
      if Starts(cells, 0, '/', '*') && FindClose(cells, 2) < |cells| {
        BlankingIsPointwise(cells[FindClose(cells, 2) + 2..]);
      } else {
        BlankingIsPointwise(cells[1..]);
      }
    }
  }

  lemma {:induction false} PrependBlanks(pre: seq<Cell>, rest: seq<Cell>)
    requires NoClosedBlock(rest) && forall i :: 0 <= i < |pre| ==> pre[i].ch != '/'
    ensures NoClosedBlock(pre + rest)
  {
    var all := pre + rest;
    forall i: nat, j: nat | i + 2 <= j && Starts(all, i, '/', '*') ensures !Starts(all, j, '*', '/') {
      assert i >= |pre| && Starts(rest, i - |pre|, '/', '*');
      assert !Starts(rest, j - |pre|, '*', '/');
    }
  }

  lemma {:induction false} PrependOne(c: Cell, rest: seq<Cell>)
    requires NoClosedBlock(rest)
    requires Starts([c] + rest, 0, '/', '*') ==> forall j: nat :: j >= 2 ==> !Starts([c] + rest, j, '*', '/')
    ensures NoClosedBlock([c] + rest)
  {
    var all := [c] + rest;
    forall i: nat, j: nat | i + 2 <= j && Starts(all, i, '/', '*') ensures !Starts(all, j, '*', '/') {
      if i > 0 {
        assert Starts(rest, i - 1, '/', '*');
        assert !Starts(rest, j - 1, '*', '/');
      }
    }
  }

  /** After the first pass no block comment is left that is ever closed. */
  lemma {:induction false} BlockCommentsGone(cells: seq<Cell>)
    ensures NoClosedBlock(BlankBlockComments(cells))
    decreases |cells|
  {
    if cells == [] {
    } else {
      if Starts(cells, 0, '/', '*') && FindClose(cells, 2) < |cells| {
        var end := FindClose(cells, 2) + 2;
        BlockCommentsGone(cells[end..]);
        PrependBlanks(BlankOut(cells[..end]), BlankBlockComments(cells[end..]));
      } else {
        BlockCommentsGone(cells[1..]);
        var out := [cells[0]] + BlankBlockComments(cells[1..]);
        BlankingIsPointwise(cells);
        if Starts(out, 0, '/', '*') {
          forall j: nat | j >= 2 ensures !Starts(out, j, '*', '/') {
            assert Starts(out, j, '*', '/') ==> Starts(cells, j, '*', '/');
          }
        }
        PrependOne(cells[0], BlankBlockComments(cells[1..]));
      }
    }
  }

  ghost predicate NoDoubleDash(cells: seq<Cell>) {
    forall i: nat :: !Starts(cells, i, '-', '-')
  }

  lemma {:induction false} NoDashAfter(c: Cell, rest: seq<Cell>)
    requires NoDoubleDash(rest) && (c.ch != '-' || rest == [] || rest[0].ch != '-')
    ensures NoDoubleDash([c] + rest)
  {
    forall i: nat ensures !Starts([c] + rest, i, '-', '-') {
      if i > 0 && i + 1 < |rest| + 1 {
        assert !Starts(rest, i - 1, '-', '-');
      }
    }
  }

  /** Dropping runs up to a line break never brings two dashes together. */
  lemma {:induction false} DashCommentsGone(cells: seq<Cell>, inside: bool)
    ensures var out := DropLineComments(cells, Dashes, inside);
      && NoDoubleDash(out)
      && (out != [] && out[0].ch == '-' ==> !inside && cells != [] && cells[0].ch == '-')
    decreases |cells|
  {
    if cells == [] {
    } else {
      var out := DropLineComments(cells, Dashes, inside);
      if cells[0].ch == '\n' {
        DashCommentsGone(cells[1..], false);
        NoDashAfter(cells[0], DropLineComments(cells[1..], Dashes, false));
      } else if inside || StartsLineComment(cells, Dashes) {
        DashCommentsGone(cells[1..], true);
      } else {
        DashCommentsGone(cells[1..], false);
        NoDashAfter(cells[0], DropLineComments(cells[1..], Dashes, false));
      }
    }
  }

  lemma {:induction false} HashCommentsGone(cells: seq<Cell>, inside: bool)
    requires NoDoubleDash(cells)
    ensures var out := DropLineComments(cells, Hash, inside);
      && NoDoubleDash(out) && (forall c :: c in out ==> c.ch != '#')
      && (out != [] && out[0].ch == '-' ==> !inside && cells != [] && cells[0].ch == '-')
    decreases |cells|
  {
    if cells == [] {
    } else {
      assert !Starts(cells, 0, '-', '-');
      forall i: nat ensures !Starts(cells[1..], i, '-', '-') {
        assert !Starts(cells, i + 1, '-', '-');
      }
      if cells[0].ch == '\n' || !(inside || StartsLineComment(cells, Hash)) {
        HashCommentsGone(cells[1..], false);
        NoDashAfter(cells[0], DropLineComments(cells[1..], Hash, false));
      } else {
        HashCommentsGone(cells[1..], true);
      }
    }
  }

  /** What is split into statements holds no line comment of either kind. */
  lemma {:induction false} LineCommentsGone(sql: string)
    ensures '#' !in Chars(Cleaned(sql)) && NoDoubleDash(Cleaned(sql))
  {
    var blanked := BlankBlockComments(Tagged(sql));
    DashCommentsGone(blanked, false);
    HashCommentsGone(DropLineComments(blanked, Dashes, false), false);
    var cleaned := Cleaned(sql);
    forall i | 0 <= i < |cleaned| ensures Chars(cleaned)[i] != '#' {
      assert cleaned[i] in cleaned;
    }
  }

  // --- statements ----------------------------------------------------------

  /** A semicolon opens a new piece; any other character goes to the last one. */
  function Extend(segs: seq<seq<Cell>>, last: Cell): (segs': seq<seq<Cell>>)
    requires segs != []
    ensures segs' != []
  {
    if last.ch == ';' then segs + [[]]
    else segs[..|segs| - 1] + [segs[|segs| - 1] + [last]]
  }

  /** The pieces between semicolons; there is always a last one, perhaps empty. */
  function Segments(cells: seq<Cell>): (segs: seq<seq<Cell>>)
    ensures segs != []
    decreases |cells|
  {
    if cells == [] then [[]] else Extend(Segments(cells[..|cells| - 1]), cells[|cells| - 1])
  }

  /** Line of the original text, counted from one, on which position `pos` lies. */
  function LineAt(sql: string, pos: nat): nat
    requires pos <= |sql|
  {
    1 + CountNewlines(sql[..pos])
  }

  ghost predicate InText(sql: string, cells: seq<Cell>) {
    forall c :: c in cells ==> c.pos < |sql|
  }

  /** The statement of a segment: its trimmed text, and the line of its first character. */
  function StatementOf(sql: string, seg: seq<Cell>): RawStatement
    requires !Blank(Chars(seg)) && InText(sql, seg)
  {
    var first := SkipSpaces(Chars(seg), 0);
    assert seg[first] in seg;
    RawStatement(Trim(Chars(seg)), LineAt(sql, seg[first].pos))
  }

  /** What splitting a text is meant to yield: its non-blank segments, in order. */
  function StatementsOf(sql: string, segs: seq<seq<Cell>>): seq<RawStatement>
    requires forall seg :: seg in segs ==> InText(sql, seg)
  {
    if segs == [] then []
    else
      var n := |segs| - 1;
      StatementsOf(sql, segs[..n]) + (if Blank(Chars(segs[n])) then [] else [StatementOf(sql, segs[n])])
  }

  lemma {:induction false} SegmentsInText(sql: string, cells: seq<Cell>)
    requires InText(sql, cells)
    ensures forall seg :: seg in Segments(cells) ==> InText(sql, seg)
    decreases |cells|
  {
    if cells == [] {
    } else {
      SegmentsInText(sql, cells[..|cells| - 1]);
      var before := Segments(cells[..|cells| - 1]);
      assert before[|before| - 1] in before;
    }
  }

  lemma {:induction false} CleanedInText(sql: string)
    ensures InText(sql, Cleaned(sql))
  {
    CleanedTraces(sql);
    var cells := Cleaned(sql);
    forall c | c in cells ensures c.pos < |sql| {
      var k :| 0 <= k < |cells| && cells[k] == c;
      SameNewlines(sql, cells, 0, k);
    }
  }

  /** The statements of a text. */
  function Statements(sql: string): seq<RawStatement> {
    CleanedInText(sql);
    SegmentsInText(sql, Cleaned(sql));
    StatementsOf(sql, Segments(Cleaned(sql)))
  }

  lemma {:induction false} StatementsOfAppend(sql: string, closed: seq<seq<Cell>>, open: seq<Cell>)
    requires InText(sql, open) && forall seg :: seg in closed ==> InText(sql, seg)
    ensures forall seg :: seg in closed + [open] ==> InText(sql, seg)
    ensures StatementsOf(sql, closed + [open])
         == StatementsOf(sql, closed) + (if Blank(Chars(open)) then [] else [StatementOf(sql, open)])
  {
  }

  /** The first visible character of a piece stays the first as the piece grows. */
  lemma {:induction false} FirstVisible(s: string, c: char)
    ensures !Blank(s) ==> !Blank(s + [c]) && SkipSpaces(s + [c], 0) == SkipSpaces(s, 0) < |s|
    ensures Blank(s) && !IsSpace(c) ==> !Blank(s + [c]) && SkipSpaces(s + [c], 0) == |s|
    ensures Blank(s) && IsSpace(c) ==> Blank(s + [c])
  {
    var t := s + [c];
    if !Blank(s) {
      assert t[SkipSpaces(s, 0)] == s[SkipSpaces(s, 0)];
    } else if !IsSpace(c) {
      assert t[|s|] == c;
    }
  }

  lemma {:induction false} SegmentsStep(cells: seq<Cell>, k: nat, closed: seq<seq<Cell>>, open: seq<Cell>)
    requires k < |cells| && Segments(cells[..k]) == closed + [open]
    ensures Segments(cells[..k + 1]) ==
      if cells[k].ch == ';' then closed + [open] + [[]] else closed + [open + [cells[k]]]
  {
    assert cells[..k + 1][..k] == cells[..k];
    assert (closed + [open])[..|closed|] == closed;
  }

  lemma {:induction false} LineOfCell(sql: string, k: nat)
    requires k < |Cleaned(sql)|
    ensures Cleaned(sql)[k].pos < |sql|
    ensures LineAt(sql, Cleaned(sql)[k].pos) == 1 + CountNewlines(Chars(Cleaned(sql)[..k]))
    ensures Cleaned(sql)[k].ch == sql[Cleaned(sql)[k].pos] || Cleaned(sql)[k].ch == ' '
  {
    CleanedTraces(sql);
    SameNewlines(sql, Cleaned(sql), 0, k);
  }

  /** The line of the first visible character. */
  function StartLine(sql: string, seg: seq<Cell>): nat
    requires !Blank(Chars(seg)) && InText(sql, seg)
  {
    StatementOf(sql, seg).line
  }

  lemma {:induction false} CharsSnoc(cells: seq<Cell>, last: Cell)
    ensures Chars(cells + [last]) == Chars(cells) + [last.ch]
  {
  }

  lemma {:induction false} PieceGrows(sql: string, open: seq<Cell>, c: Cell)
    requires InText(sql, open) && c.pos < |sql|
    ensures Chars(open + [c]) == Chars(open) + [c.ch] && InText(sql, open + [c])
    ensures Blank(Chars(open + [c])) <==> Blank(Chars(open)) && IsSpace(c.ch)
    ensures !Blank(Chars(open)) ==> StartLine(sql, open + [c]) == StartLine(sql, open)
    ensures Blank(Chars(open)) && !IsSpace(c.ch) ==> StartLine(sql, open + [c]) == LineAt(sql, c.pos)
  {
    CharsSnoc(open, c);
    FirstVisible(Chars(open), c.ch);
  }

  /** After `k` characters: the pieces closed so far with their statements, and the open one. */
  ghost predicate Scanned(sql: string, k: nat, closed: seq<seq<Cell>>, open: seq<Cell>, statements: seq<RawStatement>) {
    && k <= |Cleaned(sql)| && Segments(Cleaned(sql)[..k]) == closed + [open]
    && InText(sql, open) && (forall seg :: seg in closed ==> InText(sql, seg))
    && statements == StatementsOf(sql, closed)
  }

  function Closing(sql: string, open: seq<Cell>): seq<RawStatement>
    requires InText(sql, open)
  {
    if Blank(Chars(open)) then [] else [StatementOf(sql, open)]
  }

  lemma {:induction false} ScanCut(sql: string, k: nat, closed: seq<seq<Cell>>, open: seq<Cell>,
                                   statements: seq<RawStatement>)
    requires Scanned(sql, k, closed, open, statements) && k < |Cleaned(sql)| && Cleaned(sql)[k].ch == ';'
    ensures Scanned(sql, k + 1, closed + [open], [], statements + Closing(sql, open))
  {
    SegmentsStep(Cleaned(sql), k, closed, open);
    StatementsOfAppend(sql, closed, open);
  }

  lemma {:induction false} ScanKeep(sql: string, k: nat, closed: seq<seq<Cell>>, open: seq<Cell>,
                                    statements: seq<RawStatement>)
    requires Scanned(sql, k, closed, open, statements) && k < |Cleaned(sql)| && Cleaned(sql)[k].ch != ';'
    ensures Scanned(sql, k + 1, closed, open + [Cleaned(sql)[k]], statements)
  {
    SegmentsStep(Cleaned(sql), k, closed, open);
    LineOfCell(sql, k);
  }

  lemma {:induction false} ScanEnd(sql: string, closed: seq<seq<Cell>>, open: seq<Cell>, statements: seq<RawStatement>)
    requires Scanned(sql, |Cleaned(sql)|, closed, open, statements)
    ensures Statements(sql) == statements + Closing(sql, open)
  {
    assert Cleaned(sql)[..|Cleaned(sql)|] == Cleaned(sql);
    StatementsOfAppend(sql, closed, open);
  }

  lemma {:induction false} NextLine(cells: seq<Cell>, k: nat)
    requires k < |cells|
    ensures CountNewlines(Chars(cells[..k + 1]))
         == CountNewlines(Chars(cells[..k])) + (if cells[k].ch == '\n' then 1 else 0)
  {
    assert Chars(cells[..k + 1])[..k] == Chars(cells[..k]);
  }

  /** One pass over the cleaned text, with the current piece, the line and its start line. */
  method SplitSqlStatements(sql: string) returns (statements: seq<RawStatement>)
    ensures statements == Statements(sql)
  {
    var cleaned := Cleaned(sql);
    statements := [];
    var current := "";
    var line, startLine := 1, 1;
    var started := false;
    ghost var open: seq<Cell> := [];
    ghost var closed: seq<seq<Cell>> := [];
    for k := 0 to |cleaned|
      invariant Scanned(sql, k, closed, open, statements)
      invariant current == Chars(open)
      invariant line == 1 + CountNewlines(Chars(cleaned[..k]))
      invariant started <==> !Blank(current)
      invariant started ==> startLine == StartLine(sql, open)
    {
      var ch := cleaned[k].ch;
      LineOfCell(sql, k);
      NextLine(cleaned, k);
      PieceGrows(sql, open, cleaned[k]);
      if !started && !IsSpace(ch) {
        started := true;
        startLine := line;
      }
      if ch == ';' {
        ScanCut(sql, k, closed, open, statements);
        if Trim(current) != "" {
          statements := statements + [RawStatement(Trim(current), startLine)];
        }
        current := "";
        started := false;
        closed, open := closed + [open], [];
      } else {
        ScanKeep(sql, k, closed, open, statements);
        current := current + [ch];
        open := open + [cleaned[k]];
      }
      if ch == '\n' {
        line := line + 1;
      }
    }
    ScanEnd(sql, closed, open, statements);
    if Trim(current) != "" {
      statements := statements + [RawStatement(Trim(current), startLine)];
    }
  }

  // --- the specification is the right one ----------------------------------

  function JoinSegments(segs: seq<seq<Cell>>, n: nat): string
    requires n < |segs|
  {
    if n == 0 then Chars(segs[0]) else JoinSegments(segs, n - 1) + ";" + Chars(segs[n])
  }

  function JoinAll(segs: seq<seq<Cell>>): string
    requires segs != []
  {
    JoinSegments(segs, |segs| - 1)
  }

  lemma {:induction false} JoinPrefix(segs: seq<seq<Cell>>, segs': seq<seq<Cell>>, n: nat)
    requires n < |segs| && n < |segs'| && segs[..n + 1] == segs'[..n + 1]
    ensures JoinSegments(segs, n) == JoinSegments(segs', n)
  {
    assert segs[n] == segs[..n + 1][n] && segs'[n] == segs'[..n + 1][n];
    if n > 0 {
      assert segs[..n] == segs[..n + 1][..n] && segs'[..n] == segs'[..n + 1][..n];
      JoinPrefix(segs, segs', n - 1);
    }
  }

  lemma {:induction false} CutAtSemicolon(before: seq<seq<Cell>>, last: Cell)
    requires before != [] && last.ch == ';'
    ensures JoinSegments(before + [[]], |before|) == JoinSegments(before, |before| - 1) + [last.ch]
  {
    JoinPrefix(before, before + [[]], |before| - 1);
  }

  lemma {:induction false} GrowText(x: string, s: string, c: char)
    ensures x + ";" + (s + [c]) == (x + ";" + s) + [c]
  {
  }

  lemma {:induction false} GrowLast(init: seq<seq<Cell>>, seg: seq<Cell>, last: Cell)
    ensures JoinSegments(init + [seg + [last]], |init|) == JoinSegments(init + [seg], |init|) + [last.ch]
  {
    var n := |init|;
    var short, long := init + [seg], init + [seg + [last]];
    assert Chars(long[n]) == Chars(short[n]) + [last.ch];
    if n > 0 {
      assert short[..n] == long[..n];
      JoinPrefix(short, long, n - 1);
      GrowText(JoinSegments(short, n - 1), Chars(short[n]), last.ch);
    }
  }

  lemma {:induction false} ExtendJoins(segs: seq<seq<Cell>>, last: Cell)
    requires segs != []
    ensures JoinAll(Extend(segs, last)) == JoinAll(segs) + [last.ch]
  {
    if last.ch == ';' {
      CutAtSemicolon(segs, last);
    } else {
      var m := |segs| - 1;
      assert segs == segs[..m] + [segs[m]];
      GrowLast(segs[..m], segs[m], last);
    }
  }

  lemma {:induction false} ExtendKeepsOut(segs: seq<seq<Cell>>, last: Cell)
    requires segs != [] && forall seg :: seg in segs ==> ';' !in Chars(seg)
    ensures forall seg :: seg in Extend(segs, last) ==> ';' !in Chars(seg)
  {
    var m := |segs| - 1;
    assert segs[m] in segs;
    assert Chars(segs[m] + [last]) == Chars(segs[m]) + [last.ch];
  }

  lemma {:induction false} SegmentsKeepOut(cells: seq<Cell>)
    ensures forall seg :: seg in Segments(cells) ==> ';' !in Chars(seg)
    decreases |cells|
  {
    if cells == [] {
    } else {
      var n := |cells| - 1;
      SegmentsKeepOut(cells[..n]);
      ExtendKeepsOut(Segments(cells[..n]), cells[n]);
    }
  }

  lemma {:induction false} SegmentsSnoc(cells: seq<Cell>, last: Cell)
    ensures Segments(cells + [last]) == Extend(Segments(cells), last)
  {
    assert (cells + [last])[..|cells|] == cells;
  }

  lemma {:induction false} SegmentsJoin(cells: seq<Cell>)
    ensures JoinAll(Segments(cells)) == Chars(cells)
    decreases |cells|
  {
    if cells == [] {
    } else {
      var init, last := cells[..|cells| - 1], cells[|cells| - 1];
      assert cells == init + [last];
      SegmentsJoin(init);
      SegmentsSnoc(init, last);
      ExtendJoins(Segments(init), last);
      CharsSnoc(init, last);
    }
  }

  /** Segments hold no semicolon, and joined by semicolons they are the cleaned text. */
  lemma {:induction false} SegmentsExact(cells: seq<Cell>)
    ensures forall seg :: seg in Segments(cells) ==> ';' !in Chars(seg)
    ensures JoinAll(Segments(cells)) == Chars(cells)
  {
    SegmentsKeepOut(cells);
    SegmentsJoin(cells);
  }

  lemma {:induction false} SegmentCells(cells: seq<Cell>, seg: seq<Cell>, i: nat)
    requires seg in Segments(cells) && i < |seg|
    ensures seg[i] in cells
    decreases |cells|
  {
    if cells == [] {
    } else {
      var n := |cells| - 1;
      var before := Segments(cells[..n]);
      var m := |before| - 1;
      if seg in before {
        SegmentCells(cells[..n], seg, i);
      } else if i < |seg| - 1 {
        assert seg == before[m] + [cells[n]];
        SegmentCells(cells[..n], before[m], i);
      }
    }
  }

  /** Each statement starts, in the original text, with its first character on the reported line. */
  lemma {:induction false} StatementStartsOnItsLine(sql: string, seg: seq<Cell>)
    requires seg in Segments(Cleaned(sql)) && !Blank(Chars(seg))
    ensures exists pos :: && 0 <= pos < |sql|
                          && InText(sql, seg)
                          && StatementOf(sql, seg).raw[..1] == [sql[pos]]
                          && StatementOf(sql, seg).line == LineAt(sql, pos)
  {
    CleanedInText(sql);
    CleanedTraces(sql);
    SegmentsInText(sql, Cleaned(sql));
    var first := SkipSpaces(Chars(seg), 0);
    SegmentCells(Cleaned(sql), seg, first);
    var k :| 0 <= k < |Cleaned(sql)| && Cleaned(sql)[k] == seg[first];
    SameNewlines(sql, Cleaned(sql), 0, k);
    assert StatementOf(sql, seg).raw[0] == seg[first].ch;
    assert seg[first].pos < |sql|;
  }
}
