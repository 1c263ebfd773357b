/** How the server cuts a text into statements, and when the splitter cuts it the same way. */
module SqlServer {
  import opened Text
  import opened SqlSplitter

  // --- the server's own reading --------------------------------------------

  datatype Mode = Code | Literal(quote: char) | Escaped(quote: char) | LineComment

  /** A character of a statement, a separator, or a piece of comment: blanked out, or gone. */
  datatype Token = Kept(cell: Cell) | Cut(cell: Cell) | Blanked(cell: Cell) | Dropped

  predicate ServerSpace(c: char) { '\t' <= c <= '\r' || c == ' ' }

  predicate IsQuoteMark(c: char) { c == '\'' || c == '"' || c == '`' }

  /** Two dashes start a comment only before white space, a control character or the end. */
  predicate StartsDashComment(cells: seq<Cell>) {
    Starts(cells, 0, '-', '-') && (|cells| == 2 || cells[2].ch <= ' ' || cells[2].ch == '\U{7F}')
  }

  /** The text of slash-star-bang and slash-star-plus is for the server, not a comment. */
  predicate IsHint(cells: seq<Cell>) { |cells| > 2 && (cells[2].ch == '!' || cells[2].ch == '+') }

  predicate StartsBlock(cells: seq<Cell>) {
    Starts(cells, 0, '/', '*') && !IsHint(cells) && FindClose(cells, 2) < |cells|
  }

  function BlankTokens(cells: seq<Cell>): (tokens: seq<Token>)
    ensures |tokens| == |cells| && forall i :: 0 <= i < |cells| ==> tokens[i] == Blanked(BlankOut(cells)[i])
  {
    seq(|cells|, i requires 0 <= i < |cells| => Blanked(BlankOut(cells)[i]))
  }

  /** One pass that knows string literals, quoted names and the three kinds of comment. */
  function Lex(cells: seq<Cell>, mode: Mode): seq<Token>
    decreases |cells|
  {
    if cells == [] then []
    else
      var c := cells[0].ch;
      match mode
      case Code =>
        if StartsBlock(cells) then
          var end := FindClose(cells, 2) + 2;
          BlankTokens(cells[..end]) + Lex(cells[end..], Code)
        else if c == '#' || StartsDashComment(cells) then [Dropped] + Lex(cells[1..], LineComment)
        else if c == ';' then [Cut(cells[0])] + Lex(cells[1..], Code)
        else [Kept(cells[0])] + Lex(cells[1..], if IsQuoteMark(c) then Literal(c) else Code)
      case LineComment =>
        if c == '\n' then [Kept(cells[0])] + Lex(cells[1..], Code) else [Dropped] + Lex(cells[1..], LineComment)
      case Literal(q) =>
        [Kept(cells[0])]
        + Lex(cells[1..], if c == q then Code else if c == '\\' && q != '`' then Escaped(q) else Literal(q))
      case Escaped(q) => [Kept(cells[0])] + Lex(cells[1..], Literal(q))
  }

  /** The pieces between separators. */
  function Pieces(tokens: seq<Token>): (pieces: seq<seq<Token>>)
    ensures pieces != []
    decreases |tokens|
  {
    if tokens == [] then [[]]
    else
      var before := Pieces(tokens[..|tokens| - 1]);
      var last := tokens[|tokens| - 1];
      if last.Cut? then before + [[]] else before[..|before| - 1] + [before[|before| - 1] + [last]]
  }

  function TextCells(tokens: seq<Token>): seq<Cell>
    decreases |tokens|
  {
    if tokens == [] then []
    else
      var last := tokens[|tokens| - 1];
      TextCells(tokens[..|tokens| - 1]) + (if last.Dropped? then [] else [last.cell])
  }

  predicate ServerBlank(s: string) { forall i :: 0 <= i < |s| ==> ServerSpace(s[i]) }

  function TrimFront(s: string): string {
    if s != "" && ServerSpace(s[0]) then TrimFront(s[1..]) else s
  }

  function TrimBack(s: string): string {
    if s != "" && ServerSpace(s[|s| - 1]) then TrimBack(s[..|s| - 1]) else s
  }

  function ServerTrim(s: string): string { TrimBack(TrimFront(s)) }

  predicate HasComment(piece: seq<Token>) { exists t :: t in piece && (t.Blanked? || t.Dropped?) }

  function PieceText(piece: seq<Token>): string { Chars(TextCells(piece)) }

  /** Nothing at all between two separators. */
  predicate Void(piece: seq<Token>) { ServerBlank(PieceText(piece)) && !HasComment(piece) }

  /** White space and separators at the end of the text are ignored. */
  function StripEnd(pieces: seq<seq<Token>>): (used: seq<seq<Token>>)
    ensures used <= pieces
    ensures used != [] ==> !Void(used[|used| - 1])
  {
    if pieces != [] && Void(pieces[|pieces| - 1]) then StripEnd(pieces[..|pieces| - 1]) else pieces
  }

  /** What is run: a statement, or the error for an empty one. */
  datatype Sent = Statement(text: string) | EmptyQuery

  /** Pieces that a separator follows. */
  function SentBy(pieces: seq<seq<Token>>): seq<Sent> {
    if pieces == [] then []
    else
      var text := PieceText(pieces[|pieces| - 1]);
      SentBy(pieces[..|pieces| - 1]) + [if ServerBlank(text) then EmptyQuery else Statement(ServerTrim(text))]
  }

  /** The last piece may be a mere comment. */
  function SentLast(piece: seq<Token>): seq<Sent> {
    if ServerBlank(PieceText(piece)) then [] else [Statement(ServerTrim(PieceText(piece)))]
  }

  /** What the server runs when the text is sent as one query. */
  function ServerStatements(sql: string): seq<Sent> {
    var used := StripEnd(Pieces(Lex(Tagged(sql), Code)));
    if used == [] then [EmptyQuery] else SentBy(used[..|used| - 1]) + SentLast(used[|used| - 1])
  }

  // --- the splitter's reading ----------------------------------------------

  function TextsBy(segs: seq<seq<Cell>>): seq<string> {
    if segs == [] then []
    else
      var seg := Chars(segs[|segs| - 1]);
      TextsBy(segs[..|segs| - 1]) + (if Blank(seg) then [] else [Trim(seg)])
  }

  /** The statement texts the splitter returns. */
  function SplitTexts(sql: string): seq<string> { TextsBy(Segments(Cleaned(sql))) }

  lemma {:induction false} TextsByRaws(sql: string, segs: seq<seq<Cell>>)
    requires forall seg :: seg in segs ==> InText(sql, seg)
    ensures |TextsBy(segs)| == |StatementsOf(sql, segs)|
    ensures forall i :: 0 <= i < |TextsBy(segs)| ==> TextsBy(segs)[i] == StatementsOf(sql, segs)[i].raw
  {
    if segs == [] {
    } else {
      TextsByRaws(sql, segs[..|segs| - 1]);
    }
  }

  lemma {:induction false} SplitTextsAre(sql: string)
    ensures |SplitTexts(sql)| == |Statements(sql)|
    ensures forall i :: 0 <= i < |SplitTexts(sql)| ==> SplitTexts(sql)[i] == Statements(sql)[i].raw
  {
    CleanedInText(sql);
    SegmentsInText(sql, Cleaned(sql));
    TextsByRaws(sql, Segments(Cleaned(sql)));
  }

  function AsSent(texts: seq<string>): (sent: seq<Sent>)
    ensures |sent| == |texts| && forall i :: 0 <= i < |texts| ==> sent[i] == Statement(texts[i])
  {
    seq(|texts|, i requires 0 <= i < |texts| => Statement(texts[i]))
  }

  // --- texts on which the two agree ----------------------------------------

  /** Two dashes or slash-star. */
  predicate StartsSign(cells: seq<Cell>) { Starts(cells, 0, '-', '-') || Starts(cells, 0, '/', '*') }

  /**
   * No comment sign or semicolon inside quotes, no block comment sign inside a line comment,
   * two dashes only where they start a comment, block comments closed and no hints.
   */
  predicate PlainFrom(cells: seq<Cell>, mode: Mode)
    decreases |cells|
  {
    cells == [] ||
    var c := cells[0].ch;
    match mode
    case Code =>
      if StartsBlock(cells) then PlainFrom(cells[FindClose(cells, 2) + 2..], Code)
      else if c == '#' || StartsDashComment(cells) then PlainFrom(cells[1..], LineComment)
      else !StartsSign(cells) && PlainFrom(cells[1..], if IsQuoteMark(c) then Literal(c) else Code)
    case LineComment =>
      !Starts(cells, 0, '/', '*') && PlainFrom(cells[1..], if c == '\n' then Code else LineComment)
    case Literal(q) =>
      && !StartsSign(cells) && c != '#' && c != ';'
      && PlainFrom(cells[1..], if c == q then Code else if c == '\\' && q != '`' then Escaped(q) else Literal(q))
    case Escaped(q) =>
      !StartsSign(cells) && c != '#' && c != ';' && PlainFrom(cells[1..], Literal(q))
  }

  predicate SpacesKnown(cells: seq<Cell>) { forall c :: c in cells && IsSpace(c.ch) ==> ServerSpace(c.ch) }

  /**
   * Such a text, with white space the server knows, at least one statement or comment, and nothing empty
   * before the last statement.
   */
  predicate Plain(sql: string) {
    var used := StripEnd(Pieces(Lex(Tagged(sql), Code)));
    && PlainFrom(Tagged(sql), Code)
    && SpacesKnown(Cleaned(sql))
    && used != []
    && forall i :: 0 <= i < |used| - 1 ==> !ServerBlank(PieceText(used[i]))
  }

  // --- three passes and one pass -------------------------------------------

  /** The two passes over line comments, each from inside or outside one. */
  function DropBoth(cells: seq<Cell>, dash: bool, hash: bool): seq<Cell> {
    DropLineComments(DropLineComments(cells, Dashes, dash), Hash, hash)
  }

  /** Text without any sign of a line comment passes. */
  lemma {:induction false} OthersPass(pre: seq<Cell>, rest: seq<Cell>, marker: SqlSplitter.Marker)
    requires forall i :: 0 <= i < |pre| ==> pre[i].ch != '-' && pre[i].ch != '#'
    ensures DropLineComments(pre + rest, marker, false) == pre + DropLineComments(rest, marker, false)
    decreases |pre|
  {
    if pre == [] {
      assert pre + rest == rest;
    } else {
      assert (pre + rest)[1..] == pre[1..] + rest;
      OthersPass(pre[1..], rest, marker);
    }
  }

  /** One cell that starts nothing. */
  lemma {:induction false} OneKept(c: Cell, rest: seq<Cell>)
    requires c.ch != '#' && !Starts([c] + rest, 0, '-', '-')
    ensures DropBoth([c] + rest, false, false) == [c] + DropBoth(rest, false, false)
  {
    assert ([c] + rest)[1..] == rest;
    var passed := DropLineComments(rest, Dashes, false);
    assert DropLineComments([c] + rest, Dashes, false) == [c] + passed;
    assert ([c] + passed)[1..] == passed;
  }

  /** One cell of a line comment, or the line break that ends it. */
  lemma {:induction false} OneDropped(c: Cell, rest: seq<Cell>, dash: bool, hash: bool)
    requires c.ch == '\n' || dash || hash || c.ch == '#' || Starts([c] + rest, 0, '-', '-')
    ensures c.ch == '\n' ==> DropBoth([c] + rest, dash, hash) == [c] + DropBoth(rest, false, false)
    ensures c.ch != '\n' ==>
      exists d, h :: (d || h) && DropBoth([c] + rest, dash, hash) == DropBoth(rest, d, h)
  {
    assert ([c] + rest)[1..] == rest;
    if c.ch == '\n' {
      var passed := DropLineComments(rest, Dashes, false);
      assert DropLineComments([c] + rest, Dashes, dash) == [c] + passed;
      assert ([c] + passed)[1..] == passed;
    } else if dash || Starts([c] + rest, 0, '-', '-') {
      assert DropBoth([c] + rest, dash, hash) == DropBoth(rest, true, hash);
    } else {
      var passed := DropLineComments(rest, Dashes, false);
      assert DropLineComments([c] + rest, Dashes, dash) == [c] + passed;
      assert ([c] + passed)[1..] == passed;
      assert DropBoth([c] + rest, dash, hash) == DropBoth(rest, false, true);
    }
  }

  lemma {:induction false} TextCellsAppend(a: seq<Token>, b: seq<Token>)
    ensures TextCells(a + b) == TextCells(a) + TextCells(b)
    decreases |b|
  {
    if b == [] {
      assert a + b == a;
    } else {
      assert (a + b)[..|a + b| - 1] == a + b[..|b| - 1];
      TextCellsAppend(a, b[..|b| - 1]);
    }
  }

  lemma {:induction false} TextOfOne(t: Token)
    ensures TextCells([t]) == if t.Dropped? then [] else [t.cell]
  {
    assert [t][..0] == [];
  }

  lemma {:induction false} TextOfBlanks(cells: seq<Cell>)
    ensures TextCells(BlankTokens(cells)) == BlankOut(cells)
  {
    if cells == [] {
    } else {
      var n := |cells| - 1;
      TextOfBlanks(cells[..n]);
      assert BlankTokens(cells)[..n] == BlankTokens(cells[..n]);
    }
  }

  /** Blanking block comments, where none starts: the first cell stays, and so does what follows it. */
  lemma {:induction false} BlankingOne(cells: seq<Cell>)
    requires cells != [] && !(Starts(cells, 0, '/', '*') && FindClose(cells, 2) < |cells|)
    ensures BlankBlockComments(cells) == [cells[0]] + BlankBlockComments(cells[1..])
    ensures Starts(BlankBlockComments(cells), 0, '-', '-') <==> Starts(cells, 0, '-', '-')
  {
    BlankingIsPointwise(cells[1..]);
    if |cells| > 1 && cells[1].ch == '-' {
      assert !Starts(cells[1..], 0, '/', '*');
    }
  }

  /** How a mode of the one pass shows in the three passes. */
  predicate InStep(mode: Mode, dash: bool, hash: bool) { dash || hash <==> mode == LineComment }

  lemma {:induction false} KeptStep(t: Token, rest: seq<Token>, cells: seq<Cell>)
    requires !t.Dropped? && cells != [] && t.cell == cells[0] && !StartsSign(cells) && cells[0].ch != '#'
    requires TextCells(rest) == DropBoth(BlankBlockComments(cells[1..]), false, false)
    ensures TextCells([t] + rest) == DropBoth(BlankBlockComments(cells), false, false)
  {
    TextCellsAppend([t], rest);
    TextOfOne(t);
    BlankingOne(cells);
    OneKept(cells[0], BlankBlockComments(cells[1..]));
  }

  lemma {:induction false} BlockStep(cells: seq<Cell>, end: nat, rest: seq<Token>)
    requires Starts(cells, 0, '/', '*') && FindClose(cells, 2) < |cells| && end == FindClose(cells, 2) + 2
    requires TextCells(rest) == DropBoth(BlankBlockComments(cells[end..]), false, false)
    ensures TextCells(BlankTokens(cells[..end]) + rest) == DropBoth(BlankBlockComments(cells), false, false)
  {
    TextCellsAppend(BlankTokens(cells[..end]), rest);
    TextOfBlanks(cells[..end]);
    var blanks := BlankOut(cells[..end]);
    OthersPass(blanks, BlankBlockComments(cells[end..]), Dashes);
    OthersPass(blanks, DropLineComments(BlankBlockComments(cells[end..]), Dashes, false), Hash);
  }

  /** For plain texts one pass keeps what the three passes keep. */
  lemma {:induction false} OnePass(cells: seq<Cell>, mode: Mode, dash: bool, hash: bool)
    requires PlainFrom(cells, mode) && InStep(mode, dash, hash)
    ensures TextCells(Lex(cells, mode)) == DropBoth(BlankBlockComments(cells), dash, hash)
    decreases |cells|
  {
    if cells == [] {
    } else {
      var c := cells[0].ch;
      if mode == Code && StartsBlock(cells) {
        var end := FindClose(cells, 2) + 2;
        OnePass(cells[end..], Code, false, false);
        BlockStep(cells, end, Lex(cells[end..], Code));
      } else if mode == LineComment || (mode == Code && (c == '#' || StartsDashComment(cells))) {
        CommentStep(cells, mode, dash, hash);
      } else {
        var next := if mode == Code then (if IsQuoteMark(c) then Literal(c) else Code)
                    else if mode.Escaped? then Literal(mode.quote)
                    else if c == mode.quote then Code
                    else if c == '\\' && mode.quote != '`' then Escaped(mode.quote) else mode;
        OnePass(cells[1..], next, false, false);
        KeptStep(Lex(cells, mode)[0], Lex(cells[1..], next), cells);
      }
    }
  }

  lemma {:induction false} CommentStep(cells: seq<Cell>, mode: Mode, dash: bool, hash: bool)
    requires cells != [] && PlainFrom(cells, mode) && InStep(mode, dash, hash)
    requires mode == LineComment || (mode == Code && !StartsBlock(cells) &&
                                      (cells[0].ch == '#' || StartsDashComment(cells)))
    ensures TextCells(Lex(cells, mode)) == DropBoth(BlankBlockComments(cells), dash, hash)
    decreases |cells|, 0
  {
    BlankingOne(cells);
    var rest := BlankBlockComments(cells[1..]);
    OneDropped(cells[0], rest, dash, hash);
    if cells[0].ch == '\n' {
      OnePass(cells[1..], Code, false, false);
      TextCellsAppend([Kept(cells[0])], Lex(cells[1..], Code));
      TextOfOne(Kept(cells[0]));
    } else {
      var d, h :| (d || h) && DropBoth([cells[0]] + rest, dash, hash) == DropBoth(rest, d, h);
      OnePass(cells[1..], LineComment, d, h);
      TextCellsAppend([Dropped], Lex(cells[1..], LineComment));
      TextOfOne(Dropped);
    }
  }

  // --- pieces and segments -------------------------------------------------

  predicate CutsAreSemicolons(tokens: seq<Token>) {
    forall t :: t in tokens && !t.Dropped? ==> (t.cell.ch == ';' <==> t.Cut?)
  }

  lemma {:induction false} PlainCuts(cells: seq<Cell>, mode: Mode)
    requires PlainFrom(cells, mode)
    ensures CutsAreSemicolons(Lex(cells, mode))
    decreases |cells|
  {
    if cells == [] {
    } else {
      var c := cells[0].ch;
      if mode == Code && StartsBlock(cells) {
        PlainCuts(cells[FindClose(cells, 2) + 2..], Code);
      } else {
        var next := match mode
          case Code => if c == '#' || StartsDashComment(cells) then LineComment
            else if IsQuoteMark(c) then Literal(c) else Code
          case LineComment => if c == '\n' then Code else LineComment
          case Literal(q) => if c == q then Code else if c == '\\' && q != '`' then Escaped(q) else mode
          case Escaped(q) => Literal(q);
        PlainCuts(cells[1..], next);
      }
    }
  }

  /** Segment by segment the text of the pieces. */
  ghost predicate TextsOf(segs: seq<seq<Cell>>, pieces: seq<seq<Token>>) {
    |segs| == |pieces| && forall i :: 0 <= i < |pieces| ==> segs[i] == TextCells(pieces[i])
  }

  lemma {:induction false} ExtendTexts(segs: seq<seq<Cell>>, pieces: seq<seq<Token>>, last: Token)
    requires pieces != [] && TextsOf(segs, pieces) && !last.Cut?
    ensures var m := |pieces| - 1;
      TextsOf(segs[..m] + [segs[m] + TextCells([last])], pieces[..m] + [pieces[m] + [last]])
  {
    TextCellsAppend(pieces[|pieces| - 1], [last]);
  }

  lemma {:induction false} PiecesStep(tokens: seq<Token>, last: Token)
    ensures var before := Pieces(tokens);
      Pieces(tokens + [last])
      == if last.Cut? then before + [[]] else before[..|before| - 1] + [before[|before| - 1] + [last]]
  {
    assert (tokens + [last])[..|tokens|] == tokens;
  }

  lemma {:induction false} SegmentsStep(cells: seq<Cell>, t: Token)
    requires !t.Dropped? ==> (t.cell.ch == ';' <==> t.Cut?)
    ensures var before := Segments(cells);
      Segments(cells + TextCells([t]))
      == if t.Cut? then before + [[]] else before[..|before| - 1] + [before[|before| - 1] + TextCells([t])]
  {
    TextOfOne(t);
    var before := Segments(cells);
    if t.Dropped? {
      assert cells + [] == cells;
      assert before[|before| - 1] + [] == before[|before| - 1];
      assert before == before[..|before| - 1] + [before[|before| - 1]];
    } else {
      assert (cells + [t.cell])[..|cells|] == cells;
    }
  }

  lemma {:induction false} CutTexts(segs: seq<seq<Cell>>, pieces: seq<seq<Token>>)
    requires TextsOf(segs, pieces)
    ensures TextsOf(segs + [[]], pieces + [[]])
  {
  }

  lemma {:induction false} PiecesAreSegments(tokens: seq<Token>)
    requires CutsAreSemicolons(tokens)
    ensures TextsOf(Segments(TextCells(tokens)), Pieces(tokens))
    decreases |tokens|
  {
    if tokens == [] {
    } else {
      var init, last := tokens[..|tokens| - 1], tokens[|tokens| - 1];
      assert tokens == init + [last];
      PiecesAreSegments(init);
      PiecesStep(init, last);
      TextCellsAppend(init, [last]);
      SegmentsStep(TextCells(init), last);
      if last.Cut? {
        CutTexts(Segments(TextCells(init)), Pieces(init));
      } else {
        ExtendTexts(Segments(TextCells(init)), Pieces(init), last);
      }
    }
  }

  lemma {:induction false} FrontIs(s: string, i: nat)
    requires i <= |s| && forall j :: 0 <= j < |s| && IsSpace(s[j]) ==> ServerSpace(s[j])
    ensures TrimFront(s[i..]) == s[SkipSpaces(s, i)..]
    decreases |s| - i
  {
    if i < |s| && IsSpace(s[i]) {
      FrontIs(s, i + 1);
      assert s[i..][1..] == s[i + 1..];
    }
  }

  lemma {:induction false} BackIs(s: string, lo: nat, hi: nat)
    requires lo <= hi <= |s| && forall j :: 0 <= j < |s| && IsSpace(s[j]) ==> ServerSpace(s[j])
    ensures TrimBack(s[lo..hi]) == s[lo..SkipSpacesBack(s, lo, hi)]
    decreases hi
  {
    if lo < hi && IsSpace(s[hi - 1]) {
      BackIs(s, lo, hi - 1);
      assert s[lo..hi][..hi - lo - 1] == s[lo..hi - 1];
    }
  }

  lemma {:induction false} SameTrim(s: string)
    requires forall j :: 0 <= j < |s| && IsSpace(s[j]) ==> ServerSpace(s[j])
    ensures ServerTrim(s) == Trim(s) && (ServerBlank(s) <==> Blank(s))
  {
    FrontIs(s, 0);
    assert s[0..] == s;
    BackIs(s, SkipSpaces(s, 0), |s|);
    assert s[SkipSpaces(s, 0)..] == s[SkipSpaces(s, 0)..|s|];
  }

  lemma {:induction false} TextsByStep(segs: seq<seq<Cell>>)
    requires segs != [] && SpacesKnown(segs[|segs| - 1])
    ensures var text := Chars(segs[|segs| - 1]);
      TextsBy(segs) == TextsBy(segs[..|segs| - 1]) + if ServerBlank(text) then [] else [ServerTrim(text)]
  {
    SameTrim(Chars(segs[|segs| - 1]));
  }

  lemma {:induction false} AsSentSnoc(texts: seq<string>, text: string)
    ensures AsSent(texts + [text]) == AsSent(texts) + [Statement(text)]
  {
  }

  /** Piece by piece: what the server runs is what the splitter returns. */
  lemma {:induction false} SamePieces(pieces: seq<seq<Token>>, segs: seq<seq<Cell>>)
    requires TextsOf(segs, pieces)
    requires forall i :: 0 <= i < |segs| ==> SpacesKnown(segs[i])
    requires forall i :: 0 <= i < |pieces| ==> !ServerBlank(PieceText(pieces[i]))
    ensures SentBy(pieces) == AsSent(TextsBy(segs))
  {
    if pieces == [] {
    } else {
      var n := |pieces| - 1;
      SamePieces(pieces[..n], segs[..n]);
      assert !ServerBlank(PieceText(pieces[n]));
      TextsByStep(segs);
      AsSentSnoc(TextsBy(segs[..n]), ServerTrim(Chars(segs[n])));
    }
  }

  lemma {:induction false} SameUsed(used: seq<seq<Token>>, segs: seq<seq<Cell>>)
    requires used != [] && TextsOf(segs, used)
    requires forall i :: 0 <= i < |segs| ==> SpacesKnown(segs[i])
    requires forall i :: 0 <= i < |used| - 1 ==> !ServerBlank(PieceText(used[i]))
    ensures SentBy(used[..|used| - 1]) + SentLast(used[|used| - 1]) == AsSent(TextsBy(segs))
  {
    var n := |used| - 1;
    SamePieces(used[..n], segs[..n]);
    TextsByStep(segs);
  }

  lemma {:induction false} BlankAdds(segs: seq<seq<Cell>>)
    requires segs != [] && ServerBlank(Chars(segs[|segs| - 1]))
    ensures TextsBy(segs) == TextsBy(segs[..|segs| - 1])
  {
  }

  /** Pieces at the end that hold nothing give no statement. */
  lemma {:induction false} EndIsBlank(pieces: seq<seq<Token>>, segs: seq<seq<Cell>>)
    requires TextsOf(segs, pieces)
    ensures TextsBy(segs) == TextsBy(segs[..|StripEnd(pieces)|])
  {
    var n := |pieces| - 1;
    if pieces != [] && Void(pieces[n]) {
      EndIsBlank(pieces[..n], segs[..n]);
      assert segs[..n][..|StripEnd(pieces)|] == segs[..|StripEnd(pieces)|];
      BlankAdds(segs);
    } else {
      assert segs[..|segs|] == segs;
    }
  }

  lemma {:induction false} SpacesStayKnown(cells: seq<Cell>)
    requires SpacesKnown(cells)
    ensures forall i :: 0 <= i < |Segments(cells)| ==> SpacesKnown(Segments(cells)[i])
  {
    forall i | 0 <= i < |Segments(cells)| ensures SpacesKnown(Segments(cells)[i]) {
      forall j | 0 <= j < |Segments(cells)[i]| ensures Segments(cells)[i][j] in cells {
        SegmentCells(cells, Segments(cells)[i], j);
      }
    }
  }

  /** For plain texts the server runs exactly the statements the splitter returns. */
  lemma {:induction false} PlainTextsAgree(sql: string)
    requires Plain(sql)
    ensures ServerStatements(sql) == AsSent(SplitTexts(sql))
  {
    var tokens := Lex(Tagged(sql), Code);
    OnePass(Tagged(sql), Code, false, false);
    PlainCuts(Tagged(sql), Code);
    PiecesAreSegments(tokens);
    var segs := Segments(Cleaned(sql));
    EndIsBlank(Pieces(tokens), segs);
    var used := StripEnd(Pieces(tokens));
    SpacesStayKnown(Cleaned(sql));
    SameUsed(used, segs[..|used|]);
  }

  // --- texts on which they differ ------------------------------------------

  /** Code without quotes, comment signs and semicolons. */
  predicate OrdinaryChar(c: char) { !IsQuoteMark(c) && c != '#' && c != ';' && c != '-' && c != '/' }

  predicate Ordinary(s: string) { forall i :: 0 <= i < |s| ==> OrdinaryChar(s[i]) }

  function KeepAll(cells: seq<Cell>): (tokens: seq<Token>)
    ensures |tokens| == |cells| && forall i :: 0 <= i < |cells| ==> tokens[i] == Kept(cells[i])
  {
    seq(|cells|, i requires 0 <= i < |cells| => Kept(cells[i]))
  }

  lemma {:induction false} OneOrdinary(cells: seq<Cell>)
    requires cells != [] && OrdinaryChar(cells[0].ch)
    ensures Lex(cells, Code) == [Kept(cells[0])] + Lex(cells[1..], Code)
  {
  }

  lemma {:induction false} KeepOneMore(cells: seq<Cell>, n: nat, rest: seq<Token>)
    requires 0 < n <= |cells|
    ensures [Kept(cells[0])] + (KeepAll(cells[1..][..n - 1]) + rest) == KeepAll(cells[..n]) + rest
  {
    assert KeepAll(cells[..n]) == [Kept(cells[0])] + KeepAll(cells[1..][..n - 1]);
  }

  lemma {:induction false} OrdinaryKept(cells: seq<Cell>, n: nat)
    requires n <= |cells| && forall i :: 0 <= i < n ==> OrdinaryChar(cells[i].ch)
    ensures Lex(cells, Code) == KeepAll(cells[..n]) + Lex(cells[n..], Code)
    decreases n
  {
    if n == 0 {
      assert cells[0..] == cells;
    } else {
      assert cells[1..][n - 1..] == cells[n..];
      OneOrdinary(cells);
      OrdinaryKept(cells[1..], n - 1);
      KeepOneMore(cells, n, Lex(cells[n..], Code));
    }
  }

  lemma {:induction false} KeptText(cells: seq<Cell>)
    ensures TextCells(KeepAll(cells)) == cells && Pieces(KeepAll(cells)) == [KeepAll(cells)]
  {
    if cells == [] {
    } else {
      var n := |cells| - 1;
      KeptText(cells[..n]);
      assert KeepAll(cells) == KeepAll(cells[..n]) + [Kept(cells[n])];
      PiecesStep(KeepAll(cells[..n]), Kept(cells[n]));
      TextCellsAppend(KeepAll(cells[..n]), [Kept(cells[n])]);
      TextOfOne(Kept(cells[n]));
      assert cells == cells[..n] + [cells[n]];
    }
  }

  lemma {:induction false} OrdinaryPlain(cells: seq<Cell>)
    requires forall i :: 0 <= i < |cells| ==> OrdinaryChar(cells[i].ch)
    ensures PlainFrom(cells, Code)
    decreases |cells|
  {
    if cells == [] {
    } else {
      OrdinaryPlain(cells[1..]);
    }
  }

  lemma {:induction false} OnePiece(piece: seq<Token>)
    requires !ServerBlank(PieceText(piece))
    ensures StripEnd([piece]) == [piece]
    ensures SentBy([piece][..0]) + SentLast(piece) == [Statement(ServerTrim(PieceText(piece)))]
  {
    assert [piece][..0] == [];
  }

  lemma {:induction false} OrdinaryIsKept(cells: seq<Cell>)
    requires forall i :: 0 <= i < |cells| ==> OrdinaryChar(cells[i].ch)
    ensures Lex(cells, Code) == KeepAll(cells)
    ensures DropBoth(BlankBlockComments(cells), false, false) == cells
  {
    OrdinaryPlain(cells);
    OrdinaryKept(cells, |cells|);
    assert cells[..|cells|] == cells && Lex(cells[|cells|..], Code) == [];
    KeptText(cells);
    OnePass(cells, Code, false, false);
  }

  lemma {:induction false} TaggedSpaces(sql: string)
    requires forall i :: 0 <= i < |sql| && IsSpace(sql[i]) ==> ServerSpace(sql[i])
    ensures SpacesKnown(Tagged(sql))
  {
  }

  /** Plain texts exist: every ordinary one that is not blank, with the server's white space only. */
  lemma {:induction false} OrdinaryIsPlain(sql: string)
    requires Ordinary(sql) && !ServerBlank(sql)
    requires forall i :: 0 <= i < |sql| && IsSpace(sql[i]) ==> ServerSpace(sql[i])
    ensures Plain(sql)
  {
    var cells := Tagged(sql);
    OrdinaryPlain(cells);
    OrdinaryIsKept(cells);
    TaggedSpaces(sql);
    KeptText(cells);
    assert PieceText(KeepAll(cells)) == sql;
    OnePiece(KeepAll(cells));
  }

  lemma {:induction false} FrontKeeps(s: string, i: nat)
    requires i < |s| && !ServerSpace(s[i])
    ensures s[i] in TrimFront(s)
  {
    if ServerSpace(s[0]) {
      FrontKeeps(s[1..], i - 1);
    }
  }

  lemma {:induction false} BackKeeps(s: string, i: nat)
    requires i < |s| && !ServerSpace(s[i])
    ensures s[i] in TrimBack(s)
  {
    if ServerSpace(s[|s| - 1]) {
      BackKeeps(s[..|s| - 1], i);
    }
  }

  lemma {:induction false} TrimKeeps(s: string, i: nat)
    requires i < |s| && !ServerSpace(s[i])
    ensures s[i] in ServerTrim(s)
  {
    FrontKeeps(s, i);
    var front := TrimFront(s);
    var j :| 0 <= j < |front| && front[j] == s[i];
    BackKeeps(front, j);
  }

  /** A text without comments and separators is one statement. */
  lemma {:induction false} OneStatement(sql: string, i: nat)
    requires Lex(Tagged(sql), Code) == KeepAll(Tagged(sql)) && i < |sql| && !ServerSpace(sql[i])
    ensures ServerStatements(sql) == [Statement(ServerTrim(sql))] && sql[i] in ServerTrim(sql)
  {
    var piece := KeepAll(Tagged(sql));
    KeptText(Tagged(sql));
    assert PieceText(piece) == sql;
    TrimKeeps(sql, i);
    OnePiece(piece);
  }

  /** The splitter's texts are made of what cleaning leaves. */
  lemma {:induction false} SplitCharsLeft(cells: seq<Cell>, segs: seq<seq<Cell>>, c: char)
    requires forall seg :: seg in segs ==> seg in Segments(cells)
    requires c !in Chars(cells)
    ensures forall text :: text in TextsBy(segs) ==> c !in text
  {
    if segs == [] {
    } else {
      var n := |segs| - 1;
      SplitCharsLeft(cells, segs[..n], c);
      forall i | 0 <= i < |segs[n]| ensures segs[n][i].ch != c {
        SegmentCells(cells, segs[n], i);
        var k :| 0 <= k < |cells| && cells[k] == segs[n][i];
        assert Chars(cells)[k] == cells[k].ch;
      }
      assert c !in Chars(segs[n]);
    }
  }

  /** A character the server keeps and cleaning loses tells the two readings apart. */
  lemma {:induction false} LostCharacter(sql: string, i: nat)
    requires Lex(Tagged(sql), Code) == KeepAll(Tagged(sql)) && i < |sql| && !ServerSpace(sql[i])
    requires sql[i] !in Chars(Cleaned(sql))
    ensures ServerStatements(sql) != AsSent(SplitTexts(sql))
  {
    OneStatement(sql, i);
    SplitCharsLeft(Cleaned(sql), Segments(Cleaned(sql)), sql[i]);
    assert SplitTexts(sql) != [] ==> SplitTexts(sql)[0] in SplitTexts(sql);
    assert |AsSent(SplitTexts(sql))| == |SplitTexts(sql)|;
  }

  lemma {:induction false} OrdinaryThen(pre: string, tail: string)
    requires Ordinary(pre)
    ensures var cells := Tagged(pre + tail);
      && Chars(cells[|pre|..]) == tail
      && (forall i :: 0 <= i < |pre| ==> OrdinaryChar(cells[i].ch))
      && (Lex(cells[|pre|..], Code) == KeepAll(cells[|pre|..]) ==> Lex(cells, Code) == KeepAll(cells))
  {
    var cells := Tagged(pre + tail);
    assert forall i :: 0 <= i < |pre| ==> cells[i].ch == pre[i];
    OrdinaryKept(cells, |pre|);
    assert KeepAll(cells) == KeepAll(cells[..|pre|]) + KeepAll(cells[|pre|..]);
  }

  lemma {:induction false} HashTail(rest: seq<Cell>)
    requires Chars(rest) == "'#'"
    ensures Lex(rest, Code) == KeepAll(rest)
  {
    assert Chars(rest)[0] == '\'' && Chars(rest)[1] == '#' && Chars(rest)[2] == '\'';
    assert Lex(rest[3..], Code) == [];
    assert rest[1..][1..] == rest[2..] && rest[2..][1..] == rest[3..];
    assert Lex(rest[2..], Literal('\'')) == [Kept(rest[2])];
    assert Lex(rest[1..], Literal('\'')) == [Kept(rest[1]), Kept(rest[2])];
  }

  /** A hash sign inside a string, as in `INSERT INTO t VALUES ('C#'`. */
  lemma {:induction false} HashInString(pre: string)
    requires Ordinary(pre)
    ensures ServerStatements(pre + "'#'") != AsSent(SplitTexts(pre + "'#'"))
  {
    var sql := pre + "'#'";
    OrdinaryThen(pre, "'#'");
    HashTail(Tagged(sql)[|pre|..]);
    LineCommentsGone(sql);
    LostCharacter(sql, |pre| + 1);
  }

  lemma {:induction false} MinusTail(rest: seq<Cell>)
    requires Chars(rest) == "--9"
    ensures Lex(rest, Code) == KeepAll(rest)
  {
    assert Chars(rest)[0] == '-' && Chars(rest)[1] == '-' && Chars(rest)[2] == '9';
    assert rest[1..][1..] == rest[2..] && rest[2..][1..] == [];
    assert Lex(rest[2..], Code) == [Kept(rest[2])];
    assert Lex(rest[1..], Code) == [Kept(rest[1]), Kept(rest[2])];
  }

  lemma {:induction false} NoSlashNoBlock(cells: seq<Cell>)
    requires forall c :: c in cells ==> c.ch != '/'
    ensures BlankBlockComments(cells) == cells
    decreases |cells|
  {
    if cells == [] {
    } else {
      NoSlashNoBlock(cells[1..]);
    }
  }

  lemma {:induction false} DashesDropped(cells: seq<Cell>, n: nat)
    requires n <= |cells| && (forall i :: 0 <= i < n ==> OrdinaryChar(cells[i].ch)) && Chars(cells[n..]) == "--9"
    ensures DropBoth(BlankBlockComments(cells), false, false) == cells[..n]
  {
    var pre, rest := cells[..n], cells[n..];
    assert cells == pre + rest;
    assert forall i :: 0 <= i < 3 ==> Chars(rest)[i] == rest[i].ch;
    NoSlashNoBlock(cells);
    OthersPass(pre, rest, Dashes);
    assert rest[1..][1..] == rest[2..] && rest[2..][1..] == [];
    assert DropLineComments(rest[2..], Dashes, true) == [];
    assert DropLineComments(rest[1..], Dashes, true) == [];
    OthersPass(pre, [], Hash);
    assert pre + [] == pre;
  }

  /** Two dashes in an expression, as in `DELETE FROM t WHERE n > 5--9`. */
  lemma {:induction false} DoubleMinus(pre: string)
    requires Ordinary(pre) && '9' !in pre
    ensures ServerStatements(pre + "--9") != AsSent(SplitTexts(pre + "--9"))
  {
    var sql := pre + "--9";
    var cells := Tagged(sql);
    OrdinaryThen(pre, "--9");
    MinusTail(cells[|pre|..]);
    DashesDropped(cells, |pre|);
    assert Chars(cells[..|pre|]) == pre;
    LostCharacter(sql, |pre| + 2);
  }
}
