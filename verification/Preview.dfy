/** What a preview says about an apply: from the text of one file, and for a list of files. */
module Preview {
  import opened Common
  import opened SqlAnalyzer
  import opened TargetDb
  import opened Backup
  import opened Rollback
  import opened Apply
  import opened DryRun
  import Splitter = SqlSplitter
  import opened SqlServer

  // --- later files ---------------------------------------------------------

  ghost predicate AgreeOn(d: Db, d': Db, tables: set<string>) {
    forall t :: t in tables ==> SameAt(d, d', t)
  }

  /** Tables a statement changes rows of. */
  function Writes(e: Effect): set<string> {
    if e.WriteRows? then {e.table} else if e.WriteTables? then e.tables else {}
  }

  /** In these two states the statement finds the same. */
  predicate SameRun(e: Effect, d: Db, d': Db) {
    match e
    case ReadOnly(ok) => ok(d) == ok(d')
    case WriteRows(_, run) => run(d) == run(d')
    case WriteTables(_, runAll) => runAll(d) == runAll(d')
    case _ => true
  }

  /** Reads rows, or changes rows of `tables`, depending on nothing but those tables. */
  ghost predicate LocalTo(e: Effect, tables: set<string>) {
    && StaysInTransaction(e) && Writes(e) <= tables
    && forall d, d' :: AgreeOn(d, d', tables) ==> SameRun(e, d, d')
  }

  ghost predicate AllLocalTo(effects: seq<Effect>, tables: set<string>) {
    forall e :: e in effects ==> LocalTo(e, tables)
  }

  /** Reads rows, or changes rows of tables in `tables` only. */
  ghost predicate WritesOnly(effects: seq<Effect>, tables: set<string>) {
    forall e :: e in effects ==> StaysInTransaction(e) && Writes(e) <= tables
  }

  lemma {:induction false} OneLocal(e: Effect, d: Db, d': Db, tables: set<string>)
    requires LocalTo(e, tables) && AgreeOn(d, d', tables)
    ensures var a, b := QueryConn(Conn(d, None), e), QueryConn(Conn(d', None), e);
      a.affected == b.affected && a.conn.working.None? && b.conn.working.None?
      && AgreeOn(a.conn.committed, b.conn.committed, tables)
  {
    assert SameRun(e, d, d');
    assert forall t :: t in Writes(e) ==> SameAt(d, d', t);
  }

  /** From states that agree on what they use, the statements report the same. */
  lemma {:induction false} LocalRun(effects: seq<Effect>, d: Db, d': Db, tables: set<string>)
    requires AllLocalTo(effects, tables) && AgreeOn(d, d', tables)
    ensures QueryAll(Conn(d, None), effects).affected == QueryAll(Conn(d', None), effects).affected
    decreases |effects|
  {
    if effects == [] {
    } else {
      assert LocalTo(effects[0], tables);
      OneLocal(effects[0], d, d', tables);
      var a, b := QueryConn(Conn(d, None), effects[0]), QueryConn(Conn(d', None), effects[0]);
      if a.affected.Some? {
        LocalRun(effects[1..], a.conn.committed, b.conn.committed, tables);
      }
    }
  }

  lemma {:induction false} WritesKeep(effects: seq<Effect>, d: Db, written: set<string>, tables: set<string>)
    requires WritesOnly(effects, written) && written !! tables
    ensures var c := QueryAll(Conn(d, None), effects).conn; c.working.None? && AgreeOn(d, c.committed, tables)
    decreases |effects|
  {
    if effects == [] {
    } else {
      var e := effects[0];
      assert StaysInTransaction(e) && Writes(e) !! tables;
      var a := QueryConn(Conn(d, None), e);
      assert AgreeOn(d, a.conn.committed, tables);
      if a.affected.Some? {
        WritesKeep(effects[1..], a.conn.committed, written, tables);
      }
    }
  }

  /** Previewing `later` from the start says what running it after `earlier` says. */
  ghost predicate PredictedFrom(db: Db, earlier: seq<Effect>, later: seq<Effect>) {
    var before := QueryAll(Conn(db, None), earlier);
    before.affected.Some? ==> QueryAll(before.conn, later).affected == QueryAll(Conn(db, None), later).affected
  }

  ghost predicate AlwaysPredicted(written: set<string>, used: set<string>) {
    forall db: Db, earlier, later ::
      WritesOnly(earlier, written) && AllLocalTo(later, used) ==> PredictedFrom(db, earlier, later)
  }

  function InsertInto(t: string, row: Cells): Effect {
    WriteRows(t, (d: Db) => if t in d then Some(Written(d[t].rows + multiset{row}, 1)) else None)
  }

  function DeleteFrom(t: string): Effect {
    WriteRows(t, (d: Db) => if t in d then Some(Written(multiset{}, |d[t].rows|)) else None)
  }

  function Anything(): Structure { Structure([], _ => true, (_, rows) => Some(rows)) }

  lemma {:induction false} OneQuery(c: Conn, e: Effect)
    ensures QueryAll(c, [e]) == QueryConn(c, e)
  {
    assert QueryAll(QueryConn(c, e).conn, [e][1..]) == Answer(QueryConn(c, e).conn, Some(0));
  }

  /**
   * Every file is previewed from the target as it is now: here the second file deletes the
   * row the first one inserts, and the preview says no rows.
   */
  lemma {:induction false} SecondFileIsNotPredicted(t: string, row: Cells)
    ensures var db: Db := map[t := Table(Anything(), multiset{})];
            var before := QueryAll(Conn(db, None), [InsertInto(t, row)]);
      && before.affected == Some(1)
      && QueryAll(before.conn, [DeleteFrom(t)]).affected == Some(1)
      && QueryAll(Conn(db, None), [DeleteFrom(t)]).affected == Some(0)
  {
    var db: Db := map[t := Table(Anything(), multiset{})];
    OneQuery(Conn(db, None), InsertInto(t, row));
    OneQuery(Conn(db, None), DeleteFrom(t));
    OneQuery(QueryConn(Conn(db, None), InsertInto(t, row)).conn, DeleteFrom(t));
  }

  lemma {:induction false} DeleteIsLocal(t: string, used: set<string>)
    requires t in used
    ensures AllLocalTo([DeleteFrom(t)], used)
  {
    forall d, d' | AgreeOn(d, d', used) ensures SameRun(DeleteFrom(t), d, d') {
      assert SameAt(d, d', t);
    }
  }

  /**
   * The preview of a later file is right whatever the statements do exactly when no earlier file writes
   * what it uses.
   */
  lemma {:induction false} LaterFileExactly(written: set<string>, used: set<string>)
    ensures AlwaysPredicted(written, used) <==> written !! used
  {
    if written !! used {
      forall db: Db, earlier, later | WritesOnly(earlier, written) && AllLocalTo(later, used)
        ensures PredictedFrom(db, earlier, later)
      {
        WritesKeep(earlier, db, written, used);
        LocalRun(later, db, QueryAll(Conn(db, None), earlier).conn.committed, used);
      }
    } else {
      var t :| t in written && t in used;
      SecondFileIsNotPredicted(t, []);
      DeleteIsLocal(t, used);
      var db: Db := map[t := Table(Anything(), multiset{})];
      assert WritesOnly([InsertInto(t, [])], written) && !PredictedFrom(db, [InsertInto(t, [])], [DeleteFrom(t)]);
    }
  }

  // --- the steps of an apply -----------------------------------------------

  /** The step of a file that is reached reports what its text does after the files before it. */
  lemma {:induction false} StepOfFile(c: Conn, files: seq<File>, i: nat, k: nat)
    requires i <= k < |files| && k - i < |RunFilesFrom(c, files, i).steps|
    ensures QueryAll(c, AllSent(files[i..k])).affected.Some?
    ensures RunFilesFrom(c, files, i).steps[k - i].rowsAffected
         == QueryAll(QueryAll(c, AllSent(files[i..k])).conn, files[k].sent).affected
    decreases k - i
  {
    if i < k {
      var a := QueryAll(c, files[i].sent);
      StepOfFile(a.conn, files, i + 1, k);
      assert files[i..k][1..] == files[i + 1..k];
      QueryAllAppend(c, files[i].sent, AllSent(files[i + 1..k]));
    } else {
      assert files[i..k] == [];
    }
  }

  /**
   * For a file whose text uses no table an earlier file writes, the preview of the request
   * already says what the step of that file will report, if the apply gets there.
   */
  lemma {:induction false} LaterFilePredicted(db: Db, files: seq<File>, k: nat, written: set<string>, used: set<string>)
    requires k < |files| && k < |RunFilesFrom(Conn(db, None), files, 0).steps|
    requires WritesOnly(AllSent(files[..k]), written) && AllLocalTo(files[k].sent, used) && written !! used
    requires PureDml(files[k].stmts) && Faithful(files[k]) && forall s :: s in files[k].stmts ==> ClassifiedSoundly(s)
    ensures RunFilesFrom(Conn(db, None), files, 0).steps[k].rowsAffected
         == DryRunResult(Conn(db, None), files[k]).affected
  {
    StepOfFile(Conn(db, None), files, 0, k);
    assert files[0..k] == files[..k];
    LaterFileExactly(written, used);
    assert PredictedFrom(db, AllSent(files[..k]), files[k].sent);
    DryRunPredictsApply(db, files[k]);
  }

  // --- from the text -------------------------------------------------------

  function EffectOf(s: Sent, meaning: string -> Effect): Effect {
    match s
    case Statement(text) => meaning(text)
    case EmptyQuery => ReadOnly(_ => false)
  }

  function EffectsOf(sent: seq<Sent>, meaning: string -> Effect): (effects: seq<Effect>)
    ensures |effects| == |sent| && forall i :: 0 <= i < |sent| ==> effects[i] == EffectOf(sent[i], meaning)
  {
    seq(|sent|, i requires 0 <= i < |sent| => EffectOf(sent[i], meaning))
  }

  function StmtsOf(raws: seq<Splitter.RawStatement>, analyze: (string, nat) -> AnalyzedStatement,
                   meaning: string -> Effect)
    : (stmts: seq<Stmt>)
    ensures |stmts| == |raws|
    ensures forall i :: 0 <= i < |raws| ==>
      stmts[i] == Stmt(analyze(raws[i].raw, raws[i].line), meaning(raws[i].raw))
  {
    seq(|raws|, i requires 0 <= i < |raws| => Stmt(analyze(raws[i].raw, raws[i].line), meaning(raws[i].raw)))
  }

  /** A file with this text: sent whole by the apply, cut into statements by the preview. */
  function FileOf(sql: string, analyze: (string, nat) -> AnalyzedStatement, meaning: string -> Effect): File {
    File("1.sql", 1, EffectsOf(ServerStatements(sql), meaning), StmtsOf(Splitter.Statements(sql), analyze, meaning))
  }

  ghost predicate AllDml(sql: string, analyze: (string, nat) -> AnalyzedStatement) {
    forall r :: r in Splitter.Statements(sql) ==> analyze(r.raw, r.line).kind in {Insert, Update, Delete}
  }

  /** The preview of the file reports what applying it from the same state reports. */
  ghost predicate TextPredicted(db: Db, sql: string, analyze: (string, nat) -> AnalyzedStatement,
                                meaning: string -> Effect) {
    DryRunResult(Conn(db, None), FileOf(sql, analyze, meaning)).affected
    == QueryAll(Conn(db, None), FileOf(sql, analyze, meaning).sent).affected
  }

  /** The preview runs the texts the splitter returns. */
  lemma {:induction false} PreviewRunsSplit(db: Db, sql: string, analyze: (string, nat) -> AnalyzedStatement,
                                            meaning: string -> Effect)
    requires AllDml(sql, analyze) && forall text :: StaysInTransaction(meaning(text))
    ensures DryRunResult(Conn(db, None), FileOf(sql, analyze, meaning)).affected
         == QueryAll(Conn(db, None), EffectsOf(AsSent(SplitTexts(sql)), meaning)).affected
  {
    var raws := Splitter.Statements(sql);
    var stmts := StmtsOf(raws, analyze, meaning);
    SplitTextsAre(sql);
    forall s | s in stmts ensures s.info.kind in {Insert, Update, Delete} && ClassifiedSoundly(s) {
      var i :| 0 <= i < |stmts| && stmts[i] == s;
      assert raws[i] in raws;
    }
    DryRunPredictsApply(db, File("1.sql", 1, EffectsOf(AsSent(SplitTexts(sql)), meaning), stmts));
  }

  /** Adds a row to the table, except when it is the statement `text` and the table has `k` rows. */
  function Counting(text: string, k: nat): string -> Effect {
    (x: string) => WriteRows("t", (d: Db) =>
      if "t" !in d || (x == text && |d["t"].rows| == k) then None else Some(Written(d["t"].rows + multiset{[]}, 1)))
  }

  predicate Stops(s: Sent, text: string, hit: bool) { s == EmptyQuery || (s == Statement(text) && hit) }

  /** Some statement fails, from a table with `n` rows. */
  predicate Halts(sent: seq<Sent>, text: string, k: nat, n: nat) {
    sent != [] && (Stops(sent[0], text, n == k) || Halts(sent[1..], text, k, n + 1))
  }

  lemma {:induction false} HaltsExact(sent: seq<Sent>, text: string, k: nat, n: nat)
    ensures Halts(sent, text, k, n) <==> exists i :: 0 <= i < |sent| && Stops(sent[i], text, n + i == k)
  {
    if sent == [] {
    } else {
      var rest := sent[1..];
      HaltsExact(rest, text, k, n + 1);
      if i :| 0 <= i < |rest| && Stops(rest[i], text, n + 1 + i == k) {
        assert Stops(sent[i + 1], text, n + (i + 1) == k);
      }
      if i :| 0 < i < |sent| && Stops(sent[i], text, n + i == k) {
        assert Stops(rest[i - 1], text, n + 1 + (i - 1) == k);
      }
      assert Stops(sent[0], text, n == k) ==> Stops(sent[0], text, n + 0 == k);
    }
  }

  function Rows(rows: multiset<Cells>): Db { map["t" := Table(Anything(), rows)] }

  lemma {:induction false} CountingStep(s: Sent, text: string, k: nat, rows: multiset<Cells>)
    ensures var a := QueryConn(Conn(Rows(rows), None), EffectOf(s, Counting(text, k)));
      if Stops(s, text, |rows| == k) then a.affected.None?
      else a == Answer(Conn(Rows(rows + multiset{[]}), None), Some(1))
  {
    var db := Rows(rows);
    assert db["t" := Table(Anything(), rows + multiset{[]})] == Rows(rows + multiset{[]});
  }

  lemma {:induction false} CountingRun(sent: seq<Sent>, text: string, k: nat, rows: multiset<Cells>)
    ensures QueryAll(Conn(Rows(rows), None), EffectsOf(sent, Counting(text, k))).affected
         == if Halts(sent, text, k, |rows|) then None else Some(|sent|)
    decreases |sent|
  {
    if sent == [] {
    } else {
      assert EffectsOf(sent, Counting(text, k))[1..] == EffectsOf(sent[1..], Counting(text, k));
      CountingStep(sent[0], text, k, rows);
      CountingRun(sent[1..], text, k, rows + multiset{[]});
    }
  }

  lemma {:induction false} CountingResult(sent: seq<Sent>, text: string, k: nat)
    ensures QueryAll(Conn(Rows(multiset{}), None), EffectsOf(sent, Counting(text, k))).affected
         == if exists i :: 0 <= i < |sent| && Stops(sent[i], text, 0 + i == k) then None else Some(|sent|)
  {
    HaltsExact(sent, text, k, 0);
    CountingRun(sent, text, k, multiset{});
  }

  /** Different texts can be told apart by what they do. */
  lemma {:induction false} Telling(split: seq<Sent>, sent: seq<Sent>) returns (text: string, k: nat)
    requires split != sent && EmptyQuery !in split
    ensures var db := Rows(multiset{});
      QueryAll(Conn(db, None), EffectsOf(split, Counting(text, k))).affected
      != QueryAll(Conn(db, None), EffectsOf(sent, Counting(text, k))).affected
  {
    if |split| == |sent| && EmptyQuery !in sent {
      k :| 0 <= k < |split| && split[k] != sent[k];
      assert split[k] in split;
      text := split[k].text;
      assert Stops(split[k], text, 0 + k == k);
    } else {
      text, k := "", |split| + |sent|;
      if EmptyQuery in sent {
        var i :| 0 <= i < |sent| && sent[i] == EmptyQuery;
        assert Stops(sent[i], text, 0 + i == k);
      }
    }
    CountingResult(split, text, k);
    CountingResult(sent, text, k);
  }

  /**
   * The preview of a file of INSERT, UPDATE and DELETE is right, whatever these statements do
   * to which rows, exactly when the server cuts the text as the splitter does.
   */
  lemma {:induction false} TextPredictedExactly(sql: string, analyze: (string, nat) -> AnalyzedStatement)
    requires AllDml(sql, analyze)
    ensures (forall db: Db, meaning: string -> Effect :: (forall text :: StaysInTransaction(meaning(text))) ==>
               TextPredicted(db, sql, analyze, meaning))
       <==> ServerStatements(sql) == AsSent(SplitTexts(sql))
  {
    var split := AsSent(SplitTexts(sql));
    if ServerStatements(sql) == split {
      forall db: Db, meaning: string -> Effect | forall text :: StaysInTransaction(meaning(text))
        ensures TextPredicted(db, sql, analyze, meaning)
      {
        PreviewRunsSplit(db, sql, analyze, meaning);
      }
    } else {
      var text, k := Telling(split, ServerStatements(sql));
      var db := Rows(multiset{});
      PreviewRunsSplit(db, sql, analyze, Counting(text, k));
      assert !TextPredicted(db, sql, analyze, Counting(text, k));
    }
  }

  /** So plain text is enough. */
  lemma {:induction false} PlainTextPredicted(db: Db, sql: string, analyze: (string, nat) -> AnalyzedStatement,
                                              meaning: string -> Effect)
    requires Plain(sql) && AllDml(sql, analyze) && forall text :: StaysInTransaction(meaning(text))
    ensures TextPredicted(db, sql, analyze, meaning)
  {
    PlainTextsAgree(sql);
    TextPredictedExactly(sql, analyze);
  }
}
