/** Previewing a change request: data statements in a transaction that is always rolled back. */
module DryRun {
  import opened Common
  import opened SqlAnalyzer
  import opened TargetDb
  import opened Backup

  datatype Mode = DmlTxRollback | DdlStatic

  /** `affected` is absent for DDL files and for files whose dry-run hit an error. */
  datatype FileResult = FileResult(filename: string, mode: Mode, affected: Option<nat>, destructive: bool, error: bool)

  predicate IsDestructive(s: AnalyzedStatement) {
    || s.kind in {DropTable, DropDatabase, Truncate}
    || (s.kind == AlterTable && s.alterDropColumn)
    || ((s.kind == Delete || s.kind == Update) && !s.hasWhere)
  }

  predicate Skipped(s: Stmt) { s.info.kind == Select || s.info.kind == Other }

  predicate HasDdl(stmts: seq<Stmt>) { exists s :: s in Infos(stmts) && IsDdl(s) }

  predicate HasDestructive(stmts: seq<Stmt>) { exists s :: s in Infos(stmts) && IsDestructive(s) }

  /** What the analyzer calls INSERT, UPDATE or DELETE leaves transactions alone. */
  predicate ClassifiedSoundly(s: Stmt) {
    s.info.kind in {Insert, Update, Delete} ==> StaysInTransaction(s.effect)
  }

  /** The statements dry-run executes, run one by one; stops at the first error. */
  function QueryUnskipped(c: Conn, stmts: seq<Stmt>): Answer
    decreases |stmts|
  {
    if stmts == [] then Answer(c, Some(0))
    else if Skipped(stmts[0]) then QueryUnskipped(c, stmts[1..])
    else
      var a := QueryConn(c, stmts[0].effect);
      if a.affected.None? then a else Combine(a.affected.value, QueryUnskipped(a.conn, stmts[1..]))
  }

  function DryRunResult(c: Conn, file: File): FileResult {
    var destructive := HasDestructive(file.stmts);
    if HasDdl(file.stmts) then FileResult(file.filename, DdlStatic, None, destructive, false)
    else
      var a := QueryUnskipped(Begin(c), file.stmts);
      FileResult(file.filename, DmlTxRollback, a.affected, destructive, a.affected.None?)
  }

  /** A statement that changes the schema. */
  predicate ChangesSchema(s: Stmt) {
    || s.info.kind in {CreateTable, DropTable, Truncate, AlterTable}
    || s.info.kind in {CreateDatabase, DropDatabase, CreateIndex, DropIndex}
  }

  /** A statement that loses a table, a column, or every row. */
  predicate LosesData(s: Stmt) {
    || s.info.kind in {DropTable, DropDatabase, Truncate}
    || (s.info.kind == AlterTable && s.info.alterDropColumn)
    || (s.info.kind in {Delete, Update} && !s.info.hasWhere)
  }

  /** What a preview says of its file. */
  ghost predicate FlaggedAsIs(r: FileResult, file: File) {
    && r.filename == file.filename
    && (r.mode == DdlStatic <==> exists s :: s in file.stmts && ChangesSchema(s))
    && (r.destructive <==> exists s :: s in file.stmts && LosesData(s))
    && (r.mode == DdlStatic ==> r.affected.None? && !r.error)
    && (r.mode == DmlTxRollback ==> (r.error <==> r.affected.None?))
  }

  lemma {:induction false} HasDdlExact(stmts: seq<Stmt>)
    ensures HasDdl(stmts) <==> exists s :: s in stmts && ChangesSchema(s)
  {
    forall s | s in stmts && ChangesSchema(s) ensures HasDdl(stmts) {
      var k :| 0 <= k < |stmts| && stmts[k] == s;
      assert Infos(stmts)[k] in Infos(stmts) && IsDdl(Infos(stmts)[k]);
    }
    if HasDdl(stmts) {
      var k :| 0 <= k < |stmts| && IsDdl(Infos(stmts)[k]);
      assert stmts[k] in stmts && ChangesSchema(stmts[k]);
    }
  }

  lemma {:induction false} HasDestructiveExact(stmts: seq<Stmt>)
    ensures HasDestructive(stmts) <==> exists s :: s in stmts && LosesData(s)
  {
    forall s | s in stmts && LosesData(s) ensures HasDestructive(stmts) {
      var k :| 0 <= k < |stmts| && stmts[k] == s;
      assert Infos(stmts)[k] in Infos(stmts) && IsDestructive(Infos(stmts)[k]);
    }
    if HasDestructive(stmts) {
      var k :| 0 <= k < |stmts| && IsDestructive(Infos(stmts)[k]);
      assert stmts[k] in stmts && LosesData(stmts[k]);
    }
  }

  lemma {:induction false} FlagsExact(c: Conn, file: File)
    ensures FlaggedAsIs(DryRunResult(c, file), file)
  {
    HasDdlExact(file.stmts);
    HasDestructiveExact(file.stmts);
  }

  method RunUnskipped(connection: Connection, stmts: seq<Stmt>) returns (affected: Option<nat>)
    modifies connection, connection.server
    ensures var a := QueryUnskipped(old(connection.State()), stmts);
      connection.State() == a.conn && affected == a.affected
  {
    var affectedRows: nat := 0;
    for i := 0 to |stmts|
      invariant var a := QueryUnskipped(connection.State(), stmts[i..]);
        QueryUnskipped(old(connection.State()), stmts)
        == Answer(a.conn, if a.affected.None? then None else Some(affectedRows + a.affected.value))
    {
      assert stmts[i..][1..] == stmts[i + 1..];
      if !Skipped(stmts[i]) {
        var r := connection.Query(stmts[i].effect);
        if r.None? {
          return None;
        }
        affectedRows := affectedRows + r.value;
      }
    }
    affected := Some(affectedRows);
  }

  /** Statements that leave transactions alone never touch the committed state while one is open. */
  lemma {:induction false} DmlStaysInTransaction(c: Conn, stmts: seq<Stmt>)
    requires c.working.Some?
    requires forall s :: s in stmts ==> ClassifiedSoundly(s) && !IsDdl(s.info)
    ensures var a := QueryUnskipped(c, stmts); a.conn.committed == c.committed && a.conn.working.Some?
    decreases |stmts|
  {
    if stmts == [] {
    } else {
      assert ClassifiedSoundly(stmts[0]) && !IsDdl(stmts[0].info);
      if Skipped(stmts[0]) {
        DmlStaysInTransaction(c, stmts[1..]);
      } else {
        var a := QueryConn(c, stmts[0].effect);
        if a.affected.Some? {
          DmlStaysInTransaction(a.conn, stmts[1..]);
        }
      }
    }
  }

  /** Runs the dry-run of one file; the committed state of the target does not change. */
  method DryRunFile(connection: Connection, file: File) returns (r: FileResult)
    requires connection.working.None?
    requires forall s :: s in file.stmts ==> ClassifiedSoundly(s)
    modifies connection, connection.server
    ensures connection.State() == old(connection.State())
    ensures r == DryRunResult(old(connection.State()), file)
    ensures FlaggedAsIs(r, file)
  {
    FlagsExact(connection.State(), file);
    var destructive := HasDestructive(file.stmts);
    if HasDdl(file.stmts) {
      return FileResult(file.filename, DdlStatic, None, destructive, false);
    }
    assert forall i :: 0 <= i < |file.stmts| ==> Infos(file.stmts)[i] in Infos(file.stmts);
    DmlStaysInTransaction(Begin(connection.State()), file.stmts);
    connection.BeginTransaction();
    var affected := RunUnskipped(connection, file.stmts);
    connection.Rollback();
    r := FileResult(file.filename, DmlTxRollback, affected, destructive, affected.None?);
  }

  ghost predicate PureDml(stmts: seq<Stmt>) {
    forall s :: s in stmts ==> s.info.kind in {Insert, Update, Delete}
  }

  /** The statements as the analyzer cut them do what the text does when it is sent whole. */
  ghost predicate Faithful(file: File) {
    |file.sent| == |file.stmts| && forall i :: 0 <= i < |file.stmts| ==> file.sent[i] == file.stmts[i].effect
  }

  lemma {:induction false} SameStep(c: Conn, d: Conn, e: Effect)
    requires StaysInTransaction(e) && c.working.Some? && d.working.None? && c.working.value == d.committed
    ensures var a, b := QueryConn(c, e), QueryConn(d, e);
      a.affected == b.affected
      && a.conn.working.Some? && b.conn.working.None? && a.conn.working.value == b.conn.committed
  {
  }

  /** Inside a transaction or committing one by one, they report the same counts and errors. */
  lemma {:induction false} SameInTransaction(c: Conn, d: Conn, stmts: seq<Stmt>, sent: seq<Effect>)
    requires PureDml(stmts) && forall s :: s in stmts ==> ClassifiedSoundly(s)
    requires |sent| == |stmts| && forall i :: 0 <= i < |stmts| ==> sent[i] == stmts[i].effect
    requires c.working.Some? && d.working.None? && c.working.value == d.committed
    ensures QueryUnskipped(c, stmts).affected == QueryAll(d, sent).affected
    decreases |stmts|
  {
    if stmts == [] {
    } else {
      assert ClassifiedSoundly(stmts[0]) && stmts[0].info.kind in {Insert, Update, Delete};
      SameStep(c, d, sent[0]);
      if QueryConn(d, sent[0]).affected.Some? {
        SameInTransaction(QueryConn(c, sent[0]).conn, QueryConn(d, sent[0]).conn, stmts[1..], sent[1..]);
      }
    }
  }

  lemma {:induction false} NoDdl(stmts: seq<Stmt>)
    requires PureDml(stmts)
    ensures !HasDdl(stmts)
  {
    forall i | 0 <= i < |stmts| ensures !IsDdl(Infos(stmts)[i]) {
      assert stmts[i] in stmts;
    }
  }

  /**
   * For a file of only INSERT, UPDATE and DELETE that is cut into statements as the server
   * would, the preview is a prediction: it errs exactly when applying the file from the same
   * state fails, and otherwise reports the affected-row total the apply will report.
   */
  lemma {:induction false} DryRunPredictsApply(db: Db, file: File)
    requires PureDml(file.stmts) && Faithful(file) && forall s :: s in file.stmts ==> ClassifiedSoundly(s)
    ensures var r := DryRunResult(Conn(db, None), file);
            var a := QueryAll(Conn(db, None), file.sent);
      r.mode == DmlTxRollback && r.affected == a.affected && (r.error <==> a.affected.None?)
  {
    var c := Conn(db, None);
    NoDdl(file.stmts);
    SameInTransaction(Begin(c), c, file.stmts, file.sent);
  }
}
