/** Running a change request's files against the target, and undoing it. */
module Apply {
  import opened Common
  import opened SqlAnalyzer
  import opened TargetDb
  import opened Backup
  import opened Rollback

  datatype ExecutionStatus = Running | Succeeded | Failed
  datatype StepRow = StepRow(filename: string, order: nat, status: StepStatus, rowsAffected: Option<nat>)

  /** What an execution did, in order. */
  datatype LogEvent = BackupStored | BackupLinked | FileRun(index: nat)

  datatype Outcome = Outcome(
    db: Db, status: ExecutionStatus, backup: Option<Payload>, steps: seq<StepRow>, log: seq<LogEvent>)

  datatype FilesRun = FilesRun(conn: Conn, steps: seq<StepRow>, log: seq<LogEvent>, failed: bool)

  /** Files from index `i` on, in order, up to and including the first one that fails. */
  function RunFilesFrom(c: Conn, files: seq<File>, i: nat): FilesRun
    requires i <= |files|
    decreases |files| - i
  {
    if i == |files| then FilesRun(c, [], [], false)
    else
      var f := files[i];
      var a := QueryAll(c, f.sent);
      if a.affected.None? then FilesRun(a.conn, [StepRow(f.filename, f.order, StepFailed, None)], [FileRun(i)], true)
      else
        var rest := RunFilesFrom(a.conn, files, i + 1);
        FilesRun(rest.conn,
                 [StepRow(f.filename, f.order, StepSuccess, a.affected)] + rest.steps,
                 [FileRun(i)] + rest.log,
                 rest.failed)
  }

  /** What is done, and what is still to come of it, after one more file. */
  lemma {:induction false} OneFileMore(c: Conn, files: seq<File>, i: nat, steps: seq<StepRow>, log: seq<LogEvent>)
    requires i < |files| && QueryAll(c, files[i].sent).affected.Some?
    ensures var a := QueryAll(c, files[i].sent);
            var all, rest := RunFilesFrom(c, files, i), RunFilesFrom(a.conn, files, i + 1);
      && all.conn == rest.conn && all.failed == rest.failed
      && steps + all.steps
         == steps + [StepRow(files[i].filename, files[i].order, StepSuccess, a.affected)] + rest.steps
      && log + all.log == log + [FileRun(i)] + rest.log
  {
  }

  /** A whole apply, for every way the backup or the connection may fail. */
  function ApplyRun(db: Db, files: seq<File>, limit: nat, backupFails: bool, connectFails: bool): Outcome {
    if backupFails then Outcome(db, Failed, None, [StepRow("(backup)", 0, StepFailed, None)], [])
    else
      var payload := PayloadOf(Snapshots(db, AffectedTables(files), limit));
      if connectFails then
        Outcome(db, Failed, Some(payload), [StepRow("(connection)", 0, StepFailed, None)], [BackupStored, BackupLinked])
      else
        var run := RunFilesFrom(Conn(db, None), files, 0);
        Outcome(run.conn.committed, if run.failed then Failed else Succeeded, Some(payload), run.steps,
                [BackupStored, BackupLinked] + run.log)
  }

  /** The stored execution row with its steps. */
  class Execution {
    var status: ExecutionStatus
    var backup: Option<Payload>
    var steps: seq<StepRow>
    ghost var log: seq<LogEvent>

    constructor ()
      ensures status == Running && backup.None? && steps == [] && log == []
    {
      status, backup, steps, log := Running, None, [], [];
    }

    method RunFiles(server: Server, files: seq<File>) returns (failed: bool)
      modifies this`steps, this`log, server
      ensures var run := RunFilesFrom(Conn(old(server.committed), None), files, 0);
        && server.committed == run.conn.committed
        && steps == old(steps) + run.steps && log == old(log) + run.log
        && failed == run.failed
    {
      var connection := new Connection(server);
      ghost var run := RunFilesFrom(connection.State(), files, 0);
      for i := 0 to |files|
        invariant connection.server == server && fresh(connection)
        invariant var rest := RunFilesFrom(connection.State(), files, i);
          && run.conn == rest.conn && run.failed == rest.failed
          && old(steps) + run.steps == steps + rest.steps && old(log) + run.log == log + rest.log
      {
        var f := files[i];
        ghost var before := connection.State();
        var affected := connection.RunSqlFile(f.sent);
        if affected.Some? {
          OneFileMore(before, files, i, steps, log);
        }
        log := log + [FileRun(i)];
        if affected.None? {
          steps := steps + [StepRow(f.filename, f.order, StepFailed, None)];
          return true;
        }
        steps := steps + [StepRow(f.filename, f.order, StepSuccess, affected)];
      }
      failed := false;
    }

    /** Backup first, then the files; the outcome is final either way. */
    method Apply(server: Server, files: seq<File>, limit: nat, backupFails: bool, connectFails: bool)
      requires status == Running && backup.None? && steps == [] && log == []
      modifies this, server
      ensures Outcome(server.committed, status, backup, steps, log)
           == ApplyRun(old(server.committed), files, limit, backupFails, connectFails)
    {
      if backupFails {
        steps := steps + [StepRow("(backup)", 0, StepFailed, None)];
        status := Failed;
        return;
      }
      var payload := CreateBackup(server, files, limit);
      assert payload == PayloadOf(Snapshots(old(server.committed), AffectedTables(files), limit));
      log := log + [BackupStored];
      backup := Some(payload);
      log := log + [BackupLinked];
      assert log == [BackupStored, BackupLinked] && steps == [];
      if connectFails {
        steps := steps + [StepRow("(connection)", 0, StepFailed, None)];
        status := Failed;
        return;
      }
      var failed := RunFiles(server, files);
      ghost var run := RunFilesFrom(Conn(old(server.committed), None), files, 0);
      assert steps == run.steps && log == [BackupStored, BackupLinked] + run.log;
      status := if failed then Failed else Succeeded;
    }
  }

  // --- the execution log ---------------------------------------------------

  lemma {:induction false} RunFilesLog(c: Conn, files: seq<File>, i: nat)
    requires i <= |files|
    ensures var run := RunFilesFrom(c, files, i);
      && |run.steps| == |run.log| <= |files| - i
      && (forall j :: 0 <= j < |run.log| ==> run.log[j] == FileRun(i + j))
      && (forall j :: 0 <= j < |run.steps| ==>
            && run.steps[j].filename == files[i + j].filename && run.steps[j].order == files[i + j].order
            && (run.steps[j].status == StepSuccess <==> !(run.failed && j == |run.steps| - 1))
            && (run.steps[j].rowsAffected.Some? <==> run.steps[j].status == StepSuccess))
      && (run.failed ==> |run.steps| > 0)
      && (!run.failed ==> |run.steps| == |files| - i)
    decreases |files| - i
  {
    if i < |files| {
      var a := QueryAll(c, files[i].sent);
      if a.affected.Some? {
        RunFilesLog(a.conn, files, i + 1);
      }
    }
  }

  /**
   * The files that run are a prefix of the list, in order, and none before a backup is
   * stored and linked. A successful execution has one successful step per file; a failed
   * one has successful steps and then exactly one failed step.
   */
  lemma {:induction false} ExecutionLog(db: Db, files: seq<File>, limit: nat, backupFails: bool, connectFails: bool)
    ensures var o := ApplyRun(db, files, limit, backupFails, connectFails);
      && o.status != Running
      && (|o.log| >= 2 ==> o.log[0] == BackupStored && o.log[1] == BackupLinked && o.backup.Some?)
      && (|o.log| < 2 ==> o.log == [] && o.backup.None? && o.db == db)
      && (forall j :: 2 <= j < |o.log| ==> o.log[j] == FileRun(j - 2) && j - 2 < |files|)
      && (o.status == Succeeded ==> |o.steps| == |files| && |o.log| == |files| + 2)
      && (o.status == Failed ==> |o.steps| > 0 && o.steps[|o.steps| - 1].status == StepFailed)
      && (forall j :: 0 <= j < |o.steps| ==>
            (o.steps[j].status == StepFailed <==> o.status == Failed && j == |o.steps| - 1))
      && (|o.log| > 2 ==>
            && |o.steps| == |o.log| - 2 <= |files|
            && forall j :: 0 <= j < |o.steps| ==> o.steps[j].filename == files[j].filename)
      && (backupFails ==> o.steps == [StepRow("(backup)", 0, StepFailed, None)])
      && (!backupFails && connectFails ==> o.steps == [StepRow("(connection)", 0, StepFailed, None)] && o.db == db)
      && (o.status == Succeeded ==> !backupFails && !connectFails)
  {
    RunFilesLog(Conn(db, None), files, 0);
  }

  lemma {:induction false} QueryAllAppend(c: Conn, s: seq<Effect>, s': seq<Effect>)
    ensures var a := QueryAll(c, s);
      QueryAll(c, s + s') == if a.affected.None? then a else Combine(a.affected.value, QueryAll(a.conn, s'))
    decreases |s|
  {
    if s == [] {
      assert s + s' == s';
    } else {
      ConsAppend(s, s');
      if QueryConn(c, s[0]).affected.Some? {
        QueryAllAppend(QueryConn(c, s[0]).conn, s[1..], s');
      }
    }
  }

  /** Stopping at the first failing file is stopping at the first failing statement. */
  lemma {:induction false} RunFilesIsOneQuery(c: Conn, files: seq<File>, i: nat)
    requires i <= |files|
    ensures RunFilesFrom(c, files, i).conn == QueryAll(c, AllSent(files[i..])).conn
    ensures RunFilesFrom(c, files, i).failed <==> QueryAll(c, AllSent(files[i..])).affected.None?
    decreases |files| - i
  {
    if i < |files| {
      var a := QueryAll(c, files[i].sent);
      assert files[i..][1..] == files[i + 1..];
      QueryAllAppend(c, files[i].sent, AllSent(files[i + 1..]));
      if a.affected.Some? {
        RunFilesIsOneQuery(a.conn, files, i + 1);
      }
    }
  }

  // --- undoing an apply ----------------------------------------------------

  /** The SQL for which backups work: row changes and table creations, each in a table the backup covers. */
  predicate InFragment(e: Effect, tables: seq<string>) {
    match e
    case ReadOnly(_) => true
    case WriteRows(t, _) => t in tables
    case WriteTables(ts, _) => forall t :: t in ts ==> t in tables
    case EmptyTable(t) => t in tables
    case CreateNew(t, _, _) => t in tables
    case AnyDdl(_) => false
    case TxControl(_) => false
  }

  /** Nothing outside `tables` differs, and existing tables keep their definition. */
  ghost predicate OnlyRowsOf(db: Db, db': Db, tables: seq<string>) {
    && (forall t :: t !in tables ==> SameAt(db, db', t))
    && (forall t :: t in db ==> t in db' && db'[t].structure == db[t].structure)
  }

  lemma {:induction false} FrameStep(db: Db, e: Effect, tables: seq<string>)
    requires InFragment(e, tables)
    ensures var a := QueryConn(Conn(db, None), e);
      a.conn.working.None? && OnlyRowsOf(db, a.conn.committed, tables)
  {
  }

  lemma {:induction false} FrameTwice(db: Db, db': Db, db'': Db, tables: seq<string>)
    requires OnlyRowsOf(db, db', tables) && OnlyRowsOf(db', db'', tables)
    ensures OnlyRowsOf(db, db'', tables)
  {
    forall t | t !in tables ensures SameAt(db, db'', t) {
      assert SameAt(db, db', t) && SameAt(db', db'', t);
    }
  }

  lemma {:induction false} FragmentFrame(c: Conn, effects: seq<Effect>, tables: seq<string>)
    requires c.working.None?
    requires forall e :: e in effects ==> InFragment(e, tables)
    ensures QueryAll(c, effects).conn.working.None?
    ensures OnlyRowsOf(c.committed, QueryAll(c, effects).conn.committed, tables)
    decreases |effects|
  {
    if effects == [] {
    } else {
      FrameStep(c.committed, effects[0], tables);
      var a := QueryConn(c, effects[0]);
      if a.affected.Some? {
        FragmentFrame(a.conn, effects[1..], tables);
        FrameTwice(c.committed, a.conn.committed, QueryAll(a.conn, effects[1..]).conn.committed, tables);
      }
    }
  }

  /**
   * Backup, then any part of the apply, then rollback. `n` is where the apply was cut
   * short; a failing statement may have stopped it earlier. The original database
   * comes back exactly when every affected table over the row limit still has its rows.
   */
  lemma {:induction false} RollbackUndoesExactly(db0: Db, files: seq<File>, n: nat, limit: nat)
    requires WellFormed(db0)
    requires forall e :: e in AllSent(files) ==> InFragment(e, AffectedTables(files))
    requires n <= |AllSent(files)|
    ensures var tables := AffectedTables(files);
            var db1 := QueryAll(Conn(db0, None), AllSent(files)[..n]).conn.committed;
      && OnlyRowsOf(db0, db1, tables)
      && (RestoreAll(db1, Snapshots(db0, tables, limit)).db == db0 <==>
            forall t :: t in tables && t in db0 && |db0[t].rows| > limit ==> db1[t].rows == db0[t].rows)
  {
    var all := AllSent(files);
    var tables := AffectedTables(files);
    FragmentFrame(Conn(db0, None), all[..n], tables);
    var db1 := QueryAll(Conn(db0, None), all[..n]).conn.committed;
    RollbackRestoresExactly(db0, db1, tables, limit);
  }

  /** The step of a captured table succeeds, whatever happened to the tables before it. */
  lemma {:induction false} OneStepSucceeds(db0: Db, db1: Db, before: Db, t: string, limit: nat)
    requires WellFormed(db0) && (t in db0 ==> |db0[t].rows| <= limit)
    requires t in db0 ==> t in db1 && db1[t].structure == db0[t].structure
    requires SameAt(db1, before, t)
    ensures RestoreTable(before, SnapshotTable(db0, t, limit)).1.ok
  {
    RestoreTableLocal(db1, before, SnapshotTable(db0, t, limit));
    RestoreTableExact(db0, db1, t, limit);
  }

  lemma {:induction false} RestoreAllSucceeds(db0: Db, db1: Db, tables: seq<string>, limit: nat)
    requires WellFormed(db0) && Distinct(tables)
    requires forall t :: t in tables && t in db0 ==> |db0[t].rows| <= limit
    requires forall t :: t in db0 ==> t in db1 && db1[t].structure == db0[t].structure
    ensures var run := RestoreAll(db1, Snapshots(db0, tables, limit));
      !run.hadHardFailure && forall s :: s in run.steps ==> s.status == StepSuccess
  {
    if tables == [] {
    } else {
      var n := |tables| - 1;
      var snaps := Snapshots(db0, tables, limit);
      assert snaps[..n] == Snapshots(db0, tables[..n], limit);
      RestoreAllSucceeds(db0, db1, tables[..n], limit);
      SnapshotNames(db0, tables, limit);
      RestoreAllFrame(db1, snaps[..n], tables[n]);
      assert tables[n] in tables;
      OneStepSucceeds(db0, db1, RestoreAll(db1, snaps[..n]).db, tables[n], limit);
    }
  }

  /** With every affected table within the limit, rollback is the exact inverse, and repeating it changes nothing. */
  lemma {:induction false} RollbackIsInverse(db0: Db, files: seq<File>, n: nat, limit: nat)
    requires WellFormed(db0)
    requires forall e :: e in AllSent(files) ==> InFragment(e, AffectedTables(files))
    requires n <= |AllSent(files)|
    requires forall t :: t in AffectedTables(files) && t in db0 ==> |db0[t].rows| <= limit
    ensures var snaps := Snapshots(db0, AffectedTables(files), limit);
            var db1 := QueryAll(Conn(db0, None), AllSent(files)[..n]).conn.committed;
            var run := RestoreAll(db1, snaps);
      && run.db == db0 && !run.hadHardFailure
      && (forall s :: s in run.steps ==> s.status == StepSuccess)
      && RestoreAll(run.db, snaps).db == run.db
  {
    var tables := AffectedTables(files);
    var db1 := QueryAll(Conn(db0, None), AllSent(files)[..n]).conn.committed;
    RollbackUndoesExactly(db0, files, n, limit);
    RollbackRestoresExactly(db0, db0, tables, limit);
    RestoreAllSucceeds(db0, db1, tables, limit);
  }

  /** The same for a recorded execution, however it ended: rolling back its backup restores the target. */
  lemma {:induction false} RollbackUndoesExecution(db0: Db, files: seq<File>, limit: nat, backupFails: bool,
                                                   connectFails: bool)
    requires WellFormed(db0)
    requires forall e :: e in AllSent(files) ==> InFragment(e, AffectedTables(files))
    requires forall t :: t in AffectedTables(files) && t in db0 ==> |db0[t].rows| <= limit
    ensures var o := ApplyRun(db0, files, limit, backupFails, connectFails);
      if o.backup.None? then o.db == db0
      else RestoreAll(o.db, o.backup.value.tables).db == db0
  {
    var all := AllSent(files);
    assert all[..|all|] == all && files[0..] == files;
    RunFilesIsOneQuery(Conn(db0, None), files, 0);
    RollbackIsInverse(db0, files, |all|, limit);
    RollbackRestoresExactly(db0, db0, AffectedTables(files), limit);
  }

  /**
   * Outside the fragment it is not an inverse: a table the apply dropped stays dropped,
   * and if its rows had been captured the rollback reports a hard failure.
   */
  lemma {:induction false} DroppedTableIsNotRestored(db0: Db, t: string, limit: nat)
    requires t in db0
    ensures var run := RestoreAll(db0 - {t}, Snapshots(db0, [t], limit));
      && t !in run.db && run.db != db0
      && run.steps[0].status == StepFailed
      && (run.hadHardFailure <==> |db0[t].rows| <= limit)
  {
  }
}
