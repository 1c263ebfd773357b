/** Restoring the target from a snapshot, and exactly when that undoes an apply. */
module Rollback {
  import opened Common
  import opened SqlAnalyzer
  import opened TargetDb
  import opened Backup

  datatype Restored = Restored(ok: bool, hard: bool, rowsAffected: Option<nat>)

  datatype StepStatus = StepSuccess | StepFailed
  datatype RestoreStep = RestoreStep(table: string, order: nat, status: StepStatus, rowsAffected: Option<nat>)

  // --- the three statements rollback issues --------------------------------

  function DropIfExists(t: string): Effect { AnyDdl((db: Db) => Some(db - {t})) }

  function DeleteAll(t: string): Effect {
    WriteRows(t, (db: Db) => if t in db then Some(Written(multiset{}, |db[t].rows|)) else None)
  }

  function InsertRows(t: string, columns: seq<string>, rows: multiset<Cells>): Effect {
    WriteRows(t, (db: Db) => if t !in db then None else
      var stored := if columns == db[t].structure.columns then Some(rows) else db[t].structure.coerce(columns, rows);
      if stored.None? then None else Some(Written(db[t].rows + stored.value, |rows|)))
  }

  // --- one table -----------------------------------------------------------

  /** Final committed state and outcome of restoring one table on a connection with no open transaction. */
  function RestoreTable(db: Db, snap: TableSnapshot): (Db, Restored) {
    var t := snap.name;
    if !snap.existedBefore then (db - {t}, Restored(true, false, None))
    else if !snap.dataIncluded then (db, Restored(false, false, None))
    else
      var deleted := Exec(DeleteAll(t), db);
      if deleted.None? then (db, Restored(false, true, None))
      else if |snap.rows| == 0 then (deleted.value.db, Restored(true, false, Some(0)))
      else
        var inserted := Exec(InsertRows(t, snap.columns, snap.rows), deleted.value.db);
        if inserted.None? then (db, Restored(false, true, None))
        else (inserted.value.db, Restored(true, false, Some(|snap.rows|)))
  }

  datatype RestoreRun = RestoreRun(db: Db, steps: seq<RestoreStep>, hadHardFailure: bool)

  function RestoreAll(db: Db, snaps: seq<TableSnapshot>): (run: RestoreRun)
    ensures |run.steps| == |snaps|
  {
    if snaps == [] then RestoreRun(db, [], false)
    else
      var n := |snaps| - 1;
      var before := RestoreAll(db, snaps[..n]);
      var (db', r) := RestoreTable(before.db, snaps[n]);
      RestoreRun(db',
                 before.steps + [RestoreStep(snaps[n].name, n, if r.ok then StepSuccess else StepFailed,
                                              r.rowsAffected)],
                 before.hadHardFailure || (!r.ok && r.hard))
  }

  method RestoreOneTable(connection: Connection, snap: TableSnapshot) returns (r: Restored)
    requires connection.working.None?
    modifies connection, connection.server
    ensures connection.State() == Conn(RestoreTable(old(connection.server.committed), snap).0, None)
    ensures r == RestoreTable(old(connection.server.committed), snap).1
  {
    if !snap.existedBefore {
      var _ := connection.Query(DropIfExists(snap.name));
      return Restored(true, false, None);
    }
    if !snap.dataIncluded {
      return Restored(false, false, None);
    }
    connection.BeginTransaction();
    var deleted := connection.Query(DeleteAll(snap.name));
    if deleted.None? {
      connection.Rollback();
      return Restored(false, true, None);
    }
    if |snap.rows| > 0 {
      var inserted := connection.Query(InsertRows(snap.name, snap.columns, snap.rows));
      if inserted.None? {
        connection.Rollback();
        return Restored(false, true, None);
      }
    }
    connection.Commit();
    r := Restored(true, false, Some(|snap.rows|));
  }

  /** Restores every table in snapshot order, whatever happens to the ones before. */
  method RestoreTables(server: Server, snaps: seq<TableSnapshot>)
    returns (steps: seq<RestoreStep>, hadHardFailure: bool)
    modifies server
    ensures var run := RestoreAll(old(server.committed), snaps);
      server.committed == run.db && steps == run.steps && hadHardFailure == run.hadHardFailure
  {
    var connection := new Connection(server);
    hadHardFailure := false;
    steps := [];
    var order := 0;
    while order < |snaps|
      invariant 0 <= order <= |snaps|
      invariant connection.server == server && connection.working.None? && fresh(connection)
      invariant var run := RestoreAll(old(server.committed), snaps[..order]);
        server.committed == run.db && steps == run.steps && hadHardFailure == run.hadHardFailure
    {
      assert snaps[..order + 1][..order] == snaps[..order];
      var result := RestoreOneTable(connection, snaps[order]);
      steps := steps + [RestoreStep(snaps[order].name, order, if result.ok then StepSuccess else StepFailed,
                                    result.rowsAffected)];
      if !result.ok && result.hard {
        hadHardFailure := true;
      }
      order := order + 1;
    }
    assert snaps[..|snaps|] == snaps;
  }

  // --- what a rollback does to each table ----------------------------------

  /** Do two states agree about table `t`? */
  ghost predicate SameAt(db: Db, db': Db, t: string) {
    (t in db <==> t in db') && (t in db ==> db[t] == db'[t])
  }

  /** Restoring one table leaves every other table alone. */
  lemma {:induction false} RestoreTableFrame(db: Db, snap: TableSnapshot, t: string)
    requires t != snap.name
    ensures SameAt(db, RestoreTable(db, snap).0, t)
  {
  }

  lemma {:induction false} DeleteLocal(db: Db, db': Db, t: string)
    requires SameAt(db, db', t)
    ensures var x, y := Exec(DeleteAll(t), db), Exec(DeleteAll(t), db');
      (x.Some? <==> y.Some?) && (x.Some? ==> SameAt(x.value.db, y.value.db, t))
  {
  }

  lemma {:induction false} InsertLocal(db: Db, db': Db, t: string, columns: seq<string>, rows: multiset<Cells>)
    requires SameAt(db, db', t)
    ensures var x, y := Exec(InsertRows(t, columns, rows), db), Exec(InsertRows(t, columns, rows), db');
      (x.Some? <==> y.Some?) && (x.Some? ==> SameAt(x.value.db, y.value.db, t))
  {
  }

  /** Restoring a table reads nothing but that table. */
  lemma {:induction false} RestoreTableLocal(db: Db, db': Db, snap: TableSnapshot)
    requires SameAt(db, db', snap.name)
    ensures SameAt(RestoreTable(db, snap).0, RestoreTable(db', snap).0, snap.name)
    ensures RestoreTable(db, snap).1 == RestoreTable(db', snap).1
  {
    if snap.existedBefore && snap.dataIncluded {
      DeleteLocal(db, db', snap.name);
      var x, y := Exec(DeleteAll(snap.name), db), Exec(DeleteAll(snap.name), db');
      if x.Some? {
        InsertLocal(x.value.db, y.value.db, snap.name, snap.columns, snap.rows);
      }
    }
  }

  predicate DistinctSnapshots(snaps: seq<TableSnapshot>) {
    forall i, j :: 0 <= i < j < |snaps| ==> snaps[i].name != snaps[j].name
  }

  /** Tables without a snapshot do not change. */
  lemma {:induction false} RestoreAllFrame(db: Db, snaps: seq<TableSnapshot>, t: string)
    requires forall i :: 0 <= i < |snaps| ==> snaps[i].name != t
    ensures SameAt(db, RestoreAll(db, snaps).db, t)
  {
    if snaps == [] {
    } else {
      var n := |snaps| - 1;
      RestoreAllFrame(db, snaps[..n], t);
      RestoreTableFrame(RestoreAll(db, snaps[..n]).db, snaps[n], t);
    }
  }

  lemma {:induction false} RestoreAllAt(db: Db, snaps: seq<TableSnapshot>, i: nat)
    requires DistinctSnapshots(snaps) && i < |snaps|
    ensures SameAt(RestoreTable(db, snaps[i]).0, RestoreAll(db, snaps).db, snaps[i].name)
  {
    var n := |snaps| - 1;
    var before := RestoreAll(db, snaps[..n]).db;
    if i == n {
      RestoreAllFrame(db, snaps[..n], snaps[n].name);
      RestoreTableLocal(db, before, snaps[n]);
    } else {
      RestoreAllAt(db, snaps[..n], i);
      RestoreTableFrame(before, snaps[n], snaps[i].name);
    }
  }

  /** Each table ends as restoring it alone would leave it; tables without a snapshot do not change. */
  lemma {:induction false} RestoreAllPointwise(db: Db, snaps: seq<TableSnapshot>, t: string)
    requires DistinctSnapshots(snaps)
    ensures (forall i :: 0 <= i < |snaps| ==> snaps[i].name != t) ==> SameAt(db, RestoreAll(db, snaps).db, t)
    ensures forall i :: 0 <= i < |snaps| && snaps[i].name == t ==>
      SameAt(RestoreTable(db, snaps[i]).0, RestoreAll(db, snaps).db, t)
  {
    if forall i :: 0 <= i < |snaps| ==> snaps[i].name != t {
      RestoreAllFrame(db, snaps, t);
    }
    forall i | 0 <= i < |snaps| && snaps[i].name == t
      ensures SameAt(RestoreTable(db, snaps[i]).0, RestoreAll(db, snaps).db, t)
    {
      RestoreAllAt(db, snaps, i);
    }
  }

  /**
   * What the state after an apply must satisfy for the rollback to bring `t` back:
   * nothing if `t` is new; otherwise the table is still there with its old
   * definition, and either its rows were captured or they never changed.
   */
  ghost predicate Restorable(db0: Db, db1: Db, t: string, limit: nat) {
    t in db0 ==>
      && t in db1 && db1[t].structure == db0[t].structure
      && (|db0[t].rows| <= limit || db1[t].rows == db0[t].rows)
  }

  lemma {:induction false} RestoreTableExact(db0: Db, db1: Db, t: string, limit: nat)
    requires WellFormed(db0)
    ensures SameAt(db0, RestoreTable(db1, SnapshotTable(db0, t, limit)).0, t) <==> Restorable(db0, db1, t, limit)
    ensures Restorable(db0, db1, t, limit) && (t in db0 ==> |db0[t].rows| <= limit) ==>
      RestoreTable(db1, SnapshotTable(db0, t, limit)).1
      == Restored(true, false, if t in db0 then Some(|db0[t].rows|) else None)
  {
    if t in db0 && |db0[t].rows| <= limit && t in db1 {
      var deleted := db1[t := Table(db1[t].structure, multiset{})];
      assert Exec(DeleteAll(t), db1).value.db == deleted;
      if |db0[t].rows| == 0 {
        assert db0[t].rows == multiset{};
      } else {
        assert multiset{} + db0[t].rows == db0[t].rows;
        var r := RestoreTable(db1, SnapshotTable(db0, t, limit)).0;
        if db1[t].structure == db0[t].structure {
          var x := Exec(InsertRows(t, db0[t].structure.columns, db0[t].rows), deleted);
          assert x == Some(Executed(deleted[t := db0[t]], |db0[t].rows|));
        } else {
          assert t in r && r[t].structure == db1[t].structure;
        }
      }
    }
  }

  lemma {:induction false} SameAtSwap(db: Db, x: Db, y: Db, t: string)
    requires SameAt(x, y, t)
    ensures SameAt(db, x, t) <==> SameAt(db, y, t)
  {
  }

  lemma {:induction false} SnapshotNames(db0: Db, tables: seq<string>, limit: nat)
    requires Distinct(tables)
    ensures var snaps := Snapshots(db0, tables, limit);
      DistinctSnapshots(snaps) && forall i :: 0 <= i < |tables| ==> snaps[i].name == tables[i]
  {
  }

  lemma {:induction false} RollbackAt(db0: Db, db1: Db, tables: seq<string>, limit: nat, i: nat)
    requires WellFormed(db0) && Distinct(tables) && i < |tables|
    ensures var db2 := RestoreAll(db1, Snapshots(db0, tables, limit)).db;
      SameAt(db0, db2, tables[i]) <==> Restorable(db0, db1, tables[i], limit)
  {
    var snaps := Snapshots(db0, tables, limit);
    SnapshotNames(db0, tables, limit);
    RestoreAllAt(db1, snaps, i);
    RestoreTableExact(db0, db1, tables[i], limit);
    SameAtSwap(db0, RestoreTable(db1, snaps[i]).0, RestoreAll(db1, snaps).db, tables[i]);
  }

  lemma {:induction false} RollbackRestoresTable(db0: Db, db1: Db, tables: seq<string>, limit: nat, t: string)
    requires WellFormed(db0) && Distinct(tables)
    requires t !in tables ==> SameAt(db0, db1, t)
    ensures var db2 := RestoreAll(db1, Snapshots(db0, tables, limit)).db;
      && (t !in tables ==> SameAt(db0, db2, t))
      && (t in tables ==> (SameAt(db0, db2, t) <==> Restorable(db0, db1, t, limit)))
  {
    if t in tables {
      var i :| 0 <= i < |tables| && tables[i] == t;
      RollbackAt(db0, db1, tables, limit, i);
    } else {
      var snaps := Snapshots(db0, tables, limit);
      SnapshotNames(db0, tables, limit);
      RestoreAllFrame(db1, snaps, t);
      SameAtSwap(db0, db1, RestoreAll(db1, snaps).db, t);
    }
  }

  lemma {:induction false} SameEverywhere(db: Db, db': Db)
    requires forall t :: SameAt(db, db', t)
    ensures db == db'
  {
    forall t ensures t in db.Keys <==> t in db'.Keys {
      assert SameAt(db, db', t);
    }
    forall t | t in db ensures db[t] == db'[t] {
      assert SameAt(db, db', t);
    }
  }

  /**
   * Exactly when a rollback undoes whatever happened to the affected tables:
   * for every state the apply may have left, the original database comes back
   * if and only if every affected table is restorable.
   */
  lemma {:induction false} RollbackRestoresExactly(db0: Db, db1: Db, tables: seq<string>, limit: nat)
    requires WellFormed(db0) && Distinct(tables)
    requires forall t :: t !in tables ==> SameAt(db0, db1, t)
    ensures RestoreAll(db1, Snapshots(db0, tables, limit)).db == db0 <==>
      forall t :: t in tables ==> Restorable(db0, db1, t, limit)
  {
    var db2 := RestoreAll(db1, Snapshots(db0, tables, limit)).db;
    forall t
      ensures t !in tables ==> SameAt(db0, db2, t)
      ensures t in tables ==> (SameAt(db0, db2, t) <==> Restorable(db0, db1, t, limit))
    {
      RollbackRestoresTable(db0, db1, tables, limit, t);
    }
    if forall t :: t in tables ==> Restorable(db0, db1, t, limit) {
      forall t ensures SameAt(db0, db2, t) { }
      SameEverywhere(db0, db2);
    }
    if db2 == db0 {
      forall t | t in tables ensures Restorable(db0, db1, t, limit) {
        assert SameAt(db0, db2, t);
      }
    }
  }

  // --- what a rollback reports ---------------------------------------------

  /** The table as it is now refuses the rows it had then. */
  predicate Refuses(now: Structure, columns: seq<string>, rows: multiset<Cells>) {
    |rows| > 0 &&
    if columns == now.columns then !now.accepts(rows)
    else now.coerce(columns, rows).None?
         || (now.coerce(columns, rows).value != multiset{} && !now.accepts(now.coerce(columns, rows).value))
  }

  /** A captured table cannot be filled again: it is gone, or refuses its rows. */
  predicate CannotRefill(db0: Db, db1: Db, t: string, limit: nat) {
    && t in db0 && |db0[t].rows| <= limit
    && (t !in db1 || Refuses(db1[t].structure, db0[t].structure.columns, db0[t].rows))
  }

  lemma {:induction false} RefillExact(db: Db, t: string, columns: seq<string>, rows: multiset<Cells>)
    requires t in db && db[t].rows == multiset{} && |rows| > 0
    ensures Exec(InsertRows(t, columns, rows), db).None? <==> Refuses(db[t].structure, columns, rows)
  {
    var s := db[t].structure;
    if columns == s.columns {
      assert multiset{} + rows == rows;
    } else if s.coerce(columns, rows).Some? {
      assert multiset{} + s.coerce(columns, rows).value == s.coerce(columns, rows).value;
    }
  }

  /** The outcome for one table, from the states before and after the apply. */
  lemma {:induction false} OutcomeExact(db0: Db, db1: Db, t: string, limit: nat)
    ensures var r := RestoreTable(db1, SnapshotTable(db0, t, limit)).1;
      && (!r.ok && r.hard <==> CannotRefill(db0, db1, t, limit))
      && (r.ok <==> t !in db0 || (|db0[t].rows| <= limit && !CannotRefill(db0, db1, t, limit)))
      && r.rowsAffected == (if r.ok && t in db0 then Some(|db0[t].rows|) else None)
  {
    if t in db0 && |db0[t].rows| <= limit && t in db1 {
      var deleted := db1[t := Table(db1[t].structure, multiset{})];
      assert Exec(DeleteAll(t), db1) == Some(Executed(deleted, |db1[t].rows|));
      if |db0[t].rows| > 0 {
        RefillExact(deleted, t, db0[t].structure.columns, db0[t].rows);
      }
    }
  }

  /** Each step is that of its table alone, in snapshot order. */
  lemma {:induction false} StepAt(db: Db, snaps: seq<TableSnapshot>, i: nat)
    requires DistinctSnapshots(snaps) && i < |snaps|
    ensures var r := RestoreTable(db, snaps[i]).1;
      RestoreAll(db, snaps).steps[i]
      == RestoreStep(snaps[i].name, i, if r.ok then StepSuccess else StepFailed, r.rowsAffected)
  {
    var n := |snaps| - 1;
    if i == n {
      RestoreAllFrame(db, snaps[..n], snaps[n].name);
      RestoreTableLocal(db, RestoreAll(db, snaps[..n]).db, snaps[n]);
    } else {
      StepAt(db, snaps[..n], i);
    }
  }

  /** Restoring some table of the list, by itself, is a hard failure. */
  ghost predicate SomeHard(db: Db, snaps: seq<TableSnapshot>) {
    exists i :: 0 <= i < |snaps| && !RestoreTable(db, snaps[i]).1.ok && RestoreTable(db, snaps[i]).1.hard
  }

  lemma {:induction false} SomeHardStep(db: Db, snaps: seq<TableSnapshot>)
    requires snaps != []
    ensures var last := RestoreTable(db, snaps[|snaps| - 1]).1;
      SomeHard(db, snaps) <==> SomeHard(db, snaps[..|snaps| - 1]) || (!last.ok && last.hard)
  {
    var init := snaps[..|snaps| - 1];
    assert forall i :: 0 <= i < |init| ==> init[i] == snaps[i];
  }

  lemma {:induction false} FlagExact(db: Db, snaps: seq<TableSnapshot>)
    requires DistinctSnapshots(snaps)
    ensures RestoreAll(db, snaps).hadHardFailure <==> SomeHard(db, snaps)
  {
    if snaps == [] {
    } else {
      var n := |snaps| - 1;
      FlagExact(db, snaps[..n]);
      RestoreAllFrame(db, snaps[..n], snaps[n].name);
      RestoreTableLocal(db, RestoreAll(db, snaps[..n]).db, snaps[n]);
      SomeHardStep(db, snaps);
    }
  }

  /**
   * The report of a rollback, whatever the apply left: it is a hard failure if and only if some
   * captured table cannot be filled again, and every table has its step, in order, with the
   * outcome and the row count of that table alone.
   */
  lemma {:induction false} RollbackReportsExactly(db0: Db, db1: Db, tables: seq<string>, limit: nat)
    requires Distinct(tables)
    ensures var run := RestoreAll(db1, Snapshots(db0, tables, limit));
      && (run.hadHardFailure <==> exists t :: t in tables && CannotRefill(db0, db1, t, limit))
      && (forall i :: 0 <= i < |tables| ==>
            var t := tables[i];
            var ok := t !in db0 || (|db0[t].rows| <= limit && !CannotRefill(db0, db1, t, limit));
            run.steps[i] == RestoreStep(t, i, if ok then StepSuccess else StepFailed,
                                        if ok && t in db0 then Some(|db0[t].rows|) else None))
  {
    var snaps := Snapshots(db0, tables, limit);
    SnapshotNames(db0, tables, limit);
    FlagExact(db1, snaps);
    forall i | 0 <= i < |tables|
      ensures var t := tables[i];
              var r := RestoreTable(db1, snaps[i]).1;
              var ok := t !in db0 || (|db0[t].rows| <= limit && !CannotRefill(db0, db1, t, limit));
        && (!r.ok && r.hard <==> CannotRefill(db0, db1, t, limit))
        && RestoreAll(db1, snaps).steps[i]
           == RestoreStep(t, i, if ok then StepSuccess else StepFailed,
                          if ok && t in db0 then Some(|db0[t].rows|) else None)
    {
      StepAt(db1, snaps, i);
      OutcomeExact(db0, db1, tables[i], limit);
    }
  }
}
