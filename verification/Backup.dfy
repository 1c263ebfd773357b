/** The snapshot taken before an apply. */
module Backup {
  import opened Common
  import opened SqlAnalyzer
  import opened TargetDb

  /** One table as it was before the apply. `rows` and `columns` are empty unless data was captured. */
  datatype TableSnapshot = TableSnapshot(
    name: string,
    existedBefore: bool,
    dataIncluded: bool,
    rowCount: nat,
    columns: seq<string>,
    rows: multiset<Cells>)

  datatype Scope = SchemaAndData | SchemaOnly
  datatype BackupStatus = Success | Partial
  datatype Payload = Payload(tables: seq<TableSnapshot>, scope: Scope, status: BackupStatus)

  /**
   * A file of a change request: what the server does when its text is sent whole, and the
   * statements the analyzer cuts out of it. The two need not agree.
   */
  datatype File = File(filename: string, order: nat, sent: seq<Effect>, stmts: seq<Stmt>)

  function Infos(stmts: seq<Stmt>): (infos: seq<AnalyzedStatement>)
    ensures |infos| == |stmts| && forall i :: 0 <= i < |stmts| ==> infos[i] == stmts[i].info
  {
    seq(|stmts|, i requires 0 <= i < |stmts| => stmts[i].info)
  }

  function AllStatements(files: seq<File>): seq<Stmt> {
    if files == [] then [] else files[0].stmts + AllStatements(files[1..])
  }

  /** Everything an apply of the files sends, in order. */
  function AllSent(files: seq<File>): seq<Effect> {
    if files == [] then [] else files[0].sent + AllSent(files[1..])
  }

  /** Statements come in the order of the files, and in their order within a file. */
  lemma {:induction false} StatementsInFileOrder(files: seq<File>, more: seq<File>)
    ensures AllStatements(files + more) == AllStatements(files) + AllStatements(more)
    ensures |files| == 1 ==> AllStatements(files) == files[0].stmts
  {
    if files == [] {
      assert files + more == more;
    } else {
      ConsAppend(files, more);
      StatementsInFileOrder(files[1..], more);
      Regroup(files[0].stmts, AllStatements(files[1..]), AllStatements(more));
    }
  }

  function AffectedTables(files: seq<File>): seq<string> {
    TouchedTables(Infos(AllStatements(files)))
  }

  function SnapshotTable(db: Db, t: string, limit: nat): TableSnapshot {
    if t !in db then TableSnapshot(t, false, false, 0, [], multiset{})
    else if |db[t].rows| > limit then TableSnapshot(t, true, false, |db[t].rows|, [], multiset{})
    else TableSnapshot(t, true, true, |db[t].rows|, db[t].structure.columns, db[t].rows)
  }

  function Snapshots(db: Db, tables: seq<string>, limit: nat): (snaps: seq<TableSnapshot>)
    ensures |snaps| == |tables|
    ensures forall i :: 0 <= i < |tables| ==> snaps[i] == SnapshotTable(db, tables[i], limit)
  {
    seq(|tables|, i requires 0 <= i < |tables| => SnapshotTable(db, tables[i], limit))
  }

  predicate AnyData(snaps: seq<TableSnapshot>) { exists s :: s in snaps && s.dataIncluded }

  /** A table that exists and whose rows are not captured. */
  predicate AnyDowngraded(snaps: seq<TableSnapshot>) { exists s :: s in snaps && s.existedBefore && !s.dataIncluded }

  lemma {:induction false} AnySnoc(snaps: seq<TableSnapshot>, snap: TableSnapshot)
    ensures AnyData(snaps + [snap]) <==> AnyData(snaps) || snap.dataIncluded
    ensures AnyDowngraded(snaps + [snap]) <==> AnyDowngraded(snaps) || (snap.existedBefore && !snap.dataIncluded)
  {
    assert forall s :: s in snaps + [snap] <==> s in snaps || s == snap;
  }

  function PayloadOf(snaps: seq<TableSnapshot>): Payload {
    Payload(snaps,
            if AnyData(snaps) then SchemaAndData else SchemaOnly,
            if AnyDowngraded(snaps) then Partial else Success)
  }

  /** A backup is PARTIAL exactly when some existing affected table is over the row limit. */
  lemma {:induction false} PartialExact(db: Db, tables: seq<string>, limit: nat)
    ensures PayloadOf(Snapshots(db, tables, limit)).status == Partial <==>
      exists t :: t in tables && t in db && |db[t].rows| > limit
  {
  }

  /** The snapshot says whether the table was there and how big, and holds its rows if they are within the limit. */
  predicate SavedTable(snap: TableSnapshot, db: Db, t: string, limit: nat) {
    snap.name == t &&
    if t !in db then !snap.existedBefore && !snap.dataIncluded && snap.rowCount == 0
    else
      && snap.existedBefore && snap.rowCount == |db[t].rows| && (snap.dataIncluded <==> |db[t].rows| <= limit)
      && (snap.dataIncluded ==> snap.columns == db[t].structure.columns && snap.rows == db[t].rows)
  }

  /** A snapshot of every listed table; the scope says whether rows of any were taken. */
  ghost predicate SavedAsIs(payload: Payload, db: Db, tables: seq<string>, limit: nat) {
    && |payload.tables| == |tables|
    && (forall i :: 0 <= i < |tables| ==> SavedTable(payload.tables[i], db, tables[i], limit))
    && (payload.scope == SchemaAndData <==> exists t :: t in tables && t in db && |db[t].rows| <= limit)
  }

  lemma {:induction false} BackupExact(db: Db, tables: seq<string>, limit: nat)
    ensures SavedAsIs(PayloadOf(Snapshots(db, tables, limit)), db, tables, limit)
  {
  }

  /** Reads the affected tables one after the other; the target is not changed. */
  method CreateBackup(server: Server, files: seq<File>, limit: nat) returns (payload: Payload)
    ensures payload == PayloadOf(Snapshots(server.committed, AffectedTables(files), limit))
    ensures server.committed == old(server.committed)
    ensures SavedAsIs(payload, server.committed, AffectedTables(files), limit)
    ensures payload.status == Partial <==>
      exists t :: t in AffectedTables(files) && t in server.committed && |server.committed[t].rows| > limit
  {
    var tables := AffectedTables(files);
    var snaps: seq<TableSnapshot> := [];
    var downgraded := false;
    var anyData := false;
    for i := 0 to |tables|
      invariant snaps == Snapshots(server.committed, tables, limit)[..i]
      invariant downgraded <==> AnyDowngraded(snaps)
      invariant anyData <==> AnyData(snaps)
    {
      var snap := SnapshotTable(server.committed, tables[i], limit);
      if snap.existedBefore && !snap.dataIncluded {
        downgraded := true;
      }
      if snap.dataIncluded {
        anyData := true;
      }
      AnySnoc(snaps, snap);
      snaps := snaps + [snap];
    }
    payload := Payload(snaps, if anyData then SchemaAndData else SchemaOnly, if downgraded then Partial else Success);
    assert payload == PayloadOf(Snapshots(server.committed, tables, limit));
    BackupExact(server.committed, tables, limit);
    PartialExact(server.committed, tables, limit);
  }
}
