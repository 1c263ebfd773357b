/** From a live database to its introspected schema and on to the diff: one statement about all three. */
module SchemaSnapshot {
  import opened Common
  import opened SchemaModel
  import opened SchemaDiff
  import opened SchemaServer
  import opened SchemaExecution
  import opened SchemaConvergence
  import opened SchemaIntrospector
  import opened SchemaGrouping

  // --- the rows of a live database -----------------------------------------

  ghost predicate HasColumnRow(rows: seq<ColumnRow>, table: string, name: string) {
    exists r :: r in rows && r.table == table && r.column.name == name
  }

  /** One row for every column of every table. */
  ghost predicate ColumnRowsOf(rows: seq<ColumnRow>, live: LiveDb) {
    && (forall i, j :: 0 <= i < j < |rows| && rows[i].table == rows[j].table ==>
          rows[i].column.name != rows[j].column.name)
    && (forall r :: r in rows ==>
          && r.table in live && r.column.name in live[r.table].columns
          && Visible(live[r.table], r.column.name) == LiveColumn(r.column.coltype, r.column.nullable))
    && (forall t, c :: t in live && c in live[t].columns ==> HasColumnRow(rows, t, c))
  }

  ghost predicate HasIndexRow(rows: seq<IndexRow>, table: string, name: string) {
    exists i :: 0 <= i < |rows| && rows[i].table == table && rows[i].index == name
  }

  /** Rows for every index of every table, over its columns. */
  ghost predicate IndexRowsOf(rows: seq<IndexRow>, live: LiveDb) {
    && (forall r :: r in rows ==>
          && r.table in live && r.index in live[r.table].indexes && r.column in live[r.table].indexes[r.index])
    && (forall t, n :: t in live && n in live[t].indexes ==> HasIndexRow(rows, t, n))
  }

  ghost predicate RowsOf(columnRows: seq<ColumnRow>, indexRows: seq<IndexRow>, live: LiveDb) {
    ColumnRowsOf(columnRows, live) && IndexRowsOf(indexRows, live)
  }

  // --- the introspected schema ---------------------------------------------

  function SnapshotTable(columnRows: seq<ColumnRow>, indexRows: seq<IndexRow>, table: string): TableDef {
    TableDef(table, ColumnsFor(columnRows, table), IndexesFor(indexRows, DottedKeys(indexRows), table), None)
  }

  function Snapshot(columnRows: seq<ColumnRow>, indexRows: seq<IndexRow>): map<string, TableDef> {
    map t | t in TablesOfColumns(columnRows) + TablesOfIndexes(indexRows) :: SnapshotTable(columnRows, indexRows, t)
  }

  method IntrospectSchema(columnRows: seq<ColumnRow>, indexRows: seq<IndexRow>)
    returns (current: map<string, TableDef>)
    ensures current == Snapshot(columnRows, indexRows)
  {
    var schema := BuildSchema(columnRows, indexRows);
    current := map t | t in schema :: TableDef(t, schema[t].columns, Values(schema[t].indexes), None);
  }

  // --- columns -------------------------------------------------------------

  lemma {:induction false} ColumnsForExact(rows: seq<ColumnRow>, table: string, c: ColumnDef)
    ensures c in ColumnsFor(rows, table) <==> ColumnRow(table, c) in rows
  {
    if rows == [] {
    } else {
      var n := |rows| - 1;
      ColumnsForExact(rows[..n], table, c);
      assert forall r :: r in rows <==> r in rows[..n] || r == rows[n];
    }
  }

  lemma {:induction false} ColumnsForDistinct(rows: seq<ColumnRow>, table: string)
    requires forall i, j :: 0 <= i < j < |rows| && rows[i].table == rows[j].table ==>
      rows[i].column.name != rows[j].column.name
    ensures var columns := ColumnsFor(rows, table);
      forall i, j :: 0 <= i < j < |columns| ==> columns[i].name != columns[j].name
  {
    if rows == [] {
    } else {
      var n := |rows| - 1;
      var before := ColumnsFor(rows[..n], table);
      ColumnsForDistinct(rows[..n], table);
      forall i | 0 <= i < |before| && rows[n].table == table ensures before[i].name != rows[n].column.name {
        ColumnsForExact(rows[..n], table, before[i]);
        var k :| 0 <= k < n && rows[k] == ColumnRow(table, before[i]);
      }
    }
  }

  lemma {:induction false} ColumnsDescribed(rows: seq<ColumnRow>, live: LiveDb, table: string)
    requires ColumnRowsOf(rows, live) && table in live
    ensures var columns := ColumnsFor(rows, table);
      && (forall i, j :: 0 <= i < j < |columns| ==> columns[i].name != columns[j].name)
      && Names(columns) == live[table].columns.Keys
      && (forall c :: c in columns ==> Visible(live[table], c.name) == LiveColumn(c.coltype, c.nullable))
  {
    var columns := ColumnsFor(rows, table);
    ColumnsForDistinct(rows, table);
    forall c | c in columns
      ensures c.name in live[table].columns
      ensures Visible(live[table], c.name) == LiveColumn(c.coltype, c.nullable)
    {
      ColumnsForExact(rows, table, c);
      assert ColumnRow(table, c).table in live;
    }
    forall n | n in live[table].columns ensures n in Names(columns) {
      assert HasColumnRow(rows, table, n);
      var r :| r in rows && r.table == table && r.column.name == n;
      assert r == ColumnRow(table, r.column);
      ColumnsForExact(rows, table, r.column);
    }
  }

  // --- indexes -------------------------------------------------------------

  /** An index is listed under the name of a row, if that row is the first of its table with its key. */
  lemma {:induction false} NamesListed<K>(rows: seq<IndexRow>, keys: seq<K>, table: string, n: string)
    requires |keys| == |rows|
    ensures (exists i :: i in IndexesFor(rows, keys, table) && i.name == n) <==>
      exists p: nat :: p < |rows| && keys[p] !in keys[..p] && rows[p].table == table && rows[p].index == n
  {
    var starts := Starts(rows, keys, table);
    var indexes := IndexesFor(rows, keys, table);
    StartsExact(rows, keys, table);
    assert forall k :: 0 <= k < |starts| ==> starts[k] in starts && indexes[k].name == rows[starts[k]].index;
    if i :| i in indexes && i.name == n {
      var k :| 0 <= k < |indexes| && indexes[k] == i;
      assert starts[k] in starts;
    }
    if p: nat :| p < |rows| && keys[p] !in keys[..p] && rows[p].table == table && rows[p].index == n {
      assert p in starts;
      var k :| 0 <= k < |starts| && starts[k] == p;
      assert indexes[k] in indexes;
    }
  }

  ghost predicate IndexesDescribed(rows: seq<IndexRow>, live: LiveDb, table: string)
    requires table in live
  {
    forall n :: n in live[table].indexes <==>
      exists i :: i in IndexesFor(rows, DottedKeys(rows), table) && i.name == n
  }

  /** Grouped by table and index, nothing is lost. */
  lemma {:induction false} PairsDescribe(rows: seq<IndexRow>, live: LiveDb, table: string, n: string)
    requires IndexRowsOf(rows, live) && table in live
    ensures n in live[table].indexes <==> exists i :: i in IndexesFor(rows, PairKeys(rows), table) && i.name == n
  {
    var pairs := PairKeys(rows);
    NamesListed(rows, pairs, table, n);
    if n in live[table].indexes {
      assert HasIndexRow(rows, table, n);
      var i :| 0 <= i < |rows| && rows[i].table == table && rows[i].index == n;
      assert pairs[i] == (table, n);
      var p := First(pairs, (table, n));
      assert pairs[p] == PairKey(rows[p]) && pairs[p] !in pairs[..p];
    }
    if p: nat :| p < |rows| && pairs[p] !in pairs[..p] && rows[p].table == table && rows[p].index == n {
      assert rows[p] in rows;
    }
  }

  /** A row whose dotted key another index used first: its index is not listed. */
  lemma {:induction false} LostIsNotDescribed(rows: seq<IndexRow>, live: LiveDb, j: nat)
    requires IndexRowsOf(rows, live) && j < |rows|
    requires PairKey(rows[First(DottedKeys(rows), DottedKeys(rows)[j])]) != PairKey(rows[j])
    ensures rows[j].table in live && !IndexesDescribed(rows, live, rows[j].table)
  {
    var dotted, table, n := DottedKeys(rows), rows[j].table, rows[j].index;
    assert rows[j] in rows && n in live[table].indexes;
    NamesListed(rows, dotted, table, n);
    forall p: nat | p < |rows| && dotted[p] !in dotted[..p] && rows[p].table == table ensures rows[p].index != n {
      NotTheLostOne(rows, j, p);
    }
  }

  lemma {:induction false} IndexesDescribedExactly(rows: seq<IndexRow>, live: LiveDb)
    requires IndexRowsOf(rows, live)
    ensures (forall t :: t in live ==> IndexesDescribed(rows, live, t)) <==> DottedKeysApart(rows)
  {
    if DottedKeysApart(rows) {
      DottedGroupingExact(rows);
      forall t, n | t in live
        ensures n in live[t].indexes <==> exists i :: i in IndexesFor(rows, DottedKeys(rows), t) && i.name == n
      {
        PairsDescribe(rows, live, t, n);
      }
    } else {
      var j := SomeLostRow(rows);
      LostIsNotDescribed(rows, live, j);
    }
  }

  // --- the whole database --------------------------------------------------

  ghost predicate HaveColumns(live: LiveDb) { forall t :: t in live ==> live[t].columns != map[] }

  lemma {:induction false} SnapshotKeys(columnRows: seq<ColumnRow>, indexRows: seq<IndexRow>, live: LiveDb)
    requires RowsOf(columnRows, indexRows, live) && HaveColumns(live)
    ensures Snapshot(columnRows, indexRows).Keys == live.Keys
  {
    forall t | t in live ensures t in TablesOfColumns(columnRows) {
      var c :| c in live[t].columns;
      assert HasColumnRow(columnRows, t, c);
    }
  }

  lemma {:induction false} SnapshotTableDescribed(columnRows: seq<ColumnRow>, indexRows: seq<IndexRow>, live: LiveDb,
                                                  table: string)
    requires ColumnRowsOf(columnRows, live) && table in live
    ensures Describes(SnapshotTable(columnRows, indexRows, table), live[table]) <==>
            IndexesDescribed(indexRows, live, table)
  {
    ColumnsDescribed(columnRows, live, table);
  }

  /** Introspection describes the database it reads exactly when no two of its dotted keys collide. */
  lemma {:induction false} SnapshotDescribesExactly(columnRows: seq<ColumnRow>, indexRows: seq<IndexRow>, live: LiveDb)
    requires RowsOf(columnRows, indexRows, live) && HaveColumns(live)
    ensures DescribesDb(Snapshot(columnRows, indexRows), live) <==> DottedKeysApart(indexRows)
  {
    var current := Snapshot(columnRows, indexRows);
    SnapshotKeys(columnRows, indexRows, live);
    IndexesDescribedExactly(indexRows, live);
    forall t | t in live ensures Describes(current[t], live[t]) <==> IndexesDescribed(indexRows, live, t) {
      SnapshotTableDescribed(columnRows, indexRows, live, t);
      assert current[t] == SnapshotTable(columnRows, indexRows, t);
    }
  }

  lemma {:induction false} RunOpKeepsColumns(op: Op, table: Option<LiveTable>, server: Server)
    requires table.Some? ==> table.value.columns != map[]
    ensures var s := RunOp(op, table, server); s.At? ==> s.table.value.columns != map[]
  {
    match op
    case CreateTable(def) =>
      var s := server.create(CreateText(def));
      if s.Some? && Acceptable(s.value, server) {
        PutColumnsExact(s.value.columns);
        assert s.value.columns[0] in s.value.columns;
        assert s.value.columns[0].name in PutColumns(s.value.columns);
      }
    case AddColumn(raw) =>
    case ModifyColumn(raw) =>
    case DropColumn(name) =>
      if table.Some? {
        assert forall c :: c in table.value.columns && c != name ==> c in table.value.columns - {name};
        assert table.value.columns.Keys != {name} && name in table.value.columns ==>
          exists c :: c in table.value.columns && c != name;
      }
    case AddIndex(i) =>
    case DropIndex(name) =>
  }

  lemma {:induction false} RunKeepsColumns(items: seq<DiffItem>, live: LiveDb, server: Server)
    requires HaveColumns(live)
    ensures var r := RunItems(items, live, server); r.Some? ==> HaveColumns(r.value)
  {
    if items == [] {
    } else {
      var n := |items| - 1;
      RunKeepsColumns(items[..n], live, server);
      var before := RunItems(items[..n], live, server);
      if before.Some? {
        RunOpKeepsColumns(items[n].op, LookupLive(before.value, server.table(items[n].table)), server);
      }
    }
  }

  /**
   * Introspecting, diffing, running the statements and introspecting again: with dotted keys
   * apart the second diff is empty under the conditions `Convergible` gives in terms of the live
   * database, whatever order the rows come in.
   */
  lemma {:induction false} IntrospectedDiffConverges(
    desired: seq<TableDef>, columnRows: seq<ColumnRow>, indexRows: seq<IndexRow>, live: LiveDb,
    columnRows': seq<ColumnRow>, indexRows': seq<IndexRow>, server: Server)
    requires PicksFreshNames(server) && KeepsTableNames(server)
    requires DistinctTables(desired) && forall t :: t in desired ==> ColumnsOk(t.columns, server)
    requires ValidDb(live, server) && RowsOf(columnRows, indexRows, live)
    requires DottedKeysApart(indexRows) && DottedKeysApart(indexRows')
    requires var r := RunItems(SchemaDiffOf(desired, Snapshot(columnRows, indexRows)), live, server);
      r.Some? ==> RowsOf(columnRows', indexRows', r.value)
    ensures var current, after := Snapshot(columnRows, indexRows), Snapshot(columnRows', indexRows');
            var r := RunItems(SchemaDiffOf(desired, current), live, server);
            var converges := r.Some? && SchemaDiffOf(desired, after) == [];
            var convergible := forall t :: t in desired ==> Settles(t, current, live, server);
      && (convergible ==> converges)
      && ((forall t :: t in desired && t.name !in live ==> IndexesRead(t, server)) ==> (converges ==> convergible))
      && (converges ==> forall t :: t in desired ==> t.name in r.value && Matches(t, r.value[t.name]))
  {
    var current, after := Snapshot(columnRows, indexRows), Snapshot(columnRows', indexRows');
    var r := RunItems(SchemaDiffOf(desired, current), live, server);
    assert HaveColumns(live);
    SnapshotDescribesExactly(columnRows, indexRows, live);
    RunKeepsColumns(SchemaDiffOf(desired, current), live, server);
    if r.Some? {
      SnapshotDescribesExactly(columnRows', indexRows', r.value);
    }
    DiffConvergesExactly(desired, current, live, after, server);
  }
}
