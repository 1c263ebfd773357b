/** Assembling the live schema from information_schema rows: one row per column, one per index column. */
module SchemaIntrospector {
  import opened Common
  import opened SchemaModel

  datatype ColumnRow = ColumnRow(table: string, column: ColumnDef)
  datatype IndexRow = IndexRow(table: string, index: string, nonUnique: int, column: string)

  // --- what the assembly should give ---------------------------------------

  /** The columns of one table, in row order. */
  function ColumnsFor(rows: seq<ColumnRow>, table: string): seq<ColumnDef> {
    if rows == [] then []
    else
      var last := rows[|rows| - 1];
      ColumnsFor(rows[..|rows| - 1], table) + (if last.table == table then [last.column] else [])
  }

  /** Where a group of index rows starts: at the first row with its key, if that row is of this table. */
  function Starts<K(==)>(rows: seq<IndexRow>, keys: seq<K>, table: string): (starts: seq<nat>)
    requires |keys| == |rows|
    ensures forall i :: 0 <= i < |starts| ==> starts[i] < |rows|
  {
    if rows == [] then []
    else
      var n := |rows| - 1;
      Starts(rows[..n], keys[..n], table)
      + (if keys[n] !in keys[..n] && rows[n].table == table then [n] else [])
  }

  /** The columns of the rows with one key, in row order. */
  function ColumnsWith<K(==)>(rows: seq<IndexRow>, keys: seq<K>, key: K): seq<string>
    requires |keys| == |rows|
  {
    if rows == [] then []
    else
      var n := |rows| - 1;
      ColumnsWith(rows[..n], keys[..n], key) + (if keys[n] == key then [rows[n].column] else [])
  }

  /** The index made of a group: its first row names it, all its rows give columns. */
  function GroupAt<K(==)>(rows: seq<IndexRow>, keys: seq<K>, p: nat): IndexDef
    requires |keys| == |rows| && p < |rows|
  {
    IndexDef(rows[p].index, ColumnsWith(rows, keys, keys[p]), rows[p].nonUnique == 0)
  }

  function IndexesFor<K(==)>(rows: seq<IndexRow>, keys: seq<K>, table: string): (indexes: seq<IndexDef>)
    requires |keys| == |rows|
    ensures |indexes| == |Starts(rows, keys, table)|
  {
    var starts := Starts(rows, keys, table);
    seq(|starts|, i requires 0 <= i < |starts| => GroupAt(rows, keys, starts[i]))
  }

  /** The accumulator's key, and the key that is meant. */
  function DottedKey(row: IndexRow): string { row.table + "." + row.index }
  function PairKey(row: IndexRow): (string, string) { (row.table, row.index) }

  function DottedKeys(rows: seq<IndexRow>): seq<string> {
    seq(|rows|, i requires 0 <= i < |rows| => DottedKey(rows[i]))
  }

  function PairKeys(rows: seq<IndexRow>): seq<(string, string)> {
    seq(|rows|, i requires 0 <= i < |rows| => PairKey(rows[i]))
  }

  function TablesOfColumns(rows: seq<ColumnRow>): set<string> { set r | r in rows :: r.table }
  function TablesOfIndexes(rows: seq<IndexRow>): set<string> { set r | r in rows :: r.table }

  // --- the accumulator on values: keys stand for index objects --------------

  datatype Groups<K> = Groups(hung: map<string, seq<K>>, store: map<K, IndexDef>)

  function EnsureTableIn<K>(g: Groups<K>, table: string): Groups<K> {
    if table in g.hung then g else g.(hung := g.hung[table := []])
  }

  function EnsureIndexIn<K(==)>(g: Groups<K>, key: K, row: IndexRow): Groups<K>
    requires row.table in g.hung
  {
    if key in g.store then g
    else Groups(g.hung[row.table := g.hung[row.table] + [key]],
                g.store[key := IndexDef(row.index, [], row.nonUnique == 0)])
  }

  function AppendIn<K(==)>(g: Groups<K>, key: K, column: string): Groups<K>
    requires key in g.store
  {
    g.(store := g.store[key := g.store[key].(columns := g.store[key].columns + [column])])
  }

  function AddRow<K(==)>(g: Groups<K>, key: K, row: IndexRow): Groups<K> {
    AppendIn(EnsureIndexIn(EnsureTableIn(g, row.table), key, row), key, row.column)
  }

  /** The accumulator after every prefix of the rows, from a given start. */
  ghost predicate Chained<K>(stages: seq<Groups<K>>, rows: seq<IndexRow>, keys: seq<K>)
    requires |keys| == |rows| && |stages| == |rows| + 1
    decreases rows
  {
    var n := |rows|;
    n == 0 || (Chained(stages[..n], rows[..n - 1], keys[..n - 1])
               && stages[n] == AddRow(stages[n - 1], keys[n - 1], rows[n - 1]))
  }

  ghost function Stages<K>(g: Groups<K>, rows: seq<IndexRow>, keys: seq<K>): (stages: seq<Groups<K>>)
    requires |keys| == |rows|
    ensures |stages| == |rows| + 1 && stages[0] == g && Chained(stages, rows, keys)
  {
    if rows == [] then [g]
    else
      var n := |rows| - 1;
      var before := Stages(g, rows[..n], keys[..n]);
      var stages := before + [AddRow(before[n], keys[n], rows[n])];
      assert stages[..n + 1] == before;
      stages
  }

  lemma {:induction false} ChainedAt<K>(stages: seq<Groups<K>>, rows: seq<IndexRow>, keys: seq<K>, n: nat)
    requires |keys| == |rows| && |stages| == |rows| + 1 && Chained(stages, rows, keys)
    requires n < |rows|
    ensures stages[n + 1] == AddRow(stages[n], keys[n], rows[n])
    decreases rows
  {
    var last := |rows| - 1;
    if n < last {
      ChainedAt(stages[..last + 1], rows[..last], keys[..last], n);
    }
  }

  // --- what the accumulator holds ------------------------------------------

  lemma {:induction false} StartsSnoc<K>(rows: seq<IndexRow>, keys: seq<K>, row: IndexRow, key: K, table: string)
    requires |keys| == |rows|
    ensures Starts(rows + [row], keys + [key], table)
         == Starts(rows, keys, table) + (if key !in keys && row.table == table then [|rows|] else [])
  {
  }

  lemma {:induction false} ColumnsWithSnoc<K>(rows: seq<IndexRow>, keys: seq<K>, row: IndexRow, key: K, k: K)
    requires |keys| == |rows|
    ensures ColumnsWith(rows + [row], keys + [key], k)
         == ColumnsWith(rows, keys, k) + (if key == k then [row.column] else [])
  {
  }

  lemma {:induction false} NoRowsNoGroup<K>(rows: seq<IndexRow>, keys: seq<K>, key: K)
    requires |keys| == |rows| && key !in keys
    ensures ColumnsWith(rows, keys, key) == []
  {
    if rows == [] {
    } else {
      assert keys[|rows| - 1] in keys;
      NoRowsNoGroup(rows[..|rows| - 1], keys[..|rows| - 1], key);
    }
  }

  lemma {:induction false} NoRowsNoStarts<K>(rows: seq<IndexRow>, keys: seq<K>, table: string)
    requires |keys| == |rows| && table !in TablesOfIndexes(rows)
    ensures Starts(rows, keys, table) == []
  {
    if rows == [] {
    } else {
      var n := |rows| - 1;
      assert rows[n] in rows;
      assert forall r :: r in rows[..n] ==> r in rows;
      NoRowsNoStarts(rows[..n], keys[..n], table);
    }
  }

  /** Tables, keys and columns are exactly those of the rows. */
  ghost predicate StoresRows<K>(g: Groups<K>, tables: set<string>, rows: seq<IndexRow>, keys: seq<K>)
    requires |keys| == |rows|
  {
    && g.hung.Keys == tables + TablesOfIndexes(rows)
    && (forall i :: 0 <= i < |keys| ==> keys[i] in g.store)
    && (forall k :: k in g.store ==> k in keys && g.store[k].columns == ColumnsWith(rows, keys, k))
  }

  /** One table's list names the groups that start there, and they are named by their first rows. */
  ghost predicate Hangs<K>(g: Groups<K>, table: string, starts: seq<nat>, rows: seq<IndexRow>, keys: seq<K>)
    requires |keys| == |rows|
  {
    && table in g.hung
    && |g.hung[table]| == |starts|
    && (forall i :: 0 <= i < |starts| ==>
          && starts[i] < |rows| && g.hung[table][i] == keys[starts[i]] && keys[starts[i]] in g.store
          && g.store[keys[starts[i]]].name == rows[starts[i]].index
          && g.store[keys[starts[i]]].unique == (rows[starts[i]].nonUnique == 0))
  }

  lemma {:induction false} TablesOfIndexesSnoc(rows: seq<IndexRow>, row: IndexRow)
    ensures TablesOfIndexes(rows + [row]) == TablesOfIndexes(rows) + {row.table}
  {
  }

  lemma {:induction false} AddRowTables<K>(g: Groups<K>, key: K, row: IndexRow)
    ensures AddRow(g, key, row).hung.Keys == g.hung.Keys + {row.table}
    ensures AddRow(g, key, row).store.Keys == g.store.Keys + {key}
  {
  }

  lemma {:induction false} StoredColumnsStep<K>(g: Groups<K>, rows: seq<IndexRow>, keys: seq<K>, row: IndexRow,
                                                key: K, k: K)
    requires |keys| == |rows| && (key in keys ==> key in g.store)
    requires k in g.store ==> k in keys && g.store[k].columns == ColumnsWith(rows, keys, k)
    requires k in AddRow(g, key, row).store
    ensures k in keys + [key] && AddRow(g, key, row).store[k].columns == ColumnsWith(rows + [row], keys + [key], k)
  {
    ColumnsWithSnoc(rows, keys, row, key, k);
    if key !in g.store {
      NoRowsNoGroup(rows, keys, key);
    }
  }

  lemma {:induction false} StoresRowsStep<K>(g: Groups<K>, tables: set<string>, rows: seq<IndexRow>, keys: seq<K>,
                                             row: IndexRow, key: K)
    requires |keys| == |rows| && StoresRows(g, tables, rows, keys)
    ensures StoresRows(AddRow(g, key, row), tables, rows + [row], keys + [key])
  {
    AddRowTables(g, key, row);
    TablesOfIndexesSnoc(rows, row);
    forall k | k in AddRow(g, key, row).store
      ensures k in keys + [key] && AddRow(g, key, row).store[k].columns == ColumnsWith(rows + [row], keys + [key], k)
    {
      StoredColumnsStep(g, rows, keys, row, key, k);
    }
  }

  lemma {:induction false} HangsStep<K>(g: Groups<K>, starts: seq<nat>, rows: seq<IndexRow>, keys: seq<K>,
                                        row: IndexRow, key: K, table: string)
    requires |keys| == |rows| && (key in keys <==> key in g.store)
    requires if table in g.hung then Hangs(g, table, starts, rows, keys) else starts == [] && table == row.table
    ensures Hangs(AddRow(g, key, row), table, starts + (if key !in keys && row.table == table then [|rows|] else []),
                  rows + [row], keys + [key])
  {}

  lemma {:induction false} HangsStartsStep<K>(g: Groups<K>, tables: set<string>, rows: seq<IndexRow>, keys: seq<K>,
                                              row: IndexRow, key: K, table: string)
    requires |keys| == |rows| && StoresRows(g, tables, rows, keys)
    requires table in g.hung ==> Hangs(g, table, Starts(rows, keys, table), rows, keys)
    requires table in g.hung || table == row.table
    ensures Hangs(AddRow(g, key, row), table, Starts(rows + [row], keys + [key], table), rows + [row], keys + [key])
  {
    StartsSnoc(rows, keys, row, key, table);
    if table !in g.hung {
      NoRowsNoStarts(rows, keys, table);
    }
    HangsStep(g, Starts(rows, keys, table), rows, keys, row, key, table);
  }

  lemma {:induction false} AccumulatorStep<K>(g: Groups<K>, tables: set<string>, rows: seq<IndexRow>, keys: seq<K>,
                                              row: IndexRow, key: K, g': Groups<K>, rows': seq<IndexRow>, keys': seq<K>)
    requires |keys| == |rows| && StoresRows(g, tables, rows, keys)
    requires forall t :: t in g.hung ==> Hangs(g, t, Starts(rows, keys, t), rows, keys)
    requires g' == AddRow(g, key, row) && rows' == rows + [row] && keys' == keys + [key]
    ensures StoresRows(g', tables, rows', keys')
    ensures forall t :: t in g'.hung ==> Hangs(g', t, Starts(rows', keys', t), rows', keys')
  {
    StoresRowsStep(g, tables, rows, keys, row, key);
    forall t | t in g'.hung ensures Hangs(g', t, Starts(rows', keys', t), rows', keys') {
      HangsStartsStep(g, tables, rows, keys, row, key, t);
    }
  }

  /** After all rows, every table has its groups in first-seen order with exactly their rows' columns. */
  lemma {:induction false} AccumulatorExact<K>(tables: set<string>, rows: seq<IndexRow>, keys: seq<K>,
                                               stages: seq<Groups<K>>)
    requires |keys| == |rows| && |stages| == |rows| + 1 && Chained(stages, rows, keys)
    requires stages[0] == Groups(map t | t in tables :: [], map[])
    ensures StoresRows(stages[|rows|], tables, rows, keys)
    ensures forall t :: t in stages[|rows|].hung ==> Hangs(stages[|rows|], t, Starts(rows, keys, t), rows, keys)
    decreases rows
  {
    if rows == [] {
    } else {
      var n := |rows| - 1;
      assert rows == rows[..n] + [rows[n]] && keys == keys[..n] + [keys[n]];
      AccumulatorExact(tables, rows[..n], keys[..n], stages[..n + 1]);
      AccumulatorStep(stages[n], tables, rows[..n], keys[..n], rows[n], keys[n], stages[n + 1], rows, keys);
    }
  }

  // --- the assembly --------------------------------------------------------

  /** An index under construction: the accumulator and its table share this object. */
  class IndexObject {
    const name: string
    const unique: bool
    var columns: seq<string>

    constructor (name: string, unique: bool)
      ensures this.name == name && this.unique == unique && columns == []
    {
      this.name, this.unique, this.columns := name, unique, [];
    }
  }

  datatype TableEntry = TableEntry(columns: seq<ColumnDef>, indexes: seq<IndexObject>)

  function Values(objects: seq<IndexObject>): (values: seq<IndexDef>)
    reads objects
    ensures |values| == |objects|
    ensures forall i :: 0 <= i < |objects| ==>
      values[i] == IndexDef(objects[i].name, objects[i].columns, objects[i].unique)
  {
    seq(|objects|, i requires 0 <= i < |objects| reads objects =>
      IndexDef(objects[i].name, objects[i].columns, objects[i].unique))
  }

  function TableOf(schema: map<string, TableEntry>, name: string): TableEntry {
    if name in schema then schema[name] else TableEntry([], [])
  }

  lemma {:induction false} NoRowsNoColumns(rows: seq<ColumnRow>, table: string)
    requires table !in TablesOfColumns(rows)
    ensures ColumnsFor(rows, table) == []
  {
    if rows == [] {
    } else {
      assert rows[|rows| - 1] in rows;
      NoRowsNoColumns(rows[..|rows| - 1], table);
    }
  }

  lemma {:induction false} TablesOfColumnsSnoc(rows: seq<ColumnRow>, n: nat)
    requires n < |rows|
    ensures TablesOfColumns(rows[..n + 1]) == TablesOfColumns(rows[..n]) + {rows[n].table}
  {
  }

  method AddColumnRows(columnRows: seq<ColumnRow>) returns (schema: map<string, TableEntry>)
    ensures schema.Keys == TablesOfColumns(columnRows)
    ensures forall t :: t in schema ==> schema[t] == TableEntry(ColumnsFor(columnRows, t), [])
  {
    schema := map[];
    for i := 0 to |columnRows|
      invariant schema.Keys == TablesOfColumns(columnRows[..i])
      invariant forall t :: t in schema ==> schema[t] == TableEntry(ColumnsFor(columnRows[..i], t), [])
    {
      var row := columnRows[i];
      assert columnRows[..i + 1][..i] == columnRows[..i];
      TablesOfColumnsSnoc(columnRows, i);
      if row.table !in schema {
        NoRowsNoColumns(columnRows[..i], row.table);
      }
      var table := TableOf(schema, row.table);
      schema := schema[row.table := table.(columns := table.columns + [row.column])];
    }
    assert columnRows[..|columnRows|] == columnRows;
  }

  /** Each key has an object of its own, made for it. */
  ghost predicate Filed<K>(store: map<K, IndexDef>, acc: map<K, IndexObject>, keyOf: map<IndexObject, K>) {
    && acc.Keys == store.Keys
    && (forall k :: k in acc ==> acc[k] in keyOf && keyOf[acc[k]] == k)
    && (forall k :: k in acc ==> acc[k].name == store[k].name && acc[k].unique == store[k].unique)
  }

  /** A table's list holds the very objects the accumulator has for the keys hung on it. */
  ghost predicate Shared<K>(hung: map<string, seq<K>>, schema: map<string, TableEntry>, acc: map<K, IndexObject>) {
    && schema.Keys == hung.Keys
    && (forall t :: t in schema ==> |schema[t].indexes| == |hung[t]|)
    && (forall t, i :: t in schema && 0 <= i < |hung[t]| ==>
          hung[t][i] in acc && schema[t].indexes[i] == acc[hung[t][i]])
  }

  /** Index rows leave the columns alone: a table they add has none. */
  ghost predicate SameColumns(schema0: map<string, TableEntry>, schema: map<string, TableEntry>) {
    && (forall t :: t in schema0 ==> t in schema && schema[t].columns == schema0[t].columns)
    && (forall t :: t in schema ==> t in schema0 || schema[t].columns == [])
  }

  lemma {:induction false} EnsureTableShares<K>(g: Groups<K>, schema: map<string, TableEntry>,
                                                acc: map<K, IndexObject>, table: string)
    requires Shared(g.hung, schema, acc)
    ensures Shared(EnsureTableIn(g, table).hung, schema[table := TableOf(schema, table)], acc)
    ensures SameColumns(schema, schema[table := TableOf(schema, table)])
  {}

  lemma {:induction false} SameColumnsTwice(a: map<string, TableEntry>, b: map<string, TableEntry>,
                                            c: map<string, TableEntry>)
    requires SameColumns(a, b) && SameColumns(b, c)
    ensures SameColumns(a, c)
  {
  }

  /** Hanging a new object on the row's table. */
  lemma {:induction false} NewIndexShared<K>(g: Groups<K>, schema: map<string, TableEntry>, acc: map<K, IndexObject>,
                                             key: K, row: IndexRow, index: IndexObject)
    requires row.table in schema && Shared(g.hung, schema, acc) && acc.Keys == g.store.Keys && key !in acc
    ensures var entry := schema[row.table];
      Shared(EnsureIndexIn(g, key, row).hung, schema[row.table := entry.(indexes := entry.indexes + [index])],
             acc[key := index])
  {
  }

  /** The index of a key, made and hung on the row's table if the key is new. */
  method EnsureIndex<K(==)>(schema: map<string, TableEntry>, acc: map<K, IndexObject>, key: K, row: IndexRow,
                            ghost g: Groups<K>, ghost keyOf: map<IndexObject, K>)
    returns (schema': map<string, TableEntry>, acc': map<K, IndexObject>, ghost keyOf': map<IndexObject, K>)
    requires row.table in schema && Shared(g.hung, schema, acc) && Filed(g.store, acc, keyOf)
    requires forall k :: k in acc ==> acc[k].columns == g.store[k].columns
    ensures Shared(EnsureIndexIn(g, key, row).hung, schema', acc')
    ensures Filed(EnsureIndexIn(g, key, row).store, acc', keyOf')
    ensures forall k :: k in acc' ==> acc'[k].columns == EnsureIndexIn(g, key, row).store[k].columns
    ensures schema'.Keys == schema.Keys && forall t :: t in schema ==> schema'[t].columns == schema[t].columns
    ensures key in acc' && acc'[key] in keyOf'
    ensures forall o :: o in keyOf' ==> o in keyOf || fresh(o)
  {
    if key in acc {
      schema', acc', keyOf' := schema, acc, keyOf;
    } else {
      var index := new IndexObject(row.index, row.nonUnique == 0);
      NewIndexShared(g, schema, acc, key, row, index);
      acc', keyOf' := acc[key := index], keyOf[index := key];
      var table := schema[row.table];
      schema' := schema[row.table := table.(indexes := table.indexes + [index])];
    }
  }

  /** The row's column goes to the object of its key, and to no other. */
  method AppendColumn<K(==)>(index: IndexObject, column: string, ghost acc: map<K, IndexObject>, ghost key: K,
                             ghost g: Groups<K>, ghost keyOf: map<IndexObject, K>)
    requires Filed(g.store, acc, keyOf) && key in acc && acc[key] == index
    requires forall k :: k in acc ==> acc[k].columns == g.store[k].columns
    modifies index`columns
    ensures Filed(AppendIn(g, key, column).store, acc, keyOf)
    ensures forall k :: k in acc ==> acc[k].columns == AppendIn(g, key, column).store[k].columns
  {
    index.columns := index.columns + [column];
  }

  /** One index row: its table and its index, each made if new, and the column appended to the index. */
  method AddIndexRow<K(==)>(schema: map<string, TableEntry>, acc: map<K, IndexObject>, rows: seq<IndexRow>,
                            keys: seq<K>, i: nat, ghost stages: seq<Groups<K>>, ghost keyOf: map<IndexObject, K>)
    returns (schema': map<string, TableEntry>, acc': map<K, IndexObject>, ghost keyOf': map<IndexObject, K>)
    requires i < |rows| == |keys| && |stages| == |rows| + 1 && Chained(stages, rows, keys)
    requires Shared(stages[i].hung, schema, acc) && Filed(stages[i].store, acc, keyOf)
    requires forall k :: k in acc ==> acc[k].columns == stages[i].store[k].columns
    modifies keyOf.Keys`columns
    ensures Shared(stages[i + 1].hung, schema', acc') && Filed(stages[i + 1].store, acc', keyOf')
    ensures forall k :: k in acc' ==> acc'[k].columns == stages[i + 1].store[k].columns
    ensures SameColumns(schema, schema')
    ensures forall o :: o in keyOf' ==> o in keyOf || fresh(o)
  {
    var row, key := rows[i], keys[i];
    ghost var g0 := EnsureTableIn(stages[i], row.table);
    ghost var g1 := EnsureIndexIn(g0, key, row);
    assert stages[i + 1] == AppendIn(g1, key, row.column) by {
      ChainedAt(stages, rows, keys, i);
    }
    EnsureTableShares(stages[i], schema, acc, row.table);
    schema' := schema[row.table := TableOf(schema, row.table)];
    schema', acc', keyOf' := EnsureIndex(schema', acc, key, row, g0, keyOf);
    AppendColumn(acc'[key], row.column, acc', key, g1, keyOf');
  }

  method AddIndexRows<K(==)>(schema0: map<string, TableEntry>, rows: seq<IndexRow>, keys: seq<K>,
                             ghost stages: seq<Groups<K>>)
    returns (schema: map<string, TableEntry>, ghost acc: map<K, IndexObject>, ghost keyOf: map<IndexObject, K>)
    requires |keys| == |rows| && |stages| == |rows| + 1 && Chained(stages, rows, keys)
    requires Shared(stages[0].hung, schema0, map[]) && stages[0].store == map[]
    ensures Shared(stages[|rows|].hung, schema, acc) && Filed(stages[|rows|].store, acc, keyOf)
    ensures forall k :: k in acc ==> acc[k].columns == stages[|rows|].store[k].columns
    ensures SameColumns(schema0, schema)
  {
    schema := schema0;
    var accumulator: map<K, IndexObject> := map[];
    keyOf := map[];
    for i := 0 to |rows|
      invariant Shared(stages[i].hung, schema, accumulator) && Filed(stages[i].store, accumulator, keyOf)
      invariant forall k :: k in accumulator ==> accumulator[k].columns == stages[i].store[k].columns
      invariant SameColumns(schema0, schema)
      invariant forall o :: o in keyOf ==> fresh(o)
    {
      ghost var before := schema;
      schema, accumulator, keyOf := AddIndexRow(schema, accumulator, rows, keys, i, stages, keyOf);
      SameColumnsTwice(schema0, before, schema);
    }
    acc := accumulator;
  }

  lemma {:induction false} SharedValues<K>(g: Groups<K>, schema: map<string, TableEntry>, acc: map<K, IndexObject>,
                                           keyOf: map<IndexObject, K>, rows: seq<IndexRow>, keys: seq<K>, table: string)
    requires |keys| == |rows| && table in schema
    requires Shared(g.hung, schema, acc) && Filed(g.store, acc, keyOf)
    requires forall k :: k in acc ==> acc[k].columns == g.store[k].columns
    requires Hangs(g, table, Starts(rows, keys, table), rows, keys)
    requires forall k :: k in g.store ==> g.store[k].columns == ColumnsWith(rows, keys, k)
    ensures Values(schema[table].indexes) == IndexesFor(rows, keys, table)
  {}

  /**
   * Every table that occurs has its column rows in order, and its indexes are the groups
   * the dotted keys make of all index rows, whatever the rows are.
   */
  method BuildSchema(columnRows: seq<ColumnRow>, indexRows: seq<IndexRow>) returns (schema: map<string, TableEntry>)
    ensures schema.Keys == TablesOfColumns(columnRows) + TablesOfIndexes(indexRows)
    ensures forall t :: t in schema ==> schema[t].columns == ColumnsFor(columnRows, t)
    ensures forall t :: t in schema ==> Values(schema[t].indexes) == IndexesFor(indexRows, DottedKeys(indexRows), t)
  {
    var tables := AddColumnRows(columnRows);
    var keys := DottedKeys(indexRows);
    ghost var stages := Stages(Groups(map t | t in tables.Keys :: [], map[]), indexRows, keys);
    ghost var acc, keyOf;
    schema, acc, keyOf := AddIndexRows(tables, indexRows, keys, stages);
    AccumulatorExact(tables.Keys, indexRows, keys, stages);
    forall t | t in schema ensures schema[t].columns == ColumnsFor(columnRows, t) {
      if t !in tables {
        NoRowsNoColumns(columnRows, t);
      }
    }
    forall t | t in schema ensures Values(schema[t].indexes) == IndexesFor(indexRows, keys, t) {
      SharedValues(stages[|indexRows|], schema, acc, keyOf, indexRows, keys, t);
    }
  }
}
