/** Comparing a desired schema with the current one, and the statements that move one to the other. */
module SchemaDiff {
  import opened Common
  import opened SchemaModel

  /** One emitted statement. Column statements carry the definition text they print. */
  datatype Op =
    | CreateTable(def: TableDef)
    | AddColumn(raw: string)
    | ModifyColumn(raw: string)
    | DropColumn(name: string)
    | AddIndex(index: IndexDef)
    | DropIndex(indexName: string)

  datatype DiffItem = DiffItem(table: string, op: Op)

  predicate IsNamed(i: IndexDef) { i.name != "" && i.name != PRIMARY }

  /** The column of that name; the last one, as a map built from the list would have it. */
  function FindColumn(columns: seq<ColumnDef>, name: string): (c: Option<ColumnDef>)
    ensures c.Some? ==> c.value in columns && c.value.name == name
    ensures c.None? <==> forall d :: d in columns ==> d.name != name
  {
    if columns == [] then None
    else if columns[|columns| - 1].name == name then Some(columns[|columns| - 1])
    else
      assert forall d :: d in columns <==> d in columns[..|columns| - 1] || d == columns[|columns| - 1];
      FindColumn(columns[..|columns| - 1], name)
  }

  function PutByName(indexes: seq<IndexDef>, i: IndexDef): seq<IndexDef> {
    if indexes == [] then [i]
    else if indexes[0].name == i.name then [i] + indexes[1..]
    else [indexes[0]] + PutByName(indexes[1..], i)
  }

  /** Named indexes by name: first-seen order, last definition. */
  function NamedIndexes(indexes: seq<IndexDef>): seq<IndexDef> {
    if indexes == [] then []
    else
      var before := NamedIndexes(indexes[..|indexes| - 1]);
      var last := indexes[|indexes| - 1];
      if IsNamed(last) then PutByName(before, last) else before
  }

  predicate HasIndex(indexes: seq<IndexDef>, name: string) { exists i :: i in indexes && IsNamed(i) && i.name == name }

  // --- the diff of one table, list by list ---------------------------------

  /** Does the desired column need an ADD or a MODIFY? */
  predicate Emitted(d: ColumnDef, current: seq<ColumnDef>) {
    var c := FindColumn(current, d.name);
    c.None? || c.value.coltype != d.coltype || c.value.nullable != d.nullable
  }

  function ColumnOps(desired: seq<ColumnDef>, current: seq<ColumnDef>): seq<Op> {
    if desired == [] then []
    else
      var d := desired[|desired| - 1];
      ColumnOps(desired[..|desired| - 1], current)
      + (if !Emitted(d, current) then []
         else if FindColumn(current, d.name).None? then [AddColumn(d.raw)]
         else [ModifyColumn(d.raw)])
  }

  /** Names of the current columns that are not desired, in current order. */
  function GoneColumns(current: seq<ColumnDef>, desired: seq<ColumnDef>): seq<string> {
    if current == [] then []
    else
      var c := current[|current| - 1];
      GoneColumns(current[..|current| - 1], desired) + (if FindColumn(desired, c.name).None? then [c.name] else [])
  }

  function DropColumnOps(names: seq<string>): (ops: seq<Op>)
    ensures |ops| == |names| && forall i :: 0 <= i < |names| ==> ops[i] == DropColumn(names[i])
  {
    seq(|names|, i requires 0 <= i < |names| => DropColumn(names[i]))
  }

  /** Indexes of the first list whose names the second does not have. */
  function Missing(indexes: seq<IndexDef>, other: seq<IndexDef>): seq<IndexDef> {
    if indexes == [] then []
    else
      var i := indexes[|indexes| - 1];
      Missing(indexes[..|indexes| - 1], other) + (if HasIndex(other, i.name) then [] else [i])
  }

  function AddIndexOps(indexes: seq<IndexDef>): (ops: seq<Op>)
    ensures |ops| == |indexes| && forall i :: 0 <= i < |indexes| ==> ops[i] == AddIndex(indexes[i])
  {
    seq(|indexes|, i requires 0 <= i < |indexes| => AddIndex(indexes[i]))
  }

  function DropIndexOps(indexes: seq<IndexDef>): (ops: seq<Op>)
    ensures |ops| == |indexes| && forall i :: 0 <= i < |indexes| ==> ops[i] == DropIndex(indexes[i].name)
  {
    seq(|indexes|, i requires 0 <= i < |indexes| => DropIndex(indexes[i].name))
  }

  function ColumnDiff(desired: TableDef, current: TableDef): seq<Op> {
    ColumnOps(desired.columns, current.columns) + DropColumnOps(GoneColumns(current.columns, desired.columns))
  }

  function IndexDiff(desired: TableDef, current: TableDef): seq<Op> {
    AddIndexOps(Missing(NamedIndexes(desired.indexes), current.indexes))
    + DropIndexOps(Missing(NamedIndexes(current.indexes), desired.indexes))
  }

  function TableDiff(desired: TableDef, current: Option<TableDef>): seq<Op> {
    if current.None? then [CreateTable(desired)]
    else ColumnDiff(desired, current.value) + IndexDiff(desired, current.value)
  }

  function Items(table: string, ops: seq<Op>): (items: seq<DiffItem>)
    ensures |items| == |ops| && forall i :: 0 <= i < |ops| ==> items[i] == DiffItem(table, ops[i])
  {
    seq(|ops|, i requires 0 <= i < |ops| => DiffItem(table, ops[i]))
  }

  function Lookup(current: map<string, TableDef>, table: string): Option<TableDef> {
    if table in current then Some(current[table]) else None
  }

  /** The statements for one table. */
  datatype TablePlan = TablePlan(table: string, ops: seq<Op>)

  function ItemsOf(plan: seq<TablePlan>): seq<DiffItem> {
    if plan == [] then []
    else ItemsOf(plan[..|plan| - 1]) + Items(plan[|plan| - 1].table, plan[|plan| - 1].ops)
  }

  function PlanOf(desired: seq<TableDef>, current: map<string, TableDef>): (plan: seq<TablePlan>)
    ensures |plan| == |desired|
    ensures forall i :: 0 <= i < |desired| ==>
      plan[i] == TablePlan(desired[i].name, TableDiff(desired[i], Lookup(current, desired[i].name)))
  {
    seq(|desired|, i requires 0 <= i < |desired| =>
      TablePlan(desired[i].name, TableDiff(desired[i], Lookup(current, desired[i].name))))
  }

  /** Tables in desired order; tables only in the current schema are left alone. */
  function SchemaDiffOf(desired: seq<TableDef>, current: map<string, TableDef>): seq<DiffItem> {
    ItemsOf(PlanOf(desired, current))
  }

  lemma {:induction false} ColumnOpsStep(desired: seq<ColumnDef>, current: seq<ColumnDef>, i: nat)
    requires i < |desired|
    ensures ColumnOps(desired[..i + 1], current) == ColumnOps(desired[..i], current) +
      if !Emitted(desired[i], current) then []
      else if FindColumn(current, desired[i].name).None? then [AddColumn(desired[i].raw)]
      else [ModifyColumn(desired[i].raw)]
  {
    assert desired[..i + 1][..i] == desired[..i];
  }

  lemma {:induction false} GoneStep(current: seq<ColumnDef>, desired: seq<ColumnDef>, i: nat)
    requires i < |current|
    ensures DropColumnOps(GoneColumns(current[..i + 1], desired)) == DropColumnOps(GoneColumns(current[..i], desired)) +
      if FindColumn(desired, current[i].name).None? then [DropColumn(current[i].name)] else []
  {
    assert current[..i + 1][..i] == current[..i];
  }

  lemma {:induction false} MissingStep(indexes: seq<IndexDef>, other: seq<IndexDef>, i: nat)
    requires i < |indexes|
    ensures Missing(indexes[..i + 1], other) == Missing(indexes[..i], other) +
      if HasIndex(other, indexes[i].name) then [] else [indexes[i]]
  {
    assert indexes[..i + 1][..i] == indexes[..i];
  }

  // --- the loops -----------------------------------------------------------

  method DiffColumns(desired: TableDef, current: TableDef) returns (ops: seq<Op>)
    ensures ops == ColumnDiff(desired, current)
  {
    ops := [];
    for i := 0 to |desired.columns|
      invariant ops == ColumnOps(desired.columns[..i], current.columns)
    {
      var dcol := desired.columns[i];
      ColumnOpsStep(desired.columns, current.columns, i);
      var ccol := FindColumn(current.columns, dcol.name);
      if ccol.None? {
        ops := ops + [AddColumn(dcol.raw)];
      } else if ccol.value.coltype != dcol.coltype || ccol.value.nullable != dcol.nullable {
        ops := ops + [ModifyColumn(dcol.raw)];
      }
    }
    assert desired.columns[..|desired.columns|] == desired.columns;
    for i := 0 to |current.columns|
      invariant ops == ColumnOps(desired.columns, current.columns)
                       + DropColumnOps(GoneColumns(current.columns[..i], desired.columns))
    {
      var ccol := current.columns[i];
      GoneStep(current.columns, desired.columns, i);
      if FindColumn(desired.columns, ccol.name).None? {
        ops := ops + [DropColumn(ccol.name)];
      }
    }
    assert current.columns[..|current.columns|] == current.columns;
  }

  method DiffIndexes(desired: TableDef, current: TableDef) returns (ops: seq<Op>)
    ensures ops == IndexDiff(desired, current)
  {
    var desiredNamed := NamedIndexes(desired.indexes);
    var currentNamed := NamedIndexes(current.indexes);
    ops := [];
    for i := 0 to |desiredNamed|
      invariant ops == AddIndexOps(Missing(desiredNamed[..i], current.indexes))
    {
      MissingStep(desiredNamed, current.indexes, i);
      if !HasIndex(current.indexes, desiredNamed[i].name) {
        ops := ops + [AddIndex(desiredNamed[i])];
      }
    }
    assert desiredNamed[..|desiredNamed|] == desiredNamed;
    for i := 0 to |currentNamed|
      invariant ops == AddIndexOps(Missing(desiredNamed, current.indexes))
                       + DropIndexOps(Missing(currentNamed[..i], desired.indexes))
    {
      MissingStep(currentNamed, desired.indexes, i);
      if !HasIndex(desired.indexes, currentNamed[i].name) {
        ops := ops + [DropIndex(currentNamed[i].name)];
      }
    }
    assert currentNamed[..|currentNamed|] == currentNamed;
  }

  method DiffTable(desired: TableDef, current: Option<TableDef>) returns (ops: seq<Op>)
    ensures ops == TableDiff(desired, current)
  {
    if current.None? {
      return [CreateTable(desired)];
    }
    var columnOps := DiffColumns(desired, current.value);
    var indexOps := DiffIndexes(desired, current.value);
    ops := columnOps + indexOps;
  }

  method DiffSchemas(desired: seq<TableDef>, current: map<string, TableDef>) returns (items: seq<DiffItem>)
    ensures items == SchemaDiffOf(desired, current)
  {
    items := [];
    ghost var plan := PlanOf(desired, current);
    for i := 0 to |desired|
      invariant items == ItemsOf(plan[..i])
    {
      assert plan[..i + 1][..i] == plan[..i];
      var ops := DiffTable(desired[i], Lookup(current, desired[i].name));
      items := items + Items(desired[i].name, ops);
    }
    assert plan[..|desired|] == plan;
  }

  // --- what the lists hold -------------------------------------------------

  lemma {:induction false} GoneExact(current: seq<ColumnDef>, desired: seq<ColumnDef>, name: string)
    ensures name in GoneColumns(current, desired) <==>
      (exists c :: c in current && c.name == name) && forall d :: d in desired ==> d.name != name
  {
    if current == [] {
    } else {
      var n := |current| - 1;
      GoneExact(current[..n], desired, name);
      assert forall c :: c in current <==> c in current[..n] || c == current[n];
    }
  }

  lemma {:induction false} GoneDistinct(current: seq<ColumnDef>, desired: seq<ColumnDef>)
    requires forall i, j :: 0 <= i < j < |current| ==> current[i].name != current[j].name
    ensures Distinct(GoneColumns(current, desired))
  {
    if current == [] {
    } else {
      var n := |current| - 1;
      GoneDistinct(current[..n], desired);
      GoneExact(current[..n], desired, current[n].name);
    }
  }

  lemma {:induction false} MissingExact(indexes: seq<IndexDef>, other: seq<IndexDef>, i: IndexDef)
    ensures i in Missing(indexes, other) <==> i in indexes && !HasIndex(other, i.name)
  {
    if indexes == [] {
    } else {
      var n := |indexes| - 1;
      MissingExact(indexes[..n], other, i);
      assert i in indexes <==> i in indexes[..n] || i == indexes[n];
    }
  }

  predicate DistinctNames(indexes: seq<IndexDef>) {
    forall i, j :: 0 <= i < j < |indexes| ==> indexes[i].name != indexes[j].name
  }

  lemma {:induction false} MissingDistinct(indexes: seq<IndexDef>, other: seq<IndexDef>)
    requires DistinctNames(indexes)
    ensures DistinctNames(Missing(indexes, other))
  {
    if indexes == [] {
    } else {
      var n := |indexes| - 1;
      MissingDistinct(indexes[..n], other);
      forall k | 0 <= k < |Missing(indexes[..n], other)|
        ensures Missing(indexes[..n], other)[k].name != indexes[n].name
      {
        MissingExact(indexes[..n], other, Missing(indexes[..n], other)[k]);
      }
    }
  }

  function IndexNames(indexes: seq<IndexDef>): set<string> { set i | i in indexes :: i.name }

  function NamedSet(indexes: seq<IndexDef>): set<string> { set i | i in indexes && IsNamed(i) :: i.name }

  lemma {:induction false} HeadAndRest(indexes: seq<IndexDef>)
    requires indexes != []
    ensures forall j :: j in indexes <==> j == indexes[0] || j in indexes[1..]
    ensures DistinctNames(indexes) <==>
      DistinctNames(indexes[1..]) && forall j :: j in indexes[1..] ==> j.name != indexes[0].name
  {
    var rest := indexes[1..];
    assert forall k :: 0 < k < |indexes| ==> indexes[k] == rest[k - 1] && rest[k - 1] in rest;
  }

  lemma {:induction false} PutByNameExact(indexes: seq<IndexDef>, i: IndexDef)
    requires DistinctNames(indexes)
    ensures DistinctNames(PutByName(indexes, i))
    ensures forall j :: j in PutByName(indexes, i) <==> j == i || (j in indexes && j.name != i.name)
  {
    if indexes == [] {
    } else {
      var rest := indexes[1..];
      HeadAndRest(indexes);
      if indexes[0].name == i.name {
        assert ([i] + rest)[1..] == rest;
        HeadAndRest([i] + rest);
      } else {
        var put := PutByName(rest, i);
        PutByNameExact(rest, i);
        assert ([indexes[0]] + put)[1..] == put;
        HeadAndRest([indexes[0]] + put);
      }
    }
  }

  /** `i` stands in the list, and no later index has its name. */
  predicate LastOfName(indexes: seq<IndexDef>, i: IndexDef) {
    exists k :: 0 <= k < |indexes| && indexes[k] == i && forall j :: k < j < |indexes| ==> indexes[j].name != i.name
  }

  lemma {:induction false} LastOfNameStep(indexes: seq<IndexDef>, i: IndexDef)
    requires indexes != []
    ensures var n := |indexes| - 1;
      LastOfName(indexes, i) <==> i == indexes[n] || (LastOfName(indexes[..n], i) && i.name != indexes[n].name)
  {
    var n := |indexes| - 1;
    assert forall k :: 0 <= k < n ==> indexes[..n][k] == indexes[k];
    if LastOfName(indexes[..n], i) && i.name != indexes[n].name {
      var k :| 0 <= k < n && indexes[..n][k] == i && forall j :: k < j < n ==> indexes[..n][j].name != i.name;
      assert indexes[k] == i;
    }
    if LastOfName(indexes, i) && i != indexes[n] {
      var k :| 0 <= k < |indexes| && indexes[k] == i && forall j :: k < j < |indexes| ==> indexes[j].name != i.name;
      assert k < n && indexes[..n][k] == i;
    }
  }

  lemma {:induction false} NamedSetStep(indexes: seq<IndexDef>)
    requires indexes != []
    ensures var n := |indexes| - 1;
      NamedSet(indexes) == NamedSet(indexes[..n]) + if IsNamed(indexes[n]) then {indexes[n].name} else {}
  {
    var n := |indexes| - 1;
    assert forall i :: i in indexes <==> i in indexes[..n] || i == indexes[n];
  }

  lemma {:induction false} PutNames(indexes: seq<IndexDef>, i: IndexDef)
    requires DistinctNames(indexes)
    ensures IndexNames(PutByName(indexes, i)) == IndexNames(indexes) + {i.name}
  {
    PutByNameExact(indexes, i);
    assert i in PutByName(indexes, i);
  }

  /**
   * The compared indexes are those with a name other than PRIMARY, one for each such name:
   * the last one that has it.
   */
  lemma {:induction false} NamedExact(indexes: seq<IndexDef>)
    ensures DistinctNames(NamedIndexes(indexes))
    ensures forall i :: i in NamedIndexes(indexes) <==> IsNamed(i) && LastOfName(indexes, i)
    ensures IndexNames(NamedIndexes(indexes)) == NamedSet(indexes)
  {
    if indexes == [] {
    } else {
      var n := |indexes| - 1;
      var init := indexes[..n];
      NamedExact(init);
      forall i
        ensures LastOfName(indexes, i) <==> i == indexes[n] || (LastOfName(init, i) && i.name != indexes[n].name) {
        LastOfNameStep(indexes, i);
      }
      PutByNameExact(NamedIndexes(init), indexes[n]);
      NamedSetStep(indexes);
      if IsNamed(indexes[n]) {
        PutNames(NamedIndexes(init), indexes[n]);
      }
    }
  }
}
