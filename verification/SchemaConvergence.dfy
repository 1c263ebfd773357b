/** When running a schema diff leaves nothing for a second diff to do. */
module SchemaConvergence {
  import opened Common
  import opened SchemaModel
  import opened SchemaParser
  import opened SchemaDiff
  import opened SchemaServer
  import opened SchemaExecution
  import RoundTrip = SchemaRoundTrip

  /** `def` is what introspection may report for `t`: the same columns and index names, in some order. */
  ghost predicate Describes(def: TableDef, t: LiveTable) {
    && (forall i, j :: 0 <= i < j < |def.columns| ==> def.columns[i].name != def.columns[j].name)
    && Names(def.columns) == t.columns.Keys
    && (forall c :: c in def.columns ==> Visible(t, c.name) == LiveColumn(c.coltype, c.nullable))
    && (forall n :: n in t.indexes <==> exists i :: i in def.indexes && i.name == n)
  }

  ghost predicate AllVisible(def: TableDef, t: LiveTable)
    requires t.columns.Keys == Names(def.columns)
  {
    forall c :: c in def.columns ==> Visible(t, c.name) == LiveColumn(c.coltype, c.nullable)
  }

  /** The live table has exactly the desired columns, as the server reports them, and the desired index names. */
  ghost predicate Matches(def: TableDef, t: LiveTable) {
    && t.columns.Keys == Names(def.columns)
    && AllVisible(def, t)
    && t.indexes.Keys - {PRIMARY} == NamedSet(def.indexes)
  }

  // --- the empty diff ------------------------------------------------------

  lemma {:induction false} ColumnOpsEmpty(desired: seq<ColumnDef>, current: seq<ColumnDef>)
    ensures ColumnOps(desired, current) == [] <==> forall d :: d in desired ==> !Emitted(d, current)
  {
    if desired == [] {
    } else {
      var n := |desired| - 1;
      ColumnOpsEmpty(desired[..n], current);
      ColumnOpsLast(desired, current);
      assert forall d :: d in desired <==> d in desired[..n] || d == desired[n];
      assert [desired[n]][..0] == [] && ColumnOps([], current) == [];
    }
  }

  lemma {:induction false} GoneNames(current: seq<ColumnDef>, desired: seq<ColumnDef>)
    ensures GoneColumns(current, desired) == [] <==> Names(current) <= Names(desired)
    ensures SetOf(GoneColumns(current, desired)) == Names(current) - Names(desired)
  {
    var gone := GoneColumns(current, desired);
    forall name ensures name in gone <==> name in Names(current) - Names(desired) {
      GoneExact(current, desired, name);
    }
    assert SetOf(gone) == Names(current) - Names(desired);
    if gone != [] {
      assert gone[0] in gone;
    } else {
      assert SetOf(gone) == {};
      forall n | n in Names(current) ensures n in Names(desired) {
        assert n !in SetOf(gone);
      }
    }
  }

  lemma {:induction false} MissingNames(indexes: seq<IndexDef>, other: seq<IndexDef>)
    ensures var missing := Missing(NamedIndexes(indexes), other);
      && DistinctNames(missing)
      && IndexNames(missing) == NamedSet(indexes) - NamedSet(other)
      && (missing == [] <==> NamedSet(indexes) <= NamedSet(other))
      && (forall i :: i in missing <==> i in NamedIndexes(indexes) && i.name !in NamedSet(other))
  {
    var missing := Missing(NamedIndexes(indexes), other);
    NamedExact(indexes);
    MissingDistinct(NamedIndexes(indexes), other);
    forall i ensures i in missing <==> i in NamedIndexes(indexes) && i.name !in NamedSet(other) {
      MissingExact(NamedIndexes(indexes), other, i);
      assert HasIndex(other, i.name) <==> i.name in NamedSet(other);
    }
    if missing != [] {
      assert missing[0] in missing;
    }
  }

  lemma {:induction false} DescribedColumn(def: TableDef, t: LiveTable, d: ColumnDef)
    requires Describes(def, t)
    ensures Emitted(d, def.columns) <==>
      !(d.name in t.columns && Visible(t, d.name) == LiveColumn(d.coltype, d.nullable))
    ensures FindColumn(def.columns, d.name).Some? <==> d.name in t.columns
  {
  }

  lemma {:induction false} DescribedNames(def: TableDef, t: LiveTable)
    requires Describes(def, t) && "" !in t.indexes
    ensures NamedSet(def.indexes) == t.indexes.Keys - {PRIMARY}
  {
  }

  lemma {:induction false} ColumnDiffEmpty(desired: TableDef, after: TableDef, t: LiveTable)
    requires Describes(after, t)
    ensures ColumnDiff(desired, after) == [] <==>
      && t.columns.Keys == Names(desired.columns)
      && forall c :: c in desired.columns ==> Visible(t, c.name) == LiveColumn(c.coltype, c.nullable)
  {
    ColumnOpsEmpty(desired.columns, after.columns);
    GoneNames(after.columns, desired.columns);
    forall d ensures Emitted(d, after.columns) <==>
      !(d.name in t.columns && Visible(t, d.name) == LiveColumn(d.coltype, d.nullable))
    {
      DescribedColumn(after, t, d);
    }
    var puts := ColumnOps(desired.columns, after.columns);
    var gone := GoneColumns(after.columns, desired.columns);
    assert ColumnDiff(desired, after) == [] <==> puts == [] && gone == [];
    if puts == [] {
      assert Names(desired.columns) <= t.columns.Keys;
    }
  }

  lemma {:induction false} IndexDiffEmpty(desired: TableDef, after: TableDef, t: LiveTable)
    requires Describes(after, t) && "" !in t.indexes
    ensures IndexDiff(desired, after) == [] <==> t.indexes.Keys - {PRIMARY} == NamedSet(desired.indexes)
  {
    MissingNames(desired.indexes, after.indexes);
    MissingNames(after.indexes, desired.indexes);
    DescribedNames(after, t);
    var adds := Missing(NamedIndexes(desired.indexes), after.indexes);
    var drops := Missing(NamedIndexes(after.indexes), desired.indexes);
    assert IndexDiff(desired, after) == [] <==> adds == [] && drops == [];
  }

  /** The diff against any description of the table is empty exactly when the table matches. */
  lemma {:induction false} DiffEmptyExactly(desired: TableDef, after: TableDef, t: LiveTable)
    requires Describes(after, t) && "" !in t.indexes
    ensures TableDiff(desired, Some(after)) == [] <==> Matches(desired, t)
  {
    ColumnDiffEmpty(desired, after, t);
    IndexDiffEmpty(desired, after, t);
    assert TableDiff(desired, Some(after)) == [] <==>
      ColumnDiff(desired, after) == [] && IndexDiff(desired, after) == [];
  }

  // --- when a table converges ----------------------------------------------

  predicate InPrimaryClause(s: ServerTable, name: string) {
    exists k :: k in Clauses(s) && k.name == PRIMARY && name in k.columns
  }

  /** The server reads the column with the type and nullability the reader found, primary keys being NOT NULL. */
  predicate ReadsAs(c: ServerColumn, inPrimary: bool, d: ColumnDef) {
    c.coltype == d.coltype && (c.nullable && !inPrimary) == d.nullable
  }

  /** For a table that is not there: the text creates what the reader made of it. */
  ghost predicate CanCreate(desired: TableDef, server: Server) {
    var r := server.create(CreateText(desired));
    && r.Some? && Acceptable(r.value, server)
    && ServerNames(r.value.columns) == Names(desired.columns)
    && (forall c, d :: c in r.value.columns && d in desired.columns && c.name == d.name ==>
          ReadsAs(c, InPrimaryClause(r.value, c.name), d))
    && (forall k :: k in Clauses(r.value) ==> k.name != "")
    && ClauseNames(r.value) - {PRIMARY} == NamedSet(desired.indexes)
  }

  /** The server finds in a created table every index for which the reader found a name. */
  ghost predicate IndexesRead(desired: TableDef, server: Server) {
    var r := server.create(CreateText(desired));
    r.Some? ==> NamedSet(desired.indexes) <= ClauseNames(r.value)
  }

  /** The text of an added or changed column says what the reader found. */
  ghost predicate ColumnsSettle(desired: seq<ColumnDef>, current: seq<ColumnDef>, t: LiveTable, server: Server) {
    forall d :: d in desired && Emitted(d, current) ==>
      var c := server.column(d.raw);
      c.Some? && ReadsAs(c.value, c.value.primary || d.name in PrimaryColumns(t.indexes), d)
  }

  /** Every index keeps a column. */
  ghost predicate IndexesKeepColumns(desired: TableDef, t: LiveTable) {
    forall n :: n in t.indexes && n != PRIMARY ==> t.indexes[n] * Names(desired.columns) != {}
  }

  predicate FitsDesired(desired: TableDef, i: IndexDef, server: Server) {
    && i.columns != [] && Folds(SetOf(i.columns), server) <= Folds(Names(desired.columns), server)
    && forall d :: d in desired.columns && server.fold(d.name) in Folds(SetOf(i.columns), server) ==>
         server.indexable(d.coltype)
  }

  /** New indexes have names of their own, over desired columns of types that need no prefix length. */
  ghost predicate AddsFit(desired: TableDef, t: LiveTable, server: Server) {
    && (forall i :: i in NamedIndexes(desired.indexes) && i.name !in t.indexes ==>
          && FitsDesired(desired, i, server)
          && server.fold(i.name) !in Folds(t.indexes.Keys + {PRIMARY}, server))
    && (forall i, j :: i in NamedIndexes(desired.indexes) && i.name !in t.indexes
                    && j in NamedIndexes(desired.indexes) && j.name !in t.indexes
                    && SameName(i.name, j.name, server)
                    ==> i.name == j.name)
  }

  /** For a table that is there. */
  ghost predicate CanMove(desired: TableDef, current: TableDef, t: LiveTable, server: Server) {
    && desired.columns != []
    && ColumnsSettle(desired.columns, current.columns, t, server)
    && !AnyUnique(desired.columns, current.columns, server)
    && CanPut(t, desired.columns, current.columns, server)
    && IndexesKeepColumns(desired, t)
    && AddsFit(desired, t, server)
  }

  /** When the statements for one table all run and leave nothing more to do. */
  ghost predicate Convergible(desired: TableDef, current: Option<TableDef>, t: Option<LiveTable>, server: Server) {
    if t.None? || current.None? then CanCreate(desired, server) else CanMove(desired, current.value, t.value, server)
  }

  // --- a new table ---------------------------------------------------------

  lemma {:induction false} LivePrimary(s: ServerTable, server: Server, name: string)
    requires PicksFreshNames(server) && Acceptable(s, server)
    ensures name in PrimaryColumns(LiveOf(s, server).indexes) <==> InPrimaryClause(s, name)
  {
    PutNamedExact(Clauses(s), server);
    PutAutoExact(PutNamed(Clauses(s)), Clauses(s), server);
    if PRIMARY in PutNamed(Clauses(s)) {
      var k :| k in Clauses(s) && k.name == PRIMARY;
      assert PrimaryColumns(LiveOf(s, server).indexes) == SetOf(k.columns);
      assert forall j :: j in Clauses(s) && j.name == PRIMARY ==> SetOf(j.columns) == SetOf(k.columns);
      forall j | j in Clauses(s) && j.name == PRIMARY && name in j.columns ensures name in SetOf(k.columns) {
        assert name in SetOf(j.columns);
      }
    }
  }

  lemma {:induction false} CreatedVisible(desired: TableDef, s: ServerTable, server: Server)
    requires PicksFreshNames(server) && Acceptable(s, server) && ServerNames(s.columns) == Names(desired.columns)
    ensures LiveOf(s, server).columns.Keys == Names(desired.columns)
    ensures AllVisible(desired, LiveOf(s, server)) <==>
      forall c, d :: c in s.columns && d in desired.columns && c.name == d.name ==>
        ReadsAs(c, InPrimaryClause(s, c.name), d)
  {
    PutColumnsExact(s.columns);
    var t := LiveOf(s, server);
    forall c, d | c in s.columns && d in desired.columns && c.name == d.name
      ensures Visible(t, d.name) == LiveColumn(d.coltype, d.nullable) <==> ReadsAs(c, InPrimaryClause(s, c.name), d)
    {
      LivePrimary(s, server, c.name);
    }
    forall d | d in desired.columns ensures exists c :: c in s.columns && c.name == d.name {
      assert d.name in Names(desired.columns);
    }
  }

  /**
   * A created table has the desired index names if the server finds just those and none without
   * a name; and only then, if it finds every index the reader found.
   */
  lemma {:induction false} CreatedNamesExact(desired: TableDef, s: ServerTable, server: Server)
    requires PicksFreshNames(server) && Acceptable(s, server)
    ensures var found := (forall k :: k in Clauses(s) ==> k.name != "")
                         && ClauseNames(s) - {PRIMARY} == NamedSet(desired.indexes);
            var created := LiveOf(s, server).indexes.Keys - {PRIMARY} == NamedSet(desired.indexes);
      && (found ==> created)
      && (NamedSet(desired.indexes) <= ClauseNames(s) && created ==> found)
  {
    var named := PutNamed(Clauses(s));
    PutNamedExact(Clauses(s), server);
    PutAutoExact(named, Clauses(s), server);
    var all := PutAuto(named, Clauses(s), server);
    assert named.Keys == ClauseNames(s);
    if NamedSet(desired.indexes) <= ClauseNames(s) && all.Keys - {PRIMARY} == NamedSet(desired.indexes) {
      forall n | n in all ensures n in named {
        assert n == PRIMARY || n in NamedSet(desired.indexes);
      }
    }
  }

  lemma {:induction false} NewTable(desired: TableDef, server: Server)
    requires PicksFreshNames(server)
    ensures var s := server.create(CreateText(desired));
            var r := RunOps(TableDiff(desired, None), At(None), server);
      && (r.At? <==> s.Some? && Acceptable(s.value, server))
      && (r.At? ==> r.table == Some(LiveOf(s.value, server)) && "" !in r.table.value.indexes)
      && (CanCreate(desired, server) ==> r.At? && Matches(desired, r.table.value))
      && (IndexesRead(desired, server) && r.At? && Matches(desired, r.table.value) ==> CanCreate(desired, server))
  {
    RunLast([], CreateTable(desired), At(None), server);
    assert [] + [CreateTable(desired)] == [CreateTable(desired)];
    var s := server.create(CreateText(desired));
    if s.Some? && Acceptable(s.value, server) {
      PutColumnsExact(s.value.columns);
      PutNamedExact(Clauses(s.value), server);
      PutAutoExact(PutNamed(Clauses(s.value)), Clauses(s.value), server);
      CreatedNamesExact(desired, s.value, server);
      if ServerNames(s.value.columns) == Names(desired.columns) {
        CreatedVisible(desired, s.value, server);
      }
    }
  }

  // --- a table that exists: its states along the way -----------------------

  function Gone(desired: TableDef, t: LiveTable): set<string> { t.columns.Keys - Names(desired.columns) }

  function AfterColumns(desired: TableDef, ct: TableDef, t: LiveTable, server: Server): LiveTable {
    var put := Put(t, desired.columns, ct.columns, server);
    LiveTable(put.columns - Gone(desired, t), Shrink(put.indexes, Gone(desired, t)))
  }

  lemma {:induction false} InlineNonEmpty(base: map<string, set<string>>, desired: seq<ColumnDef>,
                                          current: seq<ColumnDef>, server: Server)
    requires forall n :: n in base ==> base[n] != {}
    ensures forall n :: n in AfterInline(base, desired, current, server) ==>
      AfterInline(base, desired, current, server)[n] != {}
  {
    if desired != [] {
      InlineNonEmpty(base, desired[..|desired| - 1], current, server);
    }
  }

  lemma {:induction false} DropHalf(desired: TableDef, ct: TableDef, t: LiveTable, server: Server)
    requires PicksFreshNames(server) && ColumnsOk(desired.columns, server) && ValidLive(t) && Describes(ct, t)
    requires PutsRun(t, desired.columns, ct.columns, server)
    ensures var put := Put(t, desired.columns, ct.columns, server);
      RunOps(DropColumnOps(GoneColumns(ct.columns, desired.columns)), At(Some(put)), server) ==
        if desired.columns != [] then At(Some(AfterColumns(desired, ct, t, server))) else Failed
  {
    var names := GoneColumns(ct.columns, desired.columns);
    GoneNames(ct.columns, desired.columns);
    GoneDistinct(ct.columns, desired.columns);
    PutsRunExact(t, desired.columns, ct.columns, server);
    PutKeys(t, desired.columns, ct.columns, server);
    InlineNonEmpty(t.indexes, desired.columns, ct.columns, server);
    var put := Put(t, desired.columns, ct.columns, server);
    assert SetOf(names) == Gone(desired, t);
    if desired.columns != [] {
      assert desired.columns[0] in desired.columns;
      assert desired.columns[0].name in put.columns.Keys && desired.columns[0].name !in SetOf(names);
      DropsRun(names, put, server);
    } else {
      assert Names(desired.columns) == {};
      assert names != [];
      DropAllFails(names, put, server);
    }
  }

  /** The column statements run exactly when the server reads them, no name or key is in the way and a column stays. */
  lemma {:induction false} ColumnDiffRun(desired: TableDef, ct: TableDef, t: LiveTable, server: Server)
    requires PicksFreshNames(server) && ColumnsOk(desired.columns, server) && ValidLive(t) && Describes(ct, t)
    ensures RunOps(ColumnDiff(desired, ct), At(Some(t)), server) ==
      if desired.columns != [] && CanPut(t, desired.columns, ct.columns, server)
      then At(Some(AfterColumns(desired, ct, t, server))) else Failed
  {
    var names := GoneColumns(ct.columns, desired.columns);
    RunAppend(ColumnOps(desired.columns, ct.columns), DropColumnOps(names), At(Some(t)), server);
    ColumnOpsRun(desired.columns, ct, t, server);
    PutsRunExact(t, desired.columns, ct.columns, server);
    if PutsRun(t, desired.columns, ct.columns, server) {
      DropHalf(desired, ct, t, server);
    } else {
      FailedStays(DropColumnOps(names), server);
    }
  }

  /** An old index is still there exactly when it keeps a column. */
  lemma {:induction false} OldIndexesAfter(desired: TableDef, ct: TableDef, t: LiveTable, server: Server)
    requires PicksFreshNames(server) && ValidLive(t)
    ensures var mid := AfterColumns(desired, ct, t, server);
      "" !in mid.indexes && (t.indexes.Keys - {PRIMARY} <= mid.indexes.Keys <==> IndexesKeepColumns(desired, t))
  {
    AfterInlineKeys(t.indexes, desired.columns, ct.columns, server);
    var mid := AfterColumns(desired, ct, t, server);
    forall n | n in t.indexes && n != PRIMARY
      ensures n in mid.indexes <==> t.indexes[n] * Names(desired.columns) != {}
    {
      assert t.indexes[n] - Gone(desired, t) == t.indexes[n] * Names(desired.columns);
    }
  }

  /** An index appears exactly when a column's text asks for one. */
  lemma {:induction false} NewIndexesAfter(desired: TableDef, ct: TableDef, t: LiveTable, server: Server)
    requires PicksFreshNames(server) && NamesRead(desired.columns, server) && "" !in t.indexes
    ensures AfterColumns(desired, ct, t, server).indexes.Keys <= t.indexes.Keys + {PRIMARY} <==>
            !AnyUnique(desired.columns, ct.columns, server)
  {
    AfterInlineKeys(t.indexes, desired.columns, ct.columns, server);
    if AnyUnique(desired.columns, ct.columns, server) {
      var n := UniqueLeavesExtra(t.indexes, desired.columns, ct.columns, server);
      var columns := AfterInline(t.indexes, desired.columns, ct.columns, server)[n];
      assert columns - Gone(desired, t) == columns;
      assert n in AfterColumns(desired, ct, t, server).indexes;
    }
  }

  /** What the column statements leave of the columns and the indexes. */
  lemma {:induction false} AfterColumnsShape(desired: TableDef, ct: TableDef, t: LiveTable, server: Server)
    requires PicksFreshNames(server) && ColumnsOk(desired.columns, server) && ValidLive(t) && Describes(ct, t)
    requires PutsRun(t, desired.columns, ct.columns, server)
    ensures var mid := AfterColumns(desired, ct, t, server);
      && mid.columns.Keys == Names(desired.columns)
      && "" !in mid.indexes
      && (t.indexes.Keys - {PRIMARY} <= mid.indexes.Keys <==> IndexesKeepColumns(desired, t))
      && (mid.indexes.Keys <= t.indexes.Keys + {PRIMARY} <==> !AnyUnique(desired.columns, ct.columns, server))
  {
    PutsRunExact(t, desired.columns, ct.columns, server);
    PutKeys(t, desired.columns, ct.columns, server);
    OldIndexesAfter(desired, ct, t, server);
    NewIndexesAfter(desired, ct, t, server);
  }

  lemma {:induction false} SameColumn(columns: seq<ColumnDef>, server: Server, d: ColumnDef, e: ColumnDef)
    requires ColumnsOk(columns, server) && d in columns && e in columns && d.name == e.name
    ensures d == e
  {
    var i :| 0 <= i < |columns| && columns[i] == d;
    var j :| 0 <= j < |columns| && columns[j] == e;
    assert i == j;
  }

  /** The primary key after the column statements, as far as the desired columns go. */
  lemma {:induction false} AfterColumnsPrimary(desired: TableDef, ct: TableDef, t: LiveTable, server: Server,
                                               d: ColumnDef)
    requires PicksFreshNames(server) && ColumnsOk(desired.columns, server) && "" !in t.indexes && d in desired.columns
    requires OnePrimary(t.indexes, desired.columns, ct.columns, server)
    ensures d.name in PrimaryColumns(AfterColumns(desired, ct, t, server).indexes)
       <==> d.name in PrimaryColumns(t.indexes) || PutsPrimary(d, ct.columns, server)
  {
    var indexes := AfterInline(t.indexes, desired.columns, ct.columns, server);
    assert d.name in Names(desired.columns) && d.name !in Gone(desired, t);
    assert d.name in PrimaryColumns(Shrink(indexes, Gone(desired, t))) <==> d.name in PrimaryColumns(indexes);
    AfterInlineKeys(t.indexes, desired.columns, ct.columns, server);
    if AnyPrimary(desired.columns, ct.columns, server) {
      PrimaryFrom(t.indexes, desired.columns, ct.columns, server);
      var e :| e in desired.columns && PutsPrimary(e, ct.columns, server) && PrimaryColumns(indexes) == {e.name};
      if d.name == e.name {
        SameColumn(desired.columns, server, d, e);
      }
    }
  }

  lemma {:induction false} OneVisible(desired: TableDef, ct: TableDef, t: LiveTable, server: Server, d: ColumnDef)
    requires PicksFreshNames(server) && ColumnsOk(desired.columns, server) && ValidLive(t) && Describes(ct, t)
    requires PutsRun(t, desired.columns, ct.columns, server) && d in desired.columns
    requires AfterColumns(desired, ct, t, server).columns.Keys == Names(desired.columns)
    ensures d.name in Names(desired.columns)
    ensures Visible(AfterColumns(desired, ct, t, server), d.name) == LiveColumn(d.coltype, d.nullable) <==>
      (Emitted(d, ct.columns) ==>
         var c := server.column(d.raw);
         c.Some? && ReadsAs(c.value, c.value.primary || d.name in PrimaryColumns(t.indexes), d))
  {
    PutsRunExact(t, desired.columns, ct.columns, server);
    NotEmittedExists(desired.columns, ct.columns, t);
    AfterPutsExact(t.columns, desired.columns, ct.columns, server);
    AfterColumnsPrimary(desired, ct, t, server, d);
    DescribedColumn(ct, t, d);
    assert d.name in Names(desired.columns) && d.name !in Gone(desired, t);
  }

  /** Every column ends as desired exactly when the texts that ran say so. */
  lemma {:induction false} AfterColumnsVisible(desired: TableDef, ct: TableDef, t: LiveTable, server: Server)
    requires PicksFreshNames(server) && ColumnsOk(desired.columns, server) && ValidLive(t) && Describes(ct, t)
    requires PutsRun(t, desired.columns, ct.columns, server)
    requires AfterColumns(desired, ct, t, server).columns.Keys == Names(desired.columns)
    ensures AllVisible(desired, AfterColumns(desired, ct, t, server)) <==>
            ColumnsSettle(desired.columns, ct.columns, t, server)
  {
    forall d | d in desired.columns
      ensures d.name in Names(desired.columns)
      ensures Visible(AfterColumns(desired, ct, t, server), d.name) == LiveColumn(d.coltype, d.nullable) <==>
        (Emitted(d, ct.columns) ==>
           var c := server.column(d.raw);
           c.Some? && ReadsAs(c.value, c.value.primary || d.name in PrimaryColumns(t.indexes), d))
    {
      OneVisible(desired, ct, t, server, d);
    }
  }

  // --- its index statements ------------------------------------------------

  function Adds(desired: TableDef, ct: TableDef): seq<IndexDef> {
    Missing(NamedIndexes(desired.indexes), ct.indexes)
  }

  lemma {:induction false} PrimaryKept(indexes: map<string, set<string>>, names: set<string>)
    requires PRIMARY !in names
    ensures PrimaryColumns(indexes - names) == PrimaryColumns(indexes)
  {
  }

  /** The index statements run exactly when the new ones fit and every index to be dropped is still there. */
  lemma {:induction false} IndexDiffRun(desired: TableDef, ct: TableDef, t: LiveTable, mid: LiveTable, server: Server)
    requires "" !in t.indexes && "" !in mid.indexes && Describes(ct, t)
    ensures var oldOnes := t.indexes.Keys - {PRIMARY};
            var newOnes := NamedSet(desired.indexes);
            var r := RunOps(IndexDiff(desired, ct), At(Some(mid)), server);
      && (r.At? <==> AllFit(Adds(desired, ct), mid, server) && oldOnes - newOnes <= mid.indexes.Keys)
      && (r.At? ==>
            && r.table.Some? && r.table.value.columns == mid.columns && "" !in r.table.value.indexes
            && r.table.value.indexes.Keys == (mid.indexes.Keys + (newOnes - oldOnes)) - (oldOnes - newOnes)
            && PrimaryColumns(r.table.value.indexes) == PrimaryColumns(mid.indexes))
  {
    var adds := Adds(desired, ct);
    var drops := Missing(NamedIndexes(ct.indexes), desired.indexes);
    RunAppend(AddIndexOps(adds), DropIndexOps(drops), At(Some(mid)), server);
    DescribedNames(ct, t);
    MissingNames(desired.indexes, ct.indexes);
    MissingNames(ct.indexes, desired.indexes);
    AddIndexesRun(adds, mid, server);
    PutIndexesExact(mid, adds, server);
    if AllFit(adds, mid, server) {
      var added := mid.(indexes := PutIndexes(mid, adds, server));
      DropIndexesRun(drops, added, server);
      PrimaryKept(added.indexes, IndexNames(drops));
    } else {
      FailedStays(DropIndexOps(drops), server);
    }
  }

  /** The right names remain exactly when no old index vanished and no other came. */
  lemma {:induction false} NamesSurvive(kept: set<string>, oldOnes: set<string>, newOnes: set<string>)
    requires PRIMARY !in oldOnes && PRIMARY !in newOnes && kept !! newOnes - oldOnes
    ensures oldOnes - newOnes <= kept && ((kept + (newOnes - oldOnes)) - (oldOnes - newOnes)) - {PRIMARY} == newOnes
       <==> oldOnes <= kept <= oldOnes + {PRIMARY}
  {
    var left := ((kept + (newOnes - oldOnes)) - (oldOnes - newOnes)) - {PRIMARY};
    if oldOnes - newOnes <= kept && left == newOnes {
      forall n | n in oldOnes ensures n in kept {
        assert n in newOnes ==> n in left;
      }
      forall n | n in kept ensures n in oldOnes + {PRIMARY} {
        assert n in left || n == PRIMARY || n in oldOnes;
      }
    }
  }

  lemma {:induction false} SameTypes(desired: TableDef, mid: LiveTable, i: IndexDef, server: Server)
    requires mid.columns.Keys == Names(desired.columns) && AllVisible(desired, mid)
    ensures (forall c :: c in Resolved(mid, i.columns, server) ==> server.indexable(mid.columns[c].coltype)) <==>
            (forall d :: d in desired.columns && server.fold(d.name) in Folds(SetOf(i.columns), server) ==>
               server.indexable(d.coltype))
  {
    forall c | c in mid.columns
      ensures exists d :: d in desired.columns && d.name == c && d.coltype == mid.columns[c].coltype
    {
      assert c in Names(desired.columns);
    }
    forall d | d in desired.columns ensures d.name in mid.columns && mid.columns[d.name].coltype == d.coltype {
      assert d.name in Names(desired.columns);
    }
  }

  lemma {:induction false} OneFit(desired: TableDef, t: LiveTable, mid: LiveTable, i: IndexDef, server: Server)
    requires mid.columns.Keys == Names(desired.columns) && AllVisible(desired, mid)
    requires t.indexes.Keys + {PRIMARY} == mid.indexes.Keys + {PRIMARY}
    ensures IndexFits(mid, i, server) <==>
      FitsDesired(desired, i, server) && server.fold(i.name) !in Folds(t.indexes.Keys + {PRIMARY}, server)
  {
    SameTypes(desired, mid, i, server);
  }

  /** The indexes to add: the compared ones whose names the table does not have. */
  lemma {:induction false} AddsAre(desired: TableDef, ct: TableDef, t: LiveTable)
    requires "" !in t.indexes && Describes(ct, t)
    ensures forall i :: i in Adds(desired, ct) <==> i in NamedIndexes(desired.indexes) && i.name !in t.indexes
    ensures forall i :: i in Adds(desired, ct) ==> i.name != PRIMARY
  {
    DescribedNames(ct, t);
    NamedExact(desired.indexes);
    MissingNames(desired.indexes, ct.indexes);
  }

  /** The new indexes fit the table in between as they fit the desired one. */
  lemma {:induction false} AddsFitExact(desired: TableDef, ct: TableDef, t: LiveTable, mid: LiveTable, server: Server)
    requires "" !in t.indexes && Describes(ct, t)
    requires mid.columns.Keys == Names(desired.columns) && AllVisible(desired, mid)
    requires t.indexes.Keys - {PRIMARY} <= mid.indexes.Keys <= t.indexes.Keys + {PRIMARY}
    ensures AllFit(Adds(desired, ct), mid, server) <==> AddsFit(desired, t, server)
  {
    AddsAre(desired, ct, t);
    assert t.indexes.Keys + {PRIMARY} == mid.indexes.Keys + {PRIMARY};
    forall i | i in Adds(desired, ct)
      ensures IndexFits(mid, i, server) <==>
        FitsDesired(desired, i, server) && server.fold(i.name) !in Folds(t.indexes.Keys + {PRIMARY}, server)
    {
      OneFit(desired, t, mid, i, server);
    }
  }

  lemma {:induction false} AddsAreNew(desired: TableDef, ct: TableDef, t: LiveTable, mid: LiveTable, server: Server)
    requires "" !in t.indexes && Describes(ct, t) && AllFit(Adds(desired, ct), mid, server)
    ensures mid.indexes.Keys !! NamedSet(desired.indexes) - (t.indexes.Keys - {PRIMARY})
  {
    DescribedNames(ct, t);
    MissingNames(desired.indexes, ct.indexes);
    forall n | n in NamedSet(desired.indexes) - (t.indexes.Keys - {PRIMARY}) ensures n !in mid.indexes {
      assert n in IndexNames(Adds(desired, ct));
      assert n in mid.indexes ==> server.fold(n) in Folds(mid.indexes.Keys + {PRIMARY}, server);
    }
  }

  // --- one table -----------------------------------------------------------

  lemma {:induction false} SameVisible(desired: TableDef, t: LiveTable, t': LiveTable)
    requires t.columns == t'.columns && PrimaryColumns(t.indexes) == PrimaryColumns(t'.indexes)
    requires t.columns.Keys == Names(desired.columns)
    ensures AllVisible(desired, t) <==> AllVisible(desired, t')
  {
    assert forall d :: d in desired.columns ==> Visible(t, d.name) == Visible(t', d.name);
  }

  /** From the table in between to the end. */
  lemma {:induction false} Halves(desired: TableDef, ct: TableDef, t: LiveTable, mid: LiveTable, server: Server)
    requires "" !in t.indexes && "" !in mid.indexes && Describes(ct, t)
    requires mid.columns.Keys == Names(desired.columns)
    ensures var r := RunOps(IndexDiff(desired, ct), At(Some(mid)), server);
      && (r.At? ==> r.table.Some? && "" !in r.table.value.indexes)
      && ((r.At? && Matches(desired, r.table.value)) <==>
            && AllVisible(desired, mid) && AddsFit(desired, t, server)
            && t.indexes.Keys - {PRIMARY} <= mid.indexes.Keys <= t.indexes.Keys + {PRIMARY})
  {
    var oldOnes := t.indexes.Keys - {PRIMARY};
    var newOnes := NamedSet(desired.indexes);
    IndexDiffRun(desired, ct, t, mid, server);
    assert oldOnes + {PRIMARY} == t.indexes.Keys + {PRIMARY};
    if AllFit(Adds(desired, ct), mid, server) {
      AddsAreNew(desired, ct, t, mid, server);
      NamesSurvive(mid.indexes.Keys, oldOnes, newOnes);
    }
    if AllVisible(desired, mid) && oldOnes <= mid.indexes.Keys <= t.indexes.Keys + {PRIMARY} {
      AddsFitExact(desired, ct, t, mid, server);
    }
    var r := RunOps(IndexDiff(desired, ct), At(Some(mid)), server);
    if r.At? {
      SameVisible(desired, mid, r.table.value);
    }
  }

  /** What the table in between must satisfy is what `CanMove` says. */
  lemma {:induction false} MidSettles(desired: TableDef, ct: TableDef, t: LiveTable, server: Server)
    requires PicksFreshNames(server) && ColumnsOk(desired.columns, server) && ValidLive(t) && Describes(ct, t)
    requires desired.columns != [] && CanPut(t, desired.columns, ct.columns, server)
    ensures var mid := AfterColumns(desired, ct, t, server);
      && mid.columns.Keys == Names(desired.columns) && "" !in mid.indexes
      && (&& AllVisible(desired, mid) && AddsFit(desired, t, server)
          && t.indexes.Keys - {PRIMARY} <= mid.indexes.Keys <= t.indexes.Keys + {PRIMARY}
          <==> CanMove(desired, ct, t, server))
  {
    PutsRunExact(t, desired.columns, ct.columns, server);
    AfterColumnsShape(desired, ct, t, server);
    AfterColumnsVisible(desired, ct, t, server);
  }

  lemma {:induction false} ExistingTable(desired: TableDef, ct: TableDef, t: LiveTable, server: Server)
    requires PicksFreshNames(server) && ColumnsOk(desired.columns, server) && ValidLive(t) && Describes(ct, t)
    ensures var r := RunOps(TableDiff(desired, Some(ct)), At(Some(t)), server);
      && (r.At? ==> r.table.Some? && "" !in r.table.value.indexes)
      && ((r.At? && Matches(desired, r.table.value)) <==> CanMove(desired, ct, t, server))
  {
    RunAppend(ColumnDiff(desired, ct), IndexDiff(desired, ct), At(Some(t)), server);
    ColumnDiffRun(desired, ct, t, server);
    if desired.columns != [] && CanPut(t, desired.columns, ct.columns, server) {
      MidSettles(desired, ct, t, server);
      Halves(desired, ct, t, AfterColumns(desired, ct, t, server), server);
    } else {
      FailedStays(IndexDiff(desired, ct), server);
    }
  }

  /**
   * One table: its statements all run, in order, and a second diff finds nothing to do, if the
   * table is convergible; and only then, unless it is created with an index that the reader found
   * and the server did not. `after` is any description of the result.
   */
  lemma {:induction false} TableConverges(desired: TableDef, ct: Option<TableDef>, t: Option<LiveTable>,
                                          after: TableDef, server: Server)
    requires PicksFreshNames(server) && ColumnsOk(desired.columns, server)
    requires t.Some? <==> ct.Some?
    requires t.Some? ==> ValidLive(t.value) && Describes(ct.value, t.value)
    requires var r := RunOps(TableDiff(desired, ct), At(t), server);
      r.At? && r.table.Some? ==> Describes(after, r.table.value)
    ensures var r := RunOps(TableDiff(desired, ct), At(t), server);
            var converges := r.At? && TableDiff(desired, Some(after)) == [];
      && (r.At? ==> r.table.Some?)
      && (converges ==> Matches(desired, r.table.value))
      && (Convergible(desired, ct, t, server) ==> converges)
      && (t.Some? || IndexesRead(desired, server) ==> (converges ==> Convergible(desired, ct, t, server)))
  {
    if t.None? {
      NewTable(desired, server);
    } else {
      ExistingTable(desired, ct.value, t.value, server);
    }
    var r := RunOps(TableDiff(desired, ct), At(t), server);
    if r.At? {
      DiffEmptyExactly(desired, after, r.table.value);
    }
  }

  // --- the whole schema ----------------------------------------------------

  type LiveDb = map<string, LiveTable>

  function LookupLive(live: LiveDb, table: string): Option<LiveTable> {
    if table in live then Some(live[table]) else None
  }

  function PutTable(live: LiveDb, table: string, t: Option<LiveTable>): LiveDb {
    if t.Some? then live[table := t.value] else live
  }

  /** Runs emitted statements one after the other; none if one of them fails. */
  function RunItems(items: seq<DiffItem>, live: LiveDb, server: Server): Option<LiveDb> {
    if items == [] then Some(live)
    else
      var before := RunItems(items[..|items| - 1], live, server);
      var item := items[|items| - 1];
      if before.None? then None
      else
        var name := server.table(item.table);
        var s := RunOp(item.op, LookupLive(before.value, name), server);
        if s.Failed? then None else Some(PutTable(before.value, name, s.table))
  }

  lemma {:induction false} RunItemsLast(items: seq<DiffItem>, item: DiffItem, live: LiveDb, server: Server)
    ensures RunItems(items + [item], live, server) ==
      var before := RunItems(items, live, server);
      if before.None? then None
      else
        var name := server.table(item.table);
        var s := RunOp(item.op, LookupLive(before.value, name), server);
        if s.Failed? then None else Some(PutTable(before.value, name, s.table))
  {
    assert (items + [item])[..|items|] == items;
  }

  lemma {:induction false} RunItemsAppend(a: seq<DiffItem>, b: seq<DiffItem>, live: LiveDb, server: Server)
    ensures RunItems(a + b, live, server) ==
      var mid := RunItems(a, live, server); if mid.None? then None else RunItems(b, mid.value, server)
    decreases |b|
  {
    if b == [] {
      assert a + b == a;
    } else {
      var n := |b| - 1;
      RunItemsAppend(a, b[..n], live, server);
      RunItemsLast(a + b[..n], b[n], live, server);
      AppendSnoc(a, b);
      SnocSplit(b);
      if RunItems(a, live, server).Some? {
        RunItemsLast(b[..n], b[n], RunItems(a, live, server).value, server);
      }
    }
  }

  /** The statements of one table touch that table only. */
  lemma {:induction false} RunTableItems(table: string, ops: seq<Op>, live: LiveDb, server: Server)
    ensures var name := server.table(table);
            var s := RunOps(ops, At(LookupLive(live, name)), server);
            var r := RunItems(Items(table, ops), live, server);
      if s.Failed? then r.None?
      else r.Some? && LookupLive(r.value, name) == s.table
           && forall n :: n != name ==> LookupLive(r.value, n) == LookupLive(live, n)
  {
    if ops == [] {
    } else {
      var n := |ops| - 1;
      RunTableItems(table, ops[..n], live, server);
      assert Items(table, ops)[..n] == Items(table, ops[..n]);
    }
  }

  /** Whatever the server makes of the names of the tables in the plan, those tables alone change. */
  lemma {:induction false} PlanFrame(plan: seq<TablePlan>, live: LiveDb, server: Server)
    ensures var r := RunItems(ItemsOf(plan), live, server);
      r.Some? ==> forall n :: (forall p :: p in plan ==> server.table(p.table) != n) ==>
        LookupLive(r.value, n) == LookupLive(live, n)
  {
    if plan == [] {
    } else {
      var init, last := plan[..|plan| - 1], plan[|plan| - 1];
      PlanFrame(init, live, server);
      assert forall p :: p in plan <==> p in init || p == last;
      RunItemsAppend(ItemsOf(init), Items(last.table, last.ops), live, server);
      var mid := RunItems(ItemsOf(init), live, server);
      if mid.Some? {
        RunTableItems(last.table, last.ops, mid.value, server);
      }
    }
  }

  predicate DistinctPlan(plan: seq<TablePlan>, server: Server) {
    forall i, j :: 0 <= i < j < |plan| ==> server.table(plan[i].table) != server.table(plan[j].table)
  }

  function PartRun(p: TablePlan, live: LiveDb, server: Server): TableState {
    RunOps(p.ops, At(LookupLive(live, server.table(p.table))), server)
  }

  /** The part of one more table runs as it would alone. */
  lemma {:induction false} LastPartRun(plan: seq<TablePlan>, live: LiveDb, server: Server)
    requires plan != [] && DistinctPlan(plan, server)
    ensures var n := |plan| - 1;
            var mid := RunItems(ItemsOf(plan[..n]), live, server);
            var r := RunItems(ItemsOf(plan), live, server);
      && (r.Some? <==> mid.Some? && PartRun(plan[n], live, server).At?)
      && (r.Some? ==> At(LookupLive(r.value, server.table(plan[n].table))) == PartRun(plan[n], live, server))
      && (r.Some? ==> forall m :: m != server.table(plan[n].table) ==>
            LookupLive(r.value, m) == LookupLive(mid.value, m))
  {
    var init, last := plan[..|plan| - 1], plan[|plan| - 1];
    PlanFrame(init, live, server);
    RunItemsAppend(ItemsOf(init), Items(last.table, last.ops), live, server);
    var mid := RunItems(ItemsOf(init), live, server);
    if mid.Some? {
      RunTableItems(last.table, last.ops, mid.value, server);
    }
  }

  /** Tables do not disturb each other: the whole plan runs exactly when each table's part does. */
  lemma {:induction false} PlanRun(plan: seq<TablePlan>, live: LiveDb, server: Server)
    requires DistinctPlan(plan, server)
    ensures var r := RunItems(ItemsOf(plan), live, server);
      && (r.Some? <==> forall p :: p in plan ==> PartRun(p, live, server).At?)
      && (r.Some? ==> forall p :: p in plan ==>
            At(LookupLive(r.value, server.table(p.table))) == PartRun(p, live, server))
  {
    if plan == [] {
    } else {
      var init, last := plan[..|plan| - 1], plan[|plan| - 1];
      PlanRun(init, live, server);
      LastPartRun(plan, live, server);
      assert forall p :: p in plan <==> p in init || p == last;
      forall p | p in init ensures server.table(p.table) != server.table(last.table) {
        var i :| 0 <= i < |init| && init[i] == p;
      }
    }
  }

  lemma {:induction false} ItemsEmpty(plan: seq<TablePlan>)
    ensures ItemsOf(plan) == [] <==> forall p :: p in plan ==> p.ops == []
  {
    if plan == [] {
    } else {
      var n := |plan| - 1;
      ItemsEmpty(plan[..n]);
      assert forall p :: p in plan <==> p in plan[..n] || p == plan[n];
      assert |ItemsOf(plan)| == |ItemsOf(plan[..n])| + |plan[n].ops|;
    }
  }

  function TableRun(t: TableDef, current: map<string, TableDef>, live: LiveDb, server: Server): TableState {
    RunOps(TableDiff(t, Lookup(current, t.name)), At(LookupLive(live, server.table(t.name))), server)
  }

  predicate DistinctTables(desired: seq<TableDef>) {
    forall i, j :: 0 <= i < j < |desired| ==> desired[i].name != desired[j].name
  }

  /** Every desired table is kept under the name it is given. */
  predicate NamesKept(desired: seq<TableDef>, server: Server) {
    forall t :: t in desired ==> server.table(t.name) == t.name
  }

  lemma {:induction false} SchemaRun(desired: seq<TableDef>, current: map<string, TableDef>, live: LiveDb,
                                     server: Server)
    requires DistinctTables(desired) && NamesKept(desired, server)
    ensures var r := RunItems(SchemaDiffOf(desired, current), live, server);
      && (r.Some? <==> forall t :: t in desired ==> TableRun(t, current, live, server).At?)
      && (r.Some? ==> forall t :: t in desired ==>
            At(LookupLive(r.value, t.name)) == TableRun(t, current, live, server))
  {
    var plan := PlanOf(desired, current);
    assert forall i :: 0 <= i < |desired| ==> desired[i] in desired;
    PlanRun(plan, live, server);
    forall i | 0 <= i < |desired| ensures plan[i] in plan && desired[i] in desired { }
  }

  lemma {:induction false} SchemaFrame(desired: seq<TableDef>, current: map<string, TableDef>, live: LiveDb,
                                       server: Server)
    ensures var r := RunItems(SchemaDiffOf(desired, current), live, server);
      r.Some? ==> forall n :: (forall t :: t in desired ==> server.table(t.name) != n) ==>
        LookupLive(r.value, n) == LookupLive(live, n)
  {
    var plan := PlanOf(desired, current);
    PlanFrame(plan, live, server);
    forall i | 0 <= i < |desired| ensures plan[i] in plan && desired[i] in desired { }
  }

  lemma {:induction false} SchemaDiffEmpty(desired: seq<TableDef>, current: map<string, TableDef>)
    ensures SchemaDiffOf(desired, current) == [] <==>
      forall t :: t in desired ==> TableDiff(t, Lookup(current, t.name)) == []
  {
    var plan := PlanOf(desired, current);
    ItemsEmpty(plan);
    forall i | 0 <= i < |desired| ensures plan[i] in plan && desired[i] in desired { }
  }

  /** `current` is what introspection may report for the whole database. */
  ghost predicate DescribesDb(current: map<string, TableDef>, live: LiveDb) {
    && current.Keys == live.Keys
    && forall n :: n in live ==> Describes(current[n], live[n])
  }

  /** A live database: valid tables, each under the name the server keeps it by. */
  ghost predicate ValidDb(live: LiveDb, server: Server) {
    forall n :: n in live ==> ValidLive(live[n]) && server.table(n) == n
  }

  lemma {:induction false} NamesStayKept(items: seq<DiffItem>, live: LiveDb, server: Server)
    requires KeepsTableNames(server) && forall n :: n in live ==> server.table(n) == n
    ensures var r := RunItems(items, live, server); r.Some? ==> forall n :: n in r.value ==> server.table(n) == n
  {
    if items == [] {
    } else {
      NamesStayKept(items[..|items| - 1], live, server);
    }
  }

  /** A table the server keeps under another name is created again by every diff. */
  lemma {:induction false} RenamedTableRepeats(desired: seq<TableDef>, after: map<string, TableDef>, t: TableDef,
                                               server: Server)
    requires t in desired && server.table(t.name) != t.name && forall n :: n in after ==> server.table(n) == n
    ensures TableDiff(t, Lookup(after, t.name)) == [CreateTable(t)] && SchemaDiffOf(desired, after) != []
  {
    SchemaDiffEmpty(desired, after);
  }

  ghost predicate Settles(t: TableDef, current: map<string, TableDef>, live: LiveDb, server: Server) {
    server.table(t.name) == t.name && Convergible(t, Lookup(current, t.name), LookupLive(live, t.name), server)
  }

  /** What one desired table contributes to the result. */
  ghost predicate Fares(t: TableDef, current: map<string, TableDef>, live: LiveDb, after: map<string, TableDef>,
                        server: Server, r: Option<LiveDb>) {
    && (Settles(t, current, live, server) ==> TableRun(t, current, live, server).At?)
    && (r.Some? ==>
          && t.name in r.value
          && (Settles(t, current, live, server) ==> TableDiff(t, Lookup(after, t.name)) == [])
          && (TableDiff(t, Lookup(after, t.name)) == [] ==> Matches(t, r.value[t.name]))
          && (t.name in live || IndexesRead(t, server) ==>
                (TableDiff(t, Lookup(after, t.name)) == [] ==> Settles(t, current, live, server))))
  }

  lemma {:induction false} OneTableOfSchema(t: TableDef, current: map<string, TableDef>, live: LiveDb,
                                            after: map<string, TableDef>, server: Server, r: Option<LiveDb>)
    requires PicksFreshNames(server) && ColumnsOk(t.columns, server) && server.table(t.name) == t.name
    requires DescribesDb(current, live) && ValidDb(live, server)
    requires r.Some? ==> DescribesDb(after, r.value)
    requires r.Some? ==> At(LookupLive(r.value, t.name)) == TableRun(t, current, live, server)
    ensures Fares(t, current, live, after, server, r)
  {
    var lt := LookupLive(live, t.name);
    var ct := Lookup(current, t.name);
    if lt.None? {
      NewTable(t, server);
    } else {
      ExistingTable(t, ct.value, lt.value, server);
    }
    if r.Some? {
      TableConverges(t, ct, lt, after[t.name], server);
    }
  }

  /**
   * For every desired schema, every current one and every reading the server may have of the
   * texts: all emitted statements run, in order, and diffing again finds nothing, if every table
   * is convergible under its own name; and only if, as far as the server finds the indexes of
   * missing tables for which the reader found a name. Then every desired table is there and
   * matches. Other tables never change.
   */
  lemma {:induction false} DiffConvergesExactly(desired: seq<TableDef>, current: map<string, TableDef>, live: LiveDb,
                                                after: map<string, TableDef>, server: Server)
    requires PicksFreshNames(server) && KeepsTableNames(server)
    requires DistinctTables(desired) && forall t :: t in desired ==> ColumnsOk(t.columns, server)
    requires DescribesDb(current, live) && ValidDb(live, server)
    requires var r := RunItems(SchemaDiffOf(desired, current), live, server);
      r.Some? ==> DescribesDb(after, r.value)
    ensures var r := RunItems(SchemaDiffOf(desired, current), live, server);
            var converges := r.Some? && SchemaDiffOf(desired, after) == [];
            var convergible := forall t :: t in desired ==> Settles(t, current, live, server);
      && (convergible ==> converges)
      && ((forall t :: t in desired && t.name !in live ==> IndexesRead(t, server)) ==> (converges ==> convergible))
      && (converges ==> forall t :: t in desired ==> t.name in r.value && Matches(t, r.value[t.name]))
      && (r.Some? ==> forall n :: (forall t :: t in desired ==> server.table(t.name) != n) ==>
            LookupLive(r.value, n) == LookupLive(live, n))
  {
    var r := RunItems(SchemaDiffOf(desired, current), live, server);
    SchemaFrame(desired, current, live, server);
    if NamesKept(desired, server) {
      SchemaRun(desired, current, live, server);
      SchemaDiffEmpty(desired, after);
      forall t | t in desired ensures Fares(t, current, live, after, server, r) {
        OneTableOfSchema(t, current, live, after, server, r);
      }
    } else {
      var t :| t in desired && server.table(t.name) != t.name;
      NamesStayKept(SchemaDiffOf(desired, current), live, server);
      if r.Some? {
        RenamedTableRepeats(desired, after, t, server);
      }
    }
  }
}
