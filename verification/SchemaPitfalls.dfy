/** What convergence asks of schemas and of the server: when its terms can be met, and schemas that miss them. */
module SchemaPitfalls {
  import opened Common
  import opened Text
  import opened SchemaModel
  import opened SchemaLexer
  import opened SchemaParser
  import opened SchemaDiff
  import opened SchemaServer
  import opened SchemaExecution
  import opened SchemaConvergence
  import RoundTrip = SchemaRoundTrip

  // --- the terms can be met ------------------------------------------------

  lemma {:induction false} LengthBound(names: set<string>) returns (bound: nat)
    ensures forall n :: n in names ==> |n| <= bound
  {
    if names == {} {
      bound := 0;
    } else {
      var n :| n in names;
      var rest := LengthBound(names - {n});
      bound := if |n| > rest then |n| else rest;
    }
  }

  lemma {:induction false} FreshExists(taken: set<string>)
    ensures exists n: string :: n !in taken && n != "" && n != PRIMARY
  {
    var bound := LengthBound(taken);
    var n := seq(bound + |PRIMARY| + 1, i => '_');
    assert n !in taken && n != "" && n != PRIMARY;
  }

  ghost function FreshName(taken: set<string>): string {
    FreshExists(taken);
    var n: string :| n !in taken && n != "" && n != PRIMARY;
    n
  }

  /** Whatever the server reads and indexes, names it can pick exist. */
  lemma {:induction false} FreshServerExists(column: string -> Option<ServerColumn>,
                                             create: string -> Option<ServerTable>, table: string -> string,
                                             fold: string -> string, indexable: string -> bool)
    ensures exists server: Server ::
      && PicksFreshNames(server)
      && server.column == column && server.create == create && server.table == table
      && server.fold == fold && server.indexable == indexable
  {
    var server := Server(column, create, table, fold, indexable, (taken, columns) => FreshName(taken));
    assert PicksFreshNames(server);
  }

  /** The server takes a quoted name at the front of a definition for the column's name. */
  ghost predicate ReadsQuotedNames(server: Server) {
    forall name: string, rest: string :: RoundTrip.IsName(name) ==>
      var c := server.column("`" + name + "` " + rest);
      c.Some? ==> c.value.name == name
  }

  lemma {:induction false} QuotedRaw(c: ColumnDef) returns (rest: string)
    requires RoundTrip.Stable(c, ReadPart)
    ensures RoundTrip.IsName(c.name) && c.raw == "`" + c.name + "` " + rest
  {
    RoundTrip.ColumnFromDefinition(c.raw);
    var n := NameAt(c.raw, 0).value;
    rest := Trim(c.raw[SpacesAfter(c.raw, n.end).value..]);
    RoundTrip.RestShape(n.text, rest);
    RoundTrip.NamePrefix(c.raw);
  }

  /** For parsed statements that is all the names need. */
  lemma {:induction false} ParsedNamesRead(statement: string, server: Server)
    requires CreateTableOf(statement).Some? && ReadsQuotedNames(server)
    ensures NamesRead(CreateTableOf(statement).value.columns, server)
  {
    RoundTrip.ParsedTableStable(statement);
    forall c | c in CreateTableOf(statement).value.columns && server.column(c.raw).Some?
      ensures server.column(c.raw).value.name == c.name
    {
      var rest := QuotedRaw(c);
    }
  }

  // --- indexes the reader does not see --------------------------------------

  /** `name` with a type and an inline UNIQUE. */
  function UniqueColumn(name: string): ColumnDef {
    ColumnDef(name, "int", true, "`" + name + "` " + "int unique")
  }

  lemma {:induction false} IntUniqueType()
    ensures TypeLength("int unique") == 3
  {
    var s := "int unique";
    assert LettersEnd(s, 3) == 3;
    assert LettersEnd(s, 2) == 3;
    assert LettersEnd(s, 1) == 3;
    assert SkipSpaces(s, 4) == 4;
    assert SkipSpaces(s, 3) == 4;
    assert s[6] == 'i';
  }

  lemma {:induction false} IntUniqueText()
    ensures Trim("int unique") == "int unique" && Neutral("int unique")
  {
    TrimIdentity("int unique");
  }

  lemma {:induction false} IntUniquePhrases()
    ensures !HasPhrase("int unique", "primary", "key") && !HasPhrase("int unique", "not", "null")
  {
    var s := "int unique";
    var lower := LowerAll(s);
    assert lower == s;
    NotThere(s, "primary", "key");
    NotThere(s, "not", "null");
  }

  lemma {:induction false} UniqueColumnIs(name: string, rest: string)
    requires RoundTrip.IsName(name) && rest == "int unique"
    ensures RoundTrip.IsColumn(UniqueColumn(name), false, rest)
  {
    IntUniqueType();
    IntUniqueText();
    IntUniquePhrases();
    RoundTrip.IntType();
    assert rest[..3] == "int";
    RoundTrip.PlainColumn(name, rest);
  }

  lemma {:induction false} UniqueColumnReads(name: string)
    requires RoundTrip.IsName(name)
    ensures RoundTrip.Stable(UniqueColumn(name), ReadPart)
    ensures ReadPart(UniqueColumn(name).raw) == ColumnPart(UniqueColumn(name), false)
  {
    UniqueColumnIs(name, "int unique");
    IntUniqueText();
    RoundTrip.ColumnStable(UniqueColumn(name), false, "int unique");
  }

  function UniqueTable(table: string, column: string): string {
    BuildCreateStatement(TableDef(table, [UniqueColumn(column)], [], None))
  }

  /** The reader takes such a table, and keeps no index. */
  lemma {:induction false} UniqueTableReads(table: string, column: string)
    requires RoundTrip.IsName(table) && RoundTrip.IsName(column)
    ensures var r := CreateTableOf(UniqueTable(table, column));
      r.Some? && r.value.columns == [UniqueColumn(column)] && r.value.indexes == []
  {
    var c := UniqueColumn(column);
    UniqueColumnReads(column);
    RoundTrip.NothingInline(c, ReadPart);
    RoundTrip.PrintedReads(TableDef(table, [c], [], None));
  }

  function UniqueLive(column: string, server: Server): LiveTable {
    LiveTable(map[column := LiveColumn("int", true)], map[server.autoName({}, {column}) := {column}])
  }

  lemma {:induction false} OneClause(c: ServerColumn)
    requires !c.primary && c.unique
    ensures Clauses(ServerTable([c], [])) == [IndexClause("", [c.name])]
  {
    assert [c][..0] == [] && InlineClauses([]) == [];
  }

  lemma {:induction false} OneAuto(k: IndexClause, server: Server)
    requires k.name == ""
    ensures PutAuto(PutNamed([k]), [k], server) == map[server.autoName({}, SetOf(k.columns)) := SetOf(k.columns)]
  {
    assert [k][..0] == [] && PutNamed([]) == map[];
    assert PutNamed([k]) == map[];
    assert PutAuto(map[], [], server) == map[];
    var none: map<string, set<string>> := map[];
    assert none.Keys == {};
  }

  lemma {:induction false} OneColumn(c: ServerColumn)
    ensures PutColumns([c]) == map[c.name := LiveColumn(c.coltype, c.nullable)] && ServerNames([c]) == {c.name}
  {
    assert [c][..0] == [] && PutColumns([]) == map[];
  }

  lemma {:induction false} UniqueIsLive(column: string, server: Server)
    ensures var s := ServerTable([ServerColumn(column, "int", true, false, true)], []);
      Acceptable(s, server) && LiveOf(s, server) == UniqueLive(column, server)
  {
    var c := ServerColumn(column, "int", true, false, true);
    OneClause(c);
    OneAuto(IndexClause("", [column]), server);
    OneColumn(c);
    assert SetOf([column]) == {column};
  }

  lemma {:induction false} OneName(indexes: seq<IndexDef>, n: string)
    requires DistinctNames(indexes) && IndexNames(indexes) == {n}
    ensures |indexes| == 1 && indexes[0].name == n
  {
    assert n in IndexNames(indexes);
    forall k | 0 <= k < |indexes| ensures indexes[k].name == n {
      assert indexes[k] in indexes && indexes[k].name in IndexNames(indexes);
    }
    assert indexes[0].name == n && indexes[|indexes| - 1].name == n;
  }

  lemma {:induction false} OneDropIndex(def: TableDef, after: TableDef, live: LiveTable, n: string)
    requires def.indexes == [] && Describes(after, live) && live.indexes.Keys == {n} && n != "" && n != PRIMARY
    ensures IndexDiff(def, after) == [DropIndex(n)]
  {
    DescribedNames(after, live);
    MissingNames(after.indexes, def.indexes);
    assert NamedSet(def.indexes) == {};
    OneName(Missing(NamedIndexes(after.indexes), def.indexes), n);
  }

  lemma {:induction false} OnlyDropsAuto(def: TableDef, column: string, after: TableDef, server: Server)
    requires PicksFreshNames(server) && def.columns == [UniqueColumn(column)] && def.indexes == []
    requires Describes(after, UniqueLive(column, server))
    ensures TableDiff(def, Some(after)) == [DropIndex(server.autoName({}, {column}))]
  {
    var live := UniqueLive(column, server);
    assert def.columns[0] in def.columns && Names(def.columns) == {column};
    ColumnDiffEmpty(def, after, live);
    OneDropIndex(def, after, live, server.autoName({}, {column}));
  }

  /**
   * A table with an inline UNIQUE is created as written, and then the second diff drops the
   * index the server made for it.
   */
  lemma {:induction false} InlineUniqueIsDropped(table: string, column: string, def: TableDef, after: TableDef,
                                                 server: Server)
    requires RoundTrip.IsName(table) && RoundTrip.IsName(column) && PicksFreshNames(server)
    requires CreateTableOf(UniqueTable(table, column)) == Some(def)
    requires server.create(CreateText(def)) == Some(ServerTable([ServerColumn(column, "int", true, false, true)], []))
    requires Describes(after, UniqueLive(column, server))
    ensures RunOps(TableDiff(def, None), At(None), server) == At(Some(UniqueLive(column, server)))
    ensures TableDiff(def, Some(after)) == [DropIndex(server.autoName({}, {column}))]
  {
    UniqueTableReads(table, column);
    UniqueIsLive(column, server);
    NewTable(def, server);
    OnlyDropsAuto(def, column, after, server);
  }

  function LuckyTable(column: string, n: string): TableDef {
    TableDef("t", [ColumnDef(column, "int", true, "")], [IndexDef(n, [column], true)], None)
  }

  lemma {:induction false} LuckyMatches(column: string, n: string, server: Server)
    requires PicksFreshNames(server) && server.autoName({}, {column}) == n
    ensures Matches(LuckyTable(column, n), UniqueLive(column, server)) && NamedSet(LuckyTable(column, n).indexes) == {n}
  {
    var def := LuckyTable(column, n);
    assert def.columns[0] in def.columns && def.indexes[0] in def.indexes;
    assert Names(def.columns) == {column};
  }

  /**
   * Without `IndexesRead` the condition is not necessary: the reader finds an index `n` that the
   * server takes for a nameless one, and the server happens to call it `n`.
   */
  lemma {:induction false} LuckyNameConverges(column: string, n: string, server: Server)
    requires PicksFreshNames(server) && server.autoName({}, {column}) == n
    requires server.create(CreateText(LuckyTable(column, n)))
          == Some(ServerTable([ServerColumn(column, "int", true, false, true)], []))
    ensures var def := LuckyTable(column, n);
            var r := RunOps(TableDiff(def, None), At(None), server);
      && r.At? && Matches(def, r.table.value)
      && !CanCreate(def, server) && !IndexesRead(def, server)
  {
    UniqueIsLive(column, server);
    NewTable(LuckyTable(column, n), server);
    LuckyMatches(column, n, server);
    OneClause(ServerColumn(column, "int", true, false, true));
    assert [IndexClause("", [column])][0] == IndexClause("", [column]);
  }

  // --- other texts that say less than the server makes of them ---------------

  lemma {:induction false} OneModify(c: ColumnDef, current: seq<ColumnDef>)
    requires Emitted(c, current) && FindColumn(current, c.name).Some?
    ensures ColumnOps([c], current) == [ModifyColumn(c.raw)]
  {
    assert [c][..0] == [] && ColumnOps([], current) == [];
  }

  lemma {:induction false} NoIndexDiff(desired: TableDef, ct: TableDef, t: LiveTable)
    requires Describes(ct, t) && t.indexes == map[] && desired.indexes == []
    ensures IndexDiff(desired, ct) == []
  {
    IndexDiffEmpty(desired, ct, t);
  }

  lemma {:induction false} OneColumnDiff(c: ColumnDef, ct: TableDef, t: LiveTable)
    requires Describes(ct, t) && t.columns.Keys == {c.name} && t.indexes == map[]
    ensures TableDiff(TableDef("t", [c], [], None), Some(ct)) == ColumnOps([c], ct.columns)
  {
    var desired := TableDef("t", [c], [], None);
    NoIndexDiff(desired, ct, t);
    GoneNames(ct.columns, desired.columns);
    assert desired.columns[0] in desired.columns && Names(desired.columns) == {c.name};
  }

  /**
   * A type the server reports under another name: the same MODIFY is emitted every time, and
   * running it changes nothing.
   */
  lemma {:induction false} SynonymRepeats(c: ColumnDef, s: ServerColumn, t: LiveTable, ct: TableDef, server: Server)
    requires server.column(c.raw) == Some(s) && s.name == c.name && !s.primary && !s.unique
    requires s.coltype != c.coltype
    requires t == LiveTable(map[c.name := LiveColumn(s.coltype, s.nullable)], map[]) && Describes(ct, t)
    ensures var desired := TableDef("t", [c], [], None);
      && TableDiff(desired, Some(ct)) == [ModifyColumn(c.raw)]
      && RunOps(TableDiff(desired, Some(ct)), At(Some(t)), server) == At(Some(t))
  {
    OneColumnDiff(c, ct, t);
    DescribedColumn(ct, t, c);
    OneModify(c, ct.columns);
    RunLast([], ModifyColumn(c.raw), At(Some(t)), server);
    assert [] + [ModifyColumn(c.raw)] == [ModifyColumn(c.raw)];
    assert t.columns[c.name := LiveColumn(s.coltype, s.nullable)] == t.columns;
  }

  lemma {:induction false} ColumnsFailFirst(desired: TableDef, ct: TableDef, t: LiveTable, server: Server)
    requires PicksFreshNames(server) && ColumnsOk(desired.columns, server) && ValidLive(t) && Describes(ct, t)
    requires !CanPut(t, desired.columns, ct.columns, server)
    ensures RunOps(TableDiff(desired, Some(ct)), At(Some(t)), server) == Failed
  {
    RunAppend(ColumnDiff(desired, ct), IndexDiff(desired, ct), At(Some(t)), server);
    ColumnDiffRun(desired, ct, t, server);
    FailedStays(IndexDiff(desired, ct), server);
  }

  /** Changing the type of a column written with an inline PRIMARY KEY: the statement is refused. */
  lemma {:induction false} RetypedPrimaryKeyFails(c: ColumnDef, s: ServerColumn, t: LiveTable, ct: TableDef,
                                                  server: Server)
    requires PicksFreshNames(server) && server.column(c.raw) == Some(s) && s.name == c.name && s.primary
    requires t == LiveTable(map[c.name := LiveColumn("int", false)], map[PRIMARY := {c.name}]) && Describes(ct, t)
    requires c.coltype == "bigint"
    ensures var desired := TableDef("t", [c], [InlinePrimary(c)], None);
      RunOps(TableDiff(desired, Some(ct)), At(Some(t)), server) == Failed
  {
    var desired := TableDef("t", [c], [InlinePrimary(c)], None);
    assert desired.columns[0] in desired.columns;
    DescribedColumn(ct, t, c);
    assert PutsPrimary(c, ct.columns, server);
    ColumnsFailFirst(desired, ct, t, server);
  }

  /** A name that changes in case only: the new column cannot be added while the old one is there. */
  lemma {:induction false} CaseChangeFails(c: ColumnDef, name: string, t: LiveTable, ct: TableDef, server: Server)
    requires PicksFreshNames(server) && NamesRead([c], server) && ValidLive(t) && Describes(ct, t)
    requires name in t.columns && c.name !in t.columns && SameName(c.name, name, server)
    ensures RunOps(TableDiff(TableDef("t", [c], [], None), Some(ct)), At(Some(t)), server) == Failed
  {
    var desired := TableDef("t", [c], [], None);
    assert desired.columns[0] in desired.columns;
    DescribedColumn(ct, t, c);
    assert server.fold(name) in Folds(t.columns.Keys, server);
    ColumnsFailFirst(desired, ct, t, server);
  }
}
