/** The database server as the schema diff meets it: live tables, and what each statement does. */
module SchemaServer {
  import opened Common
  import opened SchemaModel
  import opened SchemaParser
  import opened SchemaDiff

  // --- live tables ---------------------------------------------------------

  /** A column with the type the server reports for it. */
  datatype LiveColumn = LiveColumn(coltype: string, nullable: bool)

  /** A table as the server holds it; index columns by index name, `PRIMARY` among them. */
  datatype LiveTable = LiveTable(columns: map<string, LiveColumn>, indexes: map<string, set<string>>)

  function PrimaryColumns(indexes: map<string, set<string>>): set<string> {
    if PRIMARY in indexes then indexes[PRIMARY] else {}
  }

  /** The server reports every primary-key column as NOT NULL, whatever its definition said. */
  function Visible(t: LiveTable, name: string): LiveColumn
    requires name in t.columns
  {
    LiveColumn(t.columns[name].coltype, t.columns[name].nullable && name !in PrimaryColumns(t.indexes))
  }

  ghost predicate ValidLive(t: LiveTable) {
    && t.columns != map[]
    && "" !in t.indexes
    && forall n :: n in t.indexes ==> t.indexes[n] != {} && t.indexes[n] <= t.columns.Keys
  }

  function SetOf(s: seq<string>): set<string> { set x | x in s }

  function Names(columns: seq<ColumnDef>): set<string> { set c | c in columns :: c.name }

  // --- how the server reads text -------------------------------------------

  /** What a column definition's text means to the server, which may differ from what the reader made of it. */
  datatype ServerColumn = ServerColumn(name: string, coltype: string, nullable: bool, primary: bool, unique: bool)

  /** An index of a CREATE TABLE text; an empty name leaves the choice to the server. */
  datatype IndexClause = IndexClause(name: string, columns: seq<string>)

  datatype ServerTable = ServerTable(columns: seq<ServerColumn>, indexes: seq<IndexClause>)

  /**
   * Its reading of column texts and CREATE TABLE texts, `None` being a text it refuses; the name
   * under which it keeps a table; the form in which it compares the names of columns and of
   * indexes; the types it indexes without a prefix length; and the names it makes up for indexes.
   */
  datatype Server = Server(
    column: string -> Option<ServerColumn>,
    create: string -> Option<ServerTable>,
    table: string -> string,
    fold: string -> string,
    indexable: string -> bool,
    autoName: (set<string>, set<string>) -> string)

  ghost predicate PicksFreshNames(server: Server) {
    forall taken: set<string>, columns: set<string> ::
      var n := server.autoName(taken, columns); n !in taken && n != "" && n != PRIMARY
  }

  /** Names as the server compares them, usually without regard to case. */
  function Folds(names: set<string>, server: Server): set<string> { set n | n in names :: server.fold(n) }

  ghost predicate KeepsTableNames(server: Server) {
    forall name :: server.table(server.table(name)) == server.table(name)
  }

  /** The indexes that columns ask for in their own definitions. */
  function InlineClauses(columns: seq<ServerColumn>): seq<IndexClause> {
    if columns == [] then []
    else
      var c := columns[|columns| - 1];
      InlineClauses(columns[..|columns| - 1])
      + (if c.primary then [IndexClause(PRIMARY, [c.name])] else [])
      + (if c.unique then [IndexClause("", [c.name])] else [])
  }

  function Clauses(s: ServerTable): seq<IndexClause> { s.indexes + InlineClauses(s.columns) }

  function ClauseNames(s: ServerTable): set<string> { set k | k in Clauses(s) && k.name != "" :: k.name }

  function ServerNames(columns: seq<ServerColumn>): set<string> { set c | c in columns :: c.name }

  predicate SameName(a: string, b: string, server: Server) { server.fold(a) == server.fold(b) }

  predicate DistinctClauses(clauses: seq<IndexClause>, server: Server) {
    forall i, j :: 0 <= i < j < |clauses| && clauses[i].name != "" && clauses[j].name != "" ==>
      !SameName(clauses[i].name, clauses[j].name, server)
  }

  /** A table the server will create: some columns, no name twice, indexes over columns of the table, by their names. */
  predicate Acceptable(s: ServerTable, server: Server) {
    && s.columns != []
    && (forall i, j :: 0 <= i < j < |s.columns| ==> !SameName(s.columns[i].name, s.columns[j].name, server))
    && DistinctClauses(Clauses(s), server)
    && (forall k :: k in Clauses(s) ==> k.columns != [] && SetOf(k.columns) <= ServerNames(s.columns))
  }

  /** The statement a CREATE item carries: the original text if there is one. */
  function CreateText(def: TableDef): string {
    if def.rawCreate.Some? then def.rawCreate.value else BuildCreateStatement(def)
  }

  // --- execution -----------------------------------------------------------

  /** Dropping columns shrinks the indexes over them, and removes an index left without columns. */
  function Shrink(indexes: map<string, set<string>>, gone: set<string>): map<string, set<string>> {
    map n | n in indexes && indexes[n] - gone != {} :: indexes[n] - gone
  }

  function PutColumns(columns: seq<ServerColumn>): map<string, LiveColumn> {
    if columns == [] then map[]
    else
      var c := columns[|columns| - 1];
      PutColumns(columns[..|columns| - 1])[c.name := LiveColumn(c.coltype, c.nullable)]
  }

  function PutNamed(clauses: seq<IndexClause>): map<string, set<string>> {
    if clauses == [] then map[]
    else
      var before := PutNamed(clauses[..|clauses| - 1]);
      var k := clauses[|clauses| - 1];
      if k.name == "" then before else before[k.name := SetOf(k.columns)]
  }

  function PutAuto(base: map<string, set<string>>, clauses: seq<IndexClause>, server: Server)
    : map<string, set<string>>
  {
    if clauses == [] then base
    else
      var before := PutAuto(base, clauses[..|clauses| - 1], server);
      var k := clauses[|clauses| - 1];
      if k.name != "" then before else before[server.autoName(before.Keys, SetOf(k.columns)) := SetOf(k.columns)]
  }

  function LiveOf(s: ServerTable, server: Server): LiveTable {
    LiveTable(PutColumns(s.columns), PutAuto(PutNamed(Clauses(s)), Clauses(s), server))
  }

  /** The indexes after a column with its own PRIMARY KEY or UNIQUE has been added or redefined. */
  function PutInline(indexes: map<string, set<string>>, c: ServerColumn, server: Server): map<string, set<string>> {
    var keyed := if c.primary then indexes[PRIMARY := {c.name}] else indexes;
    if c.unique then keyed[server.autoName(keyed.Keys, {c.name}) := {c.name}] else keyed
  }

  /** A table during execution: a statement has failed, or the table is there or not. */
  datatype TableState = Failed | At(table: Option<LiveTable>)

  /** A second primary key is refused, and so is a key over a type that needs a prefix length. */
  predicate KeysFit(indexes: map<string, set<string>>, c: ServerColumn, server: Server) {
    && !(c.primary && PRIMARY in indexes)
    && (c.primary || c.unique ==> server.indexable(c.coltype))
  }

  /** Adds a column that is new, or redefines one that exists. */
  function PutColumn(t: LiveTable, c: ServerColumn, present: bool, server: Server): TableState {
    var fits := if present then c.name in t.columns else server.fold(c.name) !in Folds(t.columns.Keys, server);
    if !fits || !KeysFit(t.indexes, c, server) then Failed
    else At(Some(LiveTable(t.columns[c.name := LiveColumn(c.coltype, c.nullable)], PutInline(t.indexes, c, server))))
  }

  /** The columns of the table that an index statement names. */
  function Resolved(t: LiveTable, columns: seq<string>, server: Server): set<string> {
    set c | c in t.columns.Keys && server.fold(c) in Folds(SetOf(columns), server)
  }

  function PutIndex(t: LiveTable, i: IndexDef, server: Server): LiveTable {
    t.(indexes := t.indexes[i.name := Resolved(t, i.columns, server)])
  }

  predicate IndexFits(t: LiveTable, i: IndexDef, server: Server) {
    && server.fold(i.name) !in Folds(t.indexes.Keys + {PRIMARY}, server)
    && i.columns != [] && Folds(SetOf(i.columns), server) <= Folds(t.columns.Keys, server)
    && forall c :: c in Resolved(t, i.columns, server) ==> server.indexable(t.columns[c].coltype)
  }

  /** What the server does with one statement. */
  function RunOp(op: Op, table: Option<LiveTable>, server: Server): (s: TableState)
    ensures s.At? ==> s.table.Some?
  {
    match op
    case CreateTable(def) =>
      var s := server.create(CreateText(def));
      if table.Some? || s.None? || !Acceptable(s.value, server) then Failed else At(Some(LiveOf(s.value, server)))
    case AddColumn(raw) =>
      var c := server.column(raw);
      if table.None? || c.None? then Failed else PutColumn(table.value, c.value, false, server)
    case ModifyColumn(raw) =>
      var c := server.column(raw);
      if table.None? || c.None? then Failed else PutColumn(table.value, c.value, true, server)
    case DropColumn(name) =>
      if table.None? || name !in table.value.columns || table.value.columns.Keys == {name} then Failed
      else At(Some(LiveTable(table.value.columns - {name}, Shrink(table.value.indexes, {name}))))
    case AddIndex(i) =>
      if table.None? || !IndexFits(table.value, i, server) then Failed else At(Some(PutIndex(table.value, i, server)))
    case DropIndex(name) =>
      if table.None? || name !in table.value.indexes then Failed
      else At(Some(table.value.(indexes := table.value.indexes - {name})))
  }

  function RunOps(ops: seq<Op>, s: TableState, server: Server): TableState {
    if ops == [] then s
    else
      var before := RunOps(ops[..|ops| - 1], s, server);
      if before.Failed? then Failed else RunOp(ops[|ops| - 1], before.table, server)
  }

  lemma {:induction false} RunAppend(a: seq<Op>, b: seq<Op>, s: TableState, server: Server)
    ensures RunOps(a + b, s, server) == RunOps(b, RunOps(a, s, server), server)
    decreases |b|
  {
    if b == [] {
      assert a + b == a;
    } else {
      var n := |b| - 1;
      assert (a + b)[..|a + b| - 1] == a + b[..n];
      RunAppend(a, b[..n], s, server);
    }
  }

  lemma {:induction false} RunLast(ops: seq<Op>, op: Op, s: TableState, server: Server)
    ensures RunOps(ops + [op], s, server) ==
      var before := RunOps(ops, s, server); if before.Failed? then Failed else RunOp(op, before.table, server)
  {
  }

  lemma {:induction false} FailedStays(ops: seq<Op>, server: Server)
    ensures RunOps(ops, Failed, server) == Failed
  {
    if ops == [] {
    } else {
      FailedStays(ops[..|ops| - 1], server);
    }
  }

  // --- a created table ------------------------------------------------------

  lemma {:induction false} PutColumnsExact(columns: seq<ServerColumn>)
    requires forall i, j :: 0 <= i < j < |columns| ==> columns[i].name != columns[j].name
    ensures PutColumns(columns).Keys == ServerNames(columns)
    ensures forall c :: c in columns ==> PutColumns(columns)[c.name] == LiveColumn(c.coltype, c.nullable)
  {
    if columns == [] {
    } else {
      var n := |columns| - 1;
      PutColumnsExact(columns[..n]);
      assert forall c :: c in columns <==> c in columns[..n] || c == columns[n];
      forall c | c in columns[..n] ensures c.name != columns[n].name {
        var i :| 0 <= i < n && columns[i] == c;
      }
    }
  }

  lemma {:induction false} PutNamedExact(clauses: seq<IndexClause>, server: Server)
    requires DistinctClauses(clauses, server)
    ensures forall n :: n in PutNamed(clauses) <==> n != "" && exists k :: k in clauses && k.name == n
    ensures forall k :: k in clauses && k.name != "" ==> PutNamed(clauses)[k.name] == SetOf(k.columns)
  {
    if clauses == [] {
    } else {
      var n := |clauses| - 1;
      PutNamedExact(clauses[..n], server);
      assert forall k :: k in clauses <==> k in clauses[..n] || k == clauses[n];
      forall k | k in clauses[..n] && k.name != "" ensures k.name != clauses[n].name {
        var i :| 0 <= i < n && clauses[i] == k;
      }
    }
  }

  /** Names the server makes up come on top of the others, as soon as one clause has no name. */
  lemma {:induction false} PutAutoExact(base: map<string, set<string>>, clauses: seq<IndexClause>, server: Server)
    requires PicksFreshNames(server) && "" !in base
    ensures "" !in PutAuto(base, clauses, server)
    ensures base.Keys <= PutAuto(base, clauses, server).Keys
    ensures forall n :: n in base ==> PutAuto(base, clauses, server)[n] == base[n]
    ensures PRIMARY in PutAuto(base, clauses, server) <==> PRIMARY in base
    ensures (forall k :: k in clauses ==> k.name != "") ==> PutAuto(base, clauses, server) == base
    ensures PutAuto(base, clauses, server).Keys <= base.Keys ==> forall k :: k in clauses ==> k.name != ""
  {
    if clauses == [] {
    } else {
      var n := |clauses| - 1;
      PutAutoExact(base, clauses[..n], server);
      assert forall k :: k in clauses <==> k in clauses[..n] || k == clauses[n];
    }
  }
}
