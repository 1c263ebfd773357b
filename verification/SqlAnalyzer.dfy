/** What the static analyzer says about a statement, and which tables a request touches. */
module SqlAnalyzer {
  import opened Common

  datatype StatementKind =
    | Select | Insert | Update | Delete
    | CreateTable | DropTable | Truncate | AlterTable
    | CreateDatabase | DropDatabase | CreateIndex | DropIndex
    | Other

  datatype AnalyzedStatement = AnalyzedStatement(
    line: nat,
    kind: StatementKind,
    table: Option<string>,
    hasWhere: bool,
    alterDropColumn: bool,
    alterDropIndex: bool)

  const DDL_KINDS: set<StatementKind> :=
    {CreateTable, DropTable, Truncate, AlterTable, CreateDatabase, DropDatabase, CreateIndex, DropIndex}

  predicate IsDdl(s: AnalyzedStatement) { s.kind in DDL_KINDS }

  /** Tables of the statements, each once, in order of first appearance. */
  function TouchedTables(stmts: seq<AnalyzedStatement>): (tables: seq<string>)
    ensures Distinct(tables)
    ensures forall t :: t in tables <==> exists s :: s in stmts && s.table == Some(t)
  {
    if stmts == [] then []
    else
      var last := stmts[|stmts| - 1];
      var before := TouchedTables(stmts[..|stmts| - 1]);
      assert stmts == stmts[..|stmts| - 1] + [last];
      if last.table.Some? && last.table.value !in before then before + [last.table.value] else before
  }

  /** Further statements only add tables at the end: each stands where it was first touched. */
  lemma {:induction false} FirstTouchedFirst(stmts: seq<AnalyzedStatement>, more: seq<AnalyzedStatement>)
    ensures TouchedTables(stmts) <= TouchedTables(stmts + more)
    decreases |more|
  {
    if more == [] {
      assert stmts + more == stmts;
    } else {
      FirstTouchedFirst(stmts, more[..|more| - 1]);
      AppendSnoc(stmts, more);
    }
  }
}
