/** Risky-SQL linting: seven rules, a level per rule, and the gate in front of an apply. */
module Lint {
  import opened Common
  import opened SqlAnalyzer
  import opened ChangeRequest
  import DryRun

  datatype Severity = Info | Warn | Block

  /** A stored level; DISABLED silences the rule. */
  datatype Level = Disabled | Report(severity: Severity)

  datatype Rule =
    | DropDatabaseRule | DropTableRule | TruncateRule
    | DeleteWithoutWhere | UpdateWithoutWhere
    | AlterDropColumn | DropIndexRule

  const RULES: seq<Rule> :=
    [DropDatabaseRule, DropTableRule, TruncateRule, DeleteWithoutWhere, UpdateWithoutWhere,
     AlterDropColumn, DropIndexRule]

  function Base(rule: Rule): Severity {
    match rule
    case AlterDropColumn => Warn
    case DropIndexRule => Info
    case _ => Block
  }

  predicate Matches(rule: Rule, s: AnalyzedStatement) {
    match rule
    case DropDatabaseRule => s.kind == DropDatabase
    case DropTableRule => s.kind == DropTable
    case TruncateRule => s.kind == Truncate
    case DeleteWithoutWhere => s.kind == Delete && !s.hasWhere
    case UpdateWithoutWhere => s.kind == Update && !s.hasWhere
    case AlterDropColumn => s.kind == AlterTable && s.alterDropColumn
    case DropIndexRule => s.kind == DropIndex || (s.kind == AlterTable && s.alterDropIndex)
  }

  /** DEV downgrades BLOCK to WARN. */
  function EffectiveSeverity(base: Severity, env: Env): Severity {
    if env == Dev && base == Block then Warn else base
  }

  type Policy = map<Rule, Level>

  /** The level of a rule: the stored one if there is one, else the environment's default. */
  function LevelOf(stored: Policy, env: Env, rule: Rule): Level {
    if rule in stored then stored[rule] else Report(EffectiveSeverity(Base(rule), env))
  }

  /** Position of a rule in the catalogue. */
  function RuleIndex(rule: Rule): (i: nat)
    ensures i < |RULES| && RULES[i] == rule
  {
    match rule
    case DropDatabaseRule => assert RULES[0] == rule; 0
    case DropTableRule => assert RULES[1] == rule; 1
    case TruncateRule => assert RULES[2] == rule; 2
    case DeleteWithoutWhere => assert RULES[3] == rule; 3
    case UpdateWithoutWhere => assert RULES[4] == rule; 4
    case AlterDropColumn => assert RULES[5] == rule; 5
    case DropIndexRule => assert RULES[6] == rule; 6
  }

  /** A complete policy: every rule has a level, whatever the store holds. */
  method GetPolicyMap(stored: Policy, env: Env) returns (policy: Policy)
    ensures forall rule :: rule in policy && policy[rule] == LevelOf(stored, env, rule)
  {
    policy := map[];
    for i := 0 to |RULES|
      invariant forall rule :: rule in policy <==> rule in RULES[..i]
      invariant forall rule :: rule in policy ==> policy[rule] == LevelOf(stored, env, rule)
    {
      var rule := RULES[i];
      policy := policy[rule := LevelOf(stored, env, rule)];
      assert RULES[..i + 1] == RULES[..i] + [rule];
    }
    forall rule ensures rule in policy {
      assert RULES[RuleIndex(rule)] == rule;
      assert RULES[..|RULES|] == RULES;
    }
  }

  datatype LintFile = LintFile(filename: string, stmts: seq<AnalyzedStatement>)
  datatype LintItem = LintItem(filename: string, line: nat, rule: Rule, severity: Severity)

  // --- the report as a plain specification ---------------------------------

  function RuleItems(filename: string, s: AnalyzedStatement, policy: Policy, n: nat): seq<LintItem>
    requires n <= |RULES|
  {
    if n == 0 then []
    else
      var rule := RULES[n - 1];
      RuleItems(filename, s, policy, n - 1)
      + (if Matches(rule, s) && rule in policy && policy[rule].Report?
         then [LintItem(filename, s.line, rule, policy[rule].severity)] else [])
  }

  function FileItems(f: LintFile, policy: Policy, n: nat): seq<LintItem>
    requires n <= |f.stmts|
  {
    if n == 0 then [] else FileItems(f, policy, n - 1) + RuleItems(f.filename, f.stmts[n - 1], policy, |RULES|)
  }

  function LintItems(files: seq<LintFile>, policy: Policy, n: nat): seq<LintItem>
    requires n <= |files|
  {
    if n == 0 then []
    else LintItems(files, policy, n - 1) + FileItems(files[n - 1], policy, |files[n - 1].stmts|)
  }

  function SeverityOrder(s: Severity): nat {
    match s case Info => 0 case Warn => 1 case Block => 2
  }

  method MaxSeverity(items: seq<LintItem>) returns (max: Severity)
    ensures forall item :: item in items ==> SeverityOrder(item.severity) <= SeverityOrder(max)
    ensures max == Info || exists item :: item in items && item.severity == max
  {
    max := Info;
    for i := 0 to |items|
      invariant forall j :: 0 <= j < i ==> SeverityOrder(items[j].severity) <= SeverityOrder(max)
      invariant max == Info || exists j :: 0 <= j < i && items[j].severity == max
    {
      if SeverityOrder(items[i].severity) > SeverityOrder(max) {
        max := items[i].severity;
      }
    }
  }

  method LintStatement(filename: string, stmt: AnalyzedStatement, policy: Policy) returns (items: seq<LintItem>)
    ensures items == RuleItems(filename, stmt, policy, |RULES|)
  {
    items := [];
    for k := 0 to |RULES|
      invariant items == RuleItems(filename, stmt, policy, k)
    {
      var rule := RULES[k];
      if Matches(rule, stmt) && rule in policy && policy[rule].Report? {
        items := items + [LintItem(filename, stmt.line, rule, policy[rule].severity)];
      }
    }
  }

  /** Reports every match of a rule that is not silenced, in file, statement, rule order. */
  method LintFiles(files: seq<LintFile>, policy: Policy) returns (items: seq<LintItem>, maxSeverity: Severity)
    ensures items == LintItems(files, policy, |files|)
    ensures maxSeverity == Block <==> exists item :: item in items && item.severity == Block
    ensures maxSeverity == Warn <==>
      (exists item :: item in items && item.severity == Warn) && forall item :: item in items ==> item.severity != Block
  {
    items := [];
    for i := 0 to |files|
      invariant items == LintItems(files, policy, i)
    {
      var file := files[i];
      for j := 0 to |file.stmts|
        invariant items == LintItems(files, policy, i) + FileItems(file, policy, j)
      {
        var more := LintStatement(file.filename, file.stmts[j], policy);
        items := items + more;
      }
    }
    maxSeverity := MaxSeverity(items);
  }

  // --- what the report means -----------------------------------------------

  lemma {:induction false} RuleItemsExact(filename: string, s: AnalyzedStatement, policy: Policy, n: nat,
                                          item: LintItem)
    requires n <= |RULES|
    ensures item in RuleItems(filename, s, policy, n) <==>
      && item.rule in RULES[..n] && Matches(item.rule, s) && item.rule in policy
      && policy[item.rule] == Report(item.severity) && item.filename == filename && item.line == s.line
  {
    if n == 0 {
    } else {
      RuleItemsExact(filename, s, policy, n - 1, item);
      assert RULES[..n] == RULES[..n - 1] + [RULES[n - 1]];
    }
  }

  /** Rules climb through the catalogue and stay below `n`. */
  ghost predicate Climbing(items: seq<LintItem>, n: int) {
    && (forall i :: 0 <= i < |items| ==> RuleIndex(items[i].rule) < n)
    && (forall i, j :: 0 <= i < j < |items| ==> RuleIndex(items[i].rule) < RuleIndex(items[j].rule))
  }

  lemma {:induction false} ClimbingSnoc(items: seq<LintItem>, item: LintItem, n: int)
    requires Climbing(items, n) && RuleIndex(item.rule) == n
    ensures Climbing(items + [item], n + 1)
  {
  }

  /** A statement is reported at most once per rule, in catalogue order. */
  lemma {:induction false} RuleItemsInOrder(filename: string, s: AnalyzedStatement, policy: Policy, n: nat)
    requires n <= |RULES|
    ensures Climbing(RuleItems(filename, s, policy, n), n)
  {
    if n == 0 {
    } else {
      RuleItemsInOrder(filename, s, policy, n - 1);
      var rule := RULES[n - 1];
      assert RuleIndex(rule) == n - 1;
      var before := RuleItems(filename, s, policy, n - 1);
      if Matches(rule, s) && rule in policy && policy[rule].Report? {
        ClimbingSnoc(before, LintItem(filename, s.line, rule, policy[rule].severity), n - 1);
      } else {
        assert RuleItems(filename, s, policy, n) == before;
      }
    }
  }

  lemma {:induction false} FileItemsPrefix(f: LintFile, g: LintFile, policy: Policy, n: nat)
    requires n <= |f.stmts| && f.filename == g.filename && f.stmts <= g.stmts
    ensures FileItems(f, policy, n) == FileItems(g, policy, n)
  {
    if n == 0 {
    } else {
      FileItemsPrefix(f, g, policy, n - 1);
    }
  }

  lemma {:induction false} LintItemsPrefix(files: seq<LintFile>, more: seq<LintFile>, policy: Policy, n: nat)
    requires n <= |files|
    ensures LintItems(files, policy, n) == LintItems(files + more, policy, n)
  {
    if n == 0 {
    } else {
      LintItemsPrefix(files, more, policy, n - 1);
    }
  }

  /** The report grows at its end: with a further statement by its matches, with a further file by its report. */
  lemma {:induction false} ReportInOrder(files: seq<LintFile>, f: LintFile, s: AnalyzedStatement, policy: Policy)
    ensures var longer := f.(stmts := f.stmts + [s]);
      FileItems(longer, policy, |longer.stmts|)
      == FileItems(f, policy, |f.stmts|) + RuleItems(f.filename, s, policy, |RULES|)
    ensures LintItems(files + [f], policy, |files| + 1)
         == LintItems(files, policy, |files|) + FileItems(f, policy, |f.stmts|)
  {
    FileItemsPrefix(f, f.(stmts := f.stmts + [s]), policy, |f.stmts|);
    LintItemsPrefix(files, [f], policy, |files|);
  }

  predicate ReportedFor(f: LintFile, policy: Policy, j: nat, item: LintItem)
    requires j < |f.stmts|
  {
    && Matches(item.rule, f.stmts[j]) && item.rule in policy
    && policy[item.rule] == Report(item.severity) && item.filename == f.filename && item.line == f.stmts[j].line
  }

  /** One of the first `n` statements of the file is reported like this. */
  ghost predicate ReportedIn(f: LintFile, policy: Policy, n: nat, item: LintItem)
    requires n <= |f.stmts|
  {
    exists j :: 0 <= j < n && ReportedFor(f, policy, j, item)
  }

  lemma {:induction false} StatementReported(f: LintFile, policy: Policy, j: nat, item: LintItem)
    requires j < |f.stmts|
    ensures item in RuleItems(f.filename, f.stmts[j], policy, |RULES|) <==> ReportedFor(f, policy, j, item)
  {
    RuleItemsExact(f.filename, f.stmts[j], policy, |RULES|, item);
    assert RULES[RuleIndex(item.rule)] == item.rule;
    assert RULES[..|RULES|] == RULES;
  }

  lemma {:induction false} ReportedInStep(f: LintFile, policy: Policy, n: nat, item: LintItem)
    requires 0 < n <= |f.stmts|
    ensures ReportedIn(f, policy, n, item) <==>
      ReportedIn(f, policy, n - 1, item) || ReportedFor(f, policy, n - 1, item)
  {
  }

  lemma {:induction false} FileItemsStep(f: LintFile, policy: Policy, n: nat, item: LintItem)
    requires 0 < n <= |f.stmts|
    ensures item in FileItems(f, policy, n) <==>
      item in FileItems(f, policy, n - 1) || item in RuleItems(f.filename, f.stmts[n - 1], policy, |RULES|)
  {
  }

  lemma {:induction false} LastStatement(f: LintFile, policy: Policy, n: nat, item: LintItem)
    requires 0 < n <= |f.stmts|
    requires item in FileItems(f, policy, n - 1) <==> ReportedIn(f, policy, n - 1, item)
    ensures item in FileItems(f, policy, n) <==> ReportedIn(f, policy, n, item)
  {
    FileItemsStep(f, policy, n, item);
    StatementReported(f, policy, n - 1, item);
    ReportedInStep(f, policy, n, item);
  }

  lemma {:induction false} FileItemsExact(f: LintFile, policy: Policy, n: nat, item: LintItem)
    requires n <= |f.stmts|
    ensures item in FileItems(f, policy, n) <==> ReportedIn(f, policy, n, item)
  {
    if n == 0 {
      assert !ReportedIn(f, policy, n, item);
    } else {
      FileItemsExact(f, policy, n - 1, item);
      LastStatement(f, policy, n, item);
    }
  }

  ghost predicate Reported(files: seq<LintFile>, policy: Policy, n: nat, item: LintItem)
    requires n <= |files|
  {
    exists i :: 0 <= i < n && ReportedIn(files[i], policy, |files[i].stmts|, item)
  }

  lemma {:induction false} ReportedStep(files: seq<LintFile>, policy: Policy, n: nat, item: LintItem)
    requires 0 < n <= |files|
    ensures Reported(files, policy, n, item) <==>
      Reported(files, policy, n - 1, item) || ReportedIn(files[n - 1], policy, |files[n - 1].stmts|, item)
  {
  }

  lemma {:induction false} LintItemsStep(files: seq<LintFile>, policy: Policy, n: nat, item: LintItem)
    requires 0 < n <= |files|
    ensures item in LintItems(files, policy, n) <==>
      item in LintItems(files, policy, n - 1) || ReportedIn(files[n - 1], policy, |files[n - 1].stmts|, item)
  {
    var f := files[n - 1];
    FileItemsExact(f, policy, |f.stmts|, item);
  }

  lemma {:induction false} LintItemsExact(files: seq<LintFile>, policy: Policy, n: nat, item: LintItem)
    requires n <= |files|
    ensures item in LintItems(files, policy, n) <==> Reported(files, policy, n, item)
  {
    if n == 0 {
    } else {
      LintItemsExact(files, policy, n - 1, item);
      LintItemsStep(files, policy, n, item);
      ReportedStep(files, policy, n, item);
    }
  }

  predicate Blocked(maxSeverity: Severity) { maxSeverity == Block }

  /** The gate closes exactly when some statement of some file matches a rule whose level is BLOCK. */
  method HasBlock(files: seq<LintFile>, policy: Policy) returns (blocked: bool)
    ensures blocked <==> exists i, j, rule ::
      && 0 <= i < |files| && 0 <= j < |files[i].stmts|
      && rule in policy && policy[rule] == Report(Block) && Matches(rule, files[i].stmts[j])
  {
    var items, maxSeverity := LintFiles(files, policy);
    blocked := Blocked(maxSeverity);
    if blocked {
      var item :| item in items && item.severity == Block;
      LintItemsExact(files, policy, |files|, item);
      ghost var i :| 0 <= i < |files| && ReportedIn(files[i], policy, |files[i].stmts|, item);
      ghost var j :| 0 <= j < |files[i].stmts| && ReportedFor(files[i], policy, j, item);
      assert policy[item.rule] == Report(Block) && Matches(item.rule, files[i].stmts[j]);
    }
    forall i, j, rule | 0 <= i < |files| && 0 <= j < |files[i].stmts| && rule in policy && policy[rule] == Report(Block)
                        && Matches(rule, files[i].stmts[j])
      ensures blocked
    {
      var item := LintItem(files[i].filename, files[i].stmts[j].line, rule, Block);
      assert ReportedFor(files[i], policy, j, item) && ReportedIn(files[i], policy, |files[i].stmts|, item);
      LintItemsExact(files, policy, |files|, item);
    }
  }

  ghost predicate MatchedIn(files: seq<LintFile>, rule: Rule) {
    exists i, j :: 0 <= i < |files| && 0 <= j < |files[i].stmts| && Matches(rule, files[i].stmts[j])
  }

  /** In DEV a rule's level is BLOCK only if it is stored so. */
  lemma {:induction false} DevBlocksOnlyByStoredLevel(stored: Policy, rule: Rule)
    ensures LevelOf(stored, Dev, rule) == Report(Block) <==> rule in stored && stored[rule] == Report(Block)
  {
  }

  /**
   * Policy, report and gate together: an apply is blocked exactly when some statement matches
   * a rule that is stored as BLOCK, or that has no stored level, a BLOCK base and an
   * environment other than DEV. The documents say DEV is never blocked; it is, exactly when a
   * statement matches a rule stored as BLOCK.
   */
  method LintGate(files: seq<LintFile>, stored: Policy, env: Env) returns (blocked: bool)
    ensures blocked <==> exists rule ::
      && MatchedIn(files, rule)
      && (if rule in stored then stored[rule] == Report(Block) else env != Dev && Base(rule) == Block)
    ensures env == Dev ==>
      (blocked <==> exists rule :: MatchedIn(files, rule) && rule in stored && stored[rule] == Report(Block))
  {
    var policy := GetPolicyMap(stored, env);
    blocked := HasBlock(files, policy);
    if blocked {
      var i, j, rule :| && 0 <= i < |files| && 0 <= j < |files[i].stmts|
                        && rule in policy && policy[rule] == Report(Block) && Matches(rule, files[i].stmts[j]);
      assert MatchedIn(files, rule);
    }
    forall rule | MatchedIn(files, rule) ensures LevelOf(stored, env, rule) == Report(Block) ==> blocked {
      var i, j :| 0 <= i < |files| && 0 <= j < |files[i].stmts| && Matches(rule, files[i].stmts[j]);
      assert rule in policy && policy[rule] == LevelOf(stored, env, rule);
    }
  }

  /** Drops a database or a table, empties one, or changes every row of one. */
  predicate LosesTableOrRows(s: AnalyzedStatement) {
    s.kind in {DropDatabase, DropTable, Truncate} || (s.kind in {Delete, Update} && !s.hasWhere)
  }

  /** The rule that names a kind of statement. */
  function RuleFor(k: StatementKind): Rule {
    match k
    case DropDatabase => DropDatabaseRule
    case DropTable => DropTableRule
    case Truncate => TruncateRule
    case Delete => DeleteWithoutWhere
    case Update => UpdateWithoutWhere
    case AlterTable => AlterDropColumn
    case _ => DropIndexRule
  }

  /**
   * What is said of a statement when no level is stored: BLOCK, or WARN in DEV, by the rule for
   * its kind; WARN when a column is dropped; INFO when an index is.
   */
  lemma {:induction false} DefaultReport(env: Env, s: AnalyzedStatement)
    ensures forall rule :: Matches(rule, s) && LevelOf(map[], env, rule) == Report(Block) <==>
      && env != Dev && LosesTableOrRows(s)
      && rule == RuleFor(s.kind)
    ensures forall rule :: Matches(rule, s) && LevelOf(map[], env, rule) == Report(Info) <==>
      rule == DropIndexRule && (s.kind == DropIndex || (s.kind == AlterTable && s.alterDropIndex))
    ensures (exists rule :: Matches(rule, s) && LevelOf(map[], env, rule) == Report(Warn)) <==>
      (s.kind == AlterTable && s.alterDropColumn) || (env == Dev && LosesTableOrRows(s))
  {
    match s.kind
    case AlterTable => assert s.alterDropColumn ==> Matches(AlterDropColumn, s);
    case DropDatabase => assert Matches(DropDatabaseRule, s);
    case DropTable => assert Matches(DropTableRule, s);
    case Truncate => assert Matches(TruncateRule, s);
    case Delete => assert !s.hasWhere ==> Matches(DeleteWithoutWhere, s);
    case Update => assert !s.hasWhere ==> Matches(UpdateWithoutWhere, s);
    case _ =>
  }

  /** Some statement of some file would lose a table or all its rows. */
  ghost predicate AnyLosesTableOrRows(files: seq<LintFile>) {
    exists i, j :: 0 <= i < |files| && 0 <= j < |files[i].stmts| && LosesTableOrRows(files[i].stmts[j])
  }

  /** With no stored level those statements close the gate to STAGING and PROD, and nothing closes it to DEV. */
  lemma {:induction false} DefaultGate(files: seq<LintFile>, env: Env)
    ensures (exists rule :: MatchedIn(files, rule) && LevelOf(map[], env, rule) == Report(Block)) <==>
      env != Dev && AnyLosesTableOrRows(files)
  {
    forall i, j | 0 <= i < |files| && 0 <= j < |files[i].stmts|
      ensures env != Dev && LosesTableOrRows(files[i].stmts[j]) <==>
        exists rule :: Matches(rule, files[i].stmts[j]) && LevelOf(map[], env, rule) == Report(Block)
    {
      var s := files[i].stmts[j];
      DefaultReport(env, s);
      assert env != Dev && LosesTableOrRows(s) ==> Matches(RuleFor(s.kind), s);
    }
    if env != Dev && AnyLosesTableOrRows(files) {
      var i, j :| 0 <= i < |files| && 0 <= j < |files[i].stmts| && LosesTableOrRows(files[i].stmts[j]);
      var rule :| Matches(rule, files[i].stmts[j]) && LevelOf(map[], env, rule) == Report(Block);
      assert MatchedIn(files, rule);
    }
  }

  /** Dry-run's "destructive" flag is "matches a lint rule whose base is above INFO". */
  lemma {:induction false} DestructiveMeansRisky(s: AnalyzedStatement)
    ensures DryRun.IsDestructive(s) <==> exists rule :: Base(rule) != Info && Matches(rule, s)
  {
    if DryRun.IsDestructive(s) {
      match s.kind
      case DropTable => assert Matches(DropTableRule, s);
      case DropDatabase => assert Matches(DropDatabaseRule, s);
      case Truncate => assert Matches(TruncateRule, s);
      case AlterTable => assert Matches(AlterDropColumn, s);
      case Delete => assert Matches(DeleteWithoutWhere, s);
      case Update => assert Matches(UpdateWithoutWhere, s);
      case _ =>
    }
  }
}
