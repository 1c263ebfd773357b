# DBFlow: a verified model of its workflow, apply engine and schema diff

DBFlow is a change-control engine for databases. A developer submits SQL files as a change
request, a reviewer and a panel of approvers decide on it, and an apply engine runs the files
against a target database after a backup. A schema-diff compiler writes the SQL that moves a
live schema to a desired one. This project models those parts of the API server in Dafny and
proves what they guarantee, and where they stop guaranteeing it.

`dafny verify dfyconfig.toml` checks everything.

| files | what they model |
|---|---|
| `StateMachine`, `Delegation`, `ChangeRequest`, `ChangeRequestService` | one change request: as a value with one function per handler, and as a stored record whose handlers update it in place |
| `ChangeRequestRuns`, `ChangeRequestTheorems`, `Inbox` | every run of create, submit, review, approve, setAssignees and apply; the read side against the write side |
| `TargetDb`, `SqlAnalyzer`, `Backup`, `Rollback`, `Apply`, `Lint` | the target database with connections and implicit commits, the snapshot, the file runner, the restore and the lint gate |
| `SqlSplitter`, `SqlServer`, `DryRun`, `Preview` | the statement splitter, the server's own way to cut a text, the preview of one file, and what it says about an apply |
| `ApplyProtocol` | applies and rollbacks of many requests, interleaved step by step with each other and with the workflow |
| `ApplySchedule`, `AuditCsv` | the weekly windows, the CSV export with a reader |
| `SchemaModel`, `SchemaLexer`, `SchemaParser`, `SchemaReading`, `SchemaRoundTrip` | reading and printing CREATE TABLE, and what a text is read as |
| `SchemaDiff`, `SchemaDiffOrder`, `SchemaServer`, `SchemaExecution`, `SchemaConvergence`, `SchemaPitfalls` | the diff, the server that runs it, when running it leaves nothing to do, and schemas where it does not |
| `SchemaIntrospector`, `SchemaGrouping`, `SchemaSnapshot` | introspection, and what it makes of a live database |
| `Common`, `Text` | result types, picking from a list in order; white space, joining and line breaks |

## How to read the model

**Readings.** A reader, a query or a gate is a function, and beside it stands a lemma that says in
plain terms what it accepts and returns: texts by how they are cut into words, delegations and
windows by their times, refusals by which check comes first. `PickedInOrder` is how lists are
compared: what is picked, in the order of the list it is picked from, and that the rest gives nothing.

**Handlers.** `review` and `approve` hold the row lock of the change request, so each is one
step. `submit` and `setAssignees` read before their transaction; each is modelled as one atomic
step too. Delegation rows, the policy row, the users and the time are inputs of every request
and may differ freely from one to the next. A refused request changes nothing.

**Runs.** `Tracked` keeps a record beside the request that the requests alone determine: who
made each successful approval since the slots were last set, the policy count last compared
against, and whether the slots were replaced after the final decision. An ADMIN may replace the
slots in any status, so unanimity is stated at the moment FINAL_APPROVED is entered.

**Target database.** A table is a structure and a multiset of rows. The structure says which
row sets its constraints accept and how inserts under other column names are stored. A
connection sees the committed state and its own transaction; DDL commits first. What a
statement does is arbitrary: a read, any change of rows of one or several tables, emptying or
creating a table, any other DDL, or transaction control, and any of them may fail.

**Interleaving.** Reading the gate, starting, backing up, each file, finalizing, and the two
ends of a rollback are separate steps of numbered handlers. Only starting an apply is atomic
with its check for running executions.

**Files.** An apply sends a file's text whole; the preview, the lint rules and the backup work on
the statements the splitter cuts out of it. A `File` therefore has two sides: `sent`, the effects
of what the server runs, and `stmts`, the statements as cut with the effect of each cut text.
`SqlServer.Lex` is how MySQL itself reads a text: quoted strings and names, the three kinds of
comments, hints, and the error for an empty statement.

**Schema diff.** The server's reading of texts is a parameter, `Server`: the name, type,
nullability, inline PRIMARY KEY and inline UNIQUE it finds in a column definition; the columns
and indexes it finds in a CREATE TABLE; the name under which it keeps a table; how it compares the
names of columns and of indexes; which types it indexes without a prefix length; and the names it
gives to nameless indexes. None of it need agree with the reader
in the API server. Columns of the primary key are reported NOT NULL whatever their text says,
and dropping a column shrinks the indexes over it.

## Where the code does less than its documents or interfaces suggest

- A dropped table is not restored. `docs/plan5-apply-safety-contract.md` (lines 192-193) expects
  re-insertion from the snapshot; the code deletes from a table that is gone and reports a hard
  failure (`DroppedTableIsNotRestored`). What rollback does undo is exact in
  `RollbackRestoresExactly` and `RollbackUndoesExactly`.
- DEV can be blocked. The same document (line 91) says BLOCK never blocks DEV; a statement that
  matches a rule stored as BLOCK does, and nothing else (`LintGate`).
- A request can be applied twice in a row: the gate is not read again after the lock
  (`AppliedTwice`, `AppliedTwiceHappens`). The history is a path exactly until then
  (`HistoryIsChainExactly`).
- A rollback may start while another execution of its request is running, even the apply it
  undoes. That is the only way two executions of one request come to run side by side
  (`OverlapExactly`).
- `canActAsDelegate` is also true for an approver whose own slot is open
  (`CanActAsDelegateExact`, `CanActAsDelegateOverstates`).
- A submitted request can lose its reviewer to an ADMIN and then nobody can review it
  (`SubmittedIsReviewable`, `ReviewerCanBeCleared`).
- The preview of a second file does not see the first. It is right, whatever the statements do,
  exactly when no earlier file writes a table the later one uses (`LaterFileExactly`).
- The preview runs the statements as the splitter cuts them, and comments are cut without regard
  to quotes: `'C#'` loses its end and `5--9` its second half (`HashInString`, `DoubleMinus`). The
  preview is right, whatever the statements do, exactly when the server cuts the text the same
  way (`TextPredictedExactly`); `Plain` texts are cut the same way (`PlainTextsAgree`).
- The diff does not always converge; `Convergible` is the exact condition. Ways to miss it: an
  inline UNIQUE or a nameless index, which the diff does not see and the next one drops
  (`InlineUniqueIsDropped`); a type the server reports under another name (`SynonymRepeats`); an
  ADD or MODIFY with an inline PRIMARY KEY on a table that has one (`RetypedPrimaryKeyFails`); a
  column name that changes in case only (`CaseChangeFails`); a table the server keeps under another
  name, such as `Users` as `users` (`RenamedTableRepeats`); an index whose prefix length was lost,
  an index that loses all its columns, a primary-key column desired nullable. For a table still to
  be created the condition is necessary as far as the server finds the indexes the reader named
  (`IndexesRead`); a server that names a nameless index by luck is why (`LuckyNameConverges`).
- Two indexes merge when their dotted keys are equal (`DottedNamesMerge`). Introspection describes
  the database it reads exactly when no dotted keys collide (`SnapshotDescribesExactly`).
- The CSV writer leaves a lone carriage return unquoted; a reader that takes a carriage return
  for a line break refuses exactly the exports with such a field (`ExportRoundTrip`).

## Main results

- Workflow, over every run: `SeparationOfDuties`, `UnanimityAtFinalApproval`, `CanAlwaysFinish`,
  `HistoryIsAChain`; the inbox shows exactly what may be acted on (`ApproverInboxExact`,
  `ReviewerInboxExact`).
- Apply and rollback: `RollbackUndoesExactly`, `RollbackIsInverse`, `RollbackUndoesExecution`,
  `RollbackReportsExactly`.
- Preview: `TextPredictedExactly`, `LaterFileExactly`, `LaterFilePredicted`.
- Concurrency, over every interleaving: `MutualExclusion`, `OverlapExactly`,
  `OnlyApprovedRequestsRun`, `AppliesWereAdmitted`, `OutcomesAreExact`, `ChainBrokenExactly`,
  `HistoryIsChainExactly`.
- Schema diff: `TableReadExactly`, `PrintParseRoundTrip`, `DiffConvergesExactly`, and with
  introspection on both sides `IntrospectedDiffConverges`.
- Text and time: `ExportRoundTrip`, `StatementStartsOnItsLine`, `PlainTextsAgree`,
  `ClosedUntilNextStart`.

Some lemmas spell out what a definition says, for reading beside the source, and have no row below:
`CreateExact`, `SubmitExact` and `SetAssigneesExact` for the workflow requests, `AssigneeRefusals`,
`CreateRefusals`, `SubmitRefusals` and `ReviewRefusals` for their errors, `EveryMoveIsRecorded` for
their histories, `OthersHaveNoInbox` for the inbox, `HeaderNames` for the export, `CountedRows` for
the counts the target reports and `DevBlocksOnlyByStoredLevel` for one lint rule.

## Model

| member | source | states |
|---|---|---|
| StateMachine.ChainExtends | apps/api/src/change-request/change-request.state-machine.ts:51-63 | appending a transition the table allows keeps the status history one path from DRAFT |
| StateMachine.ChainLength | apps/api/src/change-request/change-request.state-machine.ts:31-38 | the length of such a history is the rank of its last status, four at most |
| StateMachine.TerminalMeansStuck | apps/api/src/change-request/change-request.state-machine.ts:40-45 | a status is listed as terminal exactly when no action leaves it |
| StateMachine.FinalApprovedPassedAllStages | apps/api/src/change-request/change-request.state-machine.ts:31-38 | a path that ends in FINAL_APPROVED or APPLIED went through SUBMITTED, REVIEW_APPROVED and FINAL_APPROVED in that order |
| Delegation.ActiveDelegatorIds | apps/api/src/delegation/delegation.service.ts:16-30 | a person is in the list, and the yes-or-no query says so, exactly when a row names both people and has begun and not ended, start inclusive and end exclusive |
| Delegation.OnlyCurrentRowsMatter | apps/api/src/delegation/delegation.service.ts:16-30 | rows that have ended or not begun may come and go without changing either answer |
| Delegation.DelegatesShareRole | apps/api/src/delegation/delegation.service.ts:56-69 | with rows as creation leaves them, a delegate never is the delegator and has the same role, reviewer or approver |
| Delegation.DelegationTable.Create | apps/api/src/delegation/delegation.service.ts:49-81 | exactly when a delegation is accepted, which error otherwise, that only an admin delegates for others, and that one row is added |
| Delegation.DelegationTable.Delete | apps/api/src/delegation/delegation.service.ts:83-95 | only the delegator or an admin removes a row, exactly that row goes, and which error otherwise |
| ChangeRequestTheorems.ApproveExact | apps/api/src/change-request/change-request.service.ts:285-340 | approve succeeds exactly when some slot may be filled (own first, then the first delegated one, never a second time) and fills that slot only, recording a delegate exactly when it is not the owner |
| ChangeRequestTheorems.ApproveRefusals | apps/api/src/change-request/change-request.service.ts:285-328 | which error approve gives when several would fit: the status, then "already decided" for owners and "forbidden" for others when nothing is open to them, then the guard for whoever has decided a slot |
| ChangeRequestTheorems.ReviewExact | apps/api/src/change-request/change-request.service.ts:216-245 | review succeeds exactly in SUBMITTED, for the reviewer and for holders of a delegation of the reviewer that has begun and not ended |
| ChangeRequestTheorems.OtherTimesChangeNothing | apps/api/src/delegation/delegation.service.ts:16-30 | delegations that have ended or not begun change no outcome of review and approve |
| ChangeRequestTheorems.DelegatesActInTime | apps/api/src/change-request/change-request.service.ts:224-232 | whoever reviews, or fills a slot, in place of another holds a delegation of that person whose time it is |
| ChangeRequestTheorems.SetAssigneesRefusals | apps/api/src/change-request/change-request.service.ts:609-639 | which error setAssignees gives when several would fit: the person, the assignees, the number of approvers, the store |
| ChangeRequestRuns.ApproveSteps | apps/api/src/change-request/change-request.service.ts:330-367 | a successful approval fills one slot and moves the status exactly on a rejection or when no slot is open any more |
| ChangeRequestRuns.FillInv | apps/api/src/change-request/change-request.service.ts:315-340 | filling a slot past the guard keeps slot owners, recorded delegates and actors apart |
| ChangeRequestRuns.StepInv | apps/api/src/change-request/change-request.service.ts:203-394 | the invariant of the workflow survives every request with arbitrary delegations, policy and users |
| ChangeRequestRuns.ReachableInv | apps/api/src/change-request/change-request.service.ts:101-649 | the invariant holds in every state any run of requests can reach |
| ChangeRequestTheorems.SeparationOfDuties | apps/api/src/change-request/change-request.service.ts:315-328 | in every reachable state different decided slots were acted on by different people, and those are exactly the people whose approvals succeeded, once each |
| ChangeRequestTheorems.UnanimityAtFinalApproval | apps/api/src/change-request/change-request.service.ts:342-367 | FINAL_APPROVED is entered only by an approval, with every slot APPROVE, by as many different people as slots, at least one and as many as the policy asked for |
| ChangeRequestTheorems.OwnerOfOpenSlotMayDecide | apps/api/src/change-request/change-request.service.ts:290-328 | every reachable REVIEW_APPROVED state has an open slot, and the owner of an open slot is never refused |
| ChangeRequestTheorems.ApproveMakesProgress | apps/api/src/change-request/change-request.service.ts:342-367 | every successful approval leaves one slot fewer open and ends the stage when it was the last, or on a rejection |
| ChangeRequestTheorems.CanAlwaysFinish | apps/api/src/change-request/change-request.service.ts:290-367 | from any reachable REVIEW_APPROVED state one approval by the owner of each open slot reaches FINAL_APPROVED |
| ChangeRequestTheorems.SubmittedIsReviewable | apps/api/src/change-request/change-request.service.ts:224-232 | a submitted request can be reviewed by someone exactly when it has a reviewer |
| ChangeRequestTheorems.ReviewerCanBeCleared | apps/api/src/change-request/change-request.service.ts:609-639 | a run that ends SUBMITTED without a reviewer: created, submitted, reviewer cleared by an ADMIN |
| ChangeRequestTheorems.DecisionsMatchStatus | apps/api/src/change-request/change-request.service.ts:342-367 | what the status says about the slots' decisions in every reachable state, and the effect of a late reassignment |
| ChangeRequestTheorems.DelegatesOwnNoSlot | apps/api/src/change-request/change-request.service.ts:290-340 | nobody recorded as a delegate owns a slot of the same request |
| ChangeRequestTheorems.HistoryIsAChain | apps/api/src/change-request/change-request.service.ts:438-452 | over runs of sequential requests the history starts at DRAFT, links up, ends at the current status and has four entries at most |
| ChangeRequestTheorems.TerminalForever | apps/api/src/change-request/change-request.state-machine.ts:40-63 | no sequence of requests moves a terminal status or extends its history |
| ChangeRequestService.ChangeRequestRecord.Submit | apps/api/src/change-request/change-request.service.ts:203-214 | the stored record ends as the specification of submit says, or is unchanged with its error |
| ChangeRequestService.ChangeRequestRecord.Review | apps/api/src/change-request/change-request.service.ts:216-245 | after review the stored record is what the specification says, or unchanged with its error |
| ChangeRequestService.ChangeRequestRecord.QueryActedElsewhere | apps/api/src/change-request/change-request.service.ts:315-328 | the guard's query finds a slot other than the chosen one that the actor decided, as owner or as delegate, exactly when there is one |
| ChangeRequestService.ChangeRequestRecord.ApproveSlot | apps/api/src/change-request/change-request.service.ts:275-367 | slot queries, guard, update in place, count and transition together leave the record the specification of approve gives, or the unchanged record and its error |
| ChangeRequestService.ChangeRequestRecord.SetAssignees | apps/api/src/change-request/change-request.service.ts:609-639 | after reassignment the record is what the specification says, with a new array when slots are given, or unchanged with its error |
| ChangeRequestService.ChangeRequestRecord.FinalizeApply | apps/api/src/apply/apply.service.ts:331-364 | the stored record ends as the specification of finalizing says, or is unchanged with its error |
| ChangeRequestTheorems.FinalizeExact | apps/api/src/apply/apply.service.ts:331-364 | a STAGING or PROD request becomes APPLIED with one entry for the actor and its slots untouched if it is FINAL_APPROVED, and is refused otherwise; a DEV request does not change |
| ApplyProtocol.MarkingIsFinalizing | apps/api/src/apply/apply.service.ts:331-364 | for every FINAL_APPROVED request the interleaved model marks it as the sequential one finalizes it |
| Inbox.ApproverInboxExact | apps/api/src/change-request/change-request.service.ts:150-167 | a reachable request is in an approver's inbox exactly when approve would accept that approver now |
| Inbox.ReviewerInboxExact | apps/api/src/change-request/change-request.service.ts:150-167 | a request is in a reviewer's inbox exactly when review would accept that reviewer now |
| Inbox.SeenExactly | apps/api/src/change-request/change-request.service.ts:578-600 | which requests each role sees, with the times of the delegations written out |
| Inbox.DecidersSee | apps/api/src/change-request/change-request.service.ts:578-600 | no reviewer or approver can decide a reachable request unseen |
| Inbox.OtherTimesChangeNoInbox | apps/api/src/change-request/change-request.service.ts:150-167 | delegations that have ended or not begun change nobody's inbox |
| Inbox.OthersHaveNoDelegators | apps/api/src/change-request/change-request.service.ts:198-201 | skipping the delegation query for other roles loses nothing |
| Inbox.DelegatedFromExact | apps/api/src/change-request/change-request.service.ts:477-495 | on an approver's inbox item delegatedFrom is empty exactly when approve would record a direct decision, else it names the owner of the very slot approve fills |
| Inbox.ReviewerDelegatedFromExact | apps/api/src/change-request/change-request.service.ts:477-487 | on a reviewer's inbox item delegatedFrom is empty exactly when the user is the reviewer, else it names the reviewer |
| Inbox.CanActAsDelegateExact | apps/api/src/change-request/change-request.service.ts:562-569 | a delegated decision would be recorded exactly when the flag holds and the user has no open slot of their own |
| Inbox.CanActAsDelegateOverstates | apps/api/src/change-request/change-request.service.ts:562-569 | a reachable request where the flag holds and the approval is still a direct one |
| Inbox.ReviewFlagExact | apps/api/src/change-request/change-request.service.ts:562-569 | in SUBMITTED the flag holds exactly for those who may review in somebody else's place; outside SUBMITTED and REVIEW_APPROVED it is off and no name is shown |
| SqlAnalyzer.TouchedTables | apps/api/src/apply/sql-analyzer.ts:136-144 | the affected tables are those the statements name, each once |
| SqlAnalyzer.FirstTouchedFirst | apps/api/src/apply/sql-analyzer.ts:136-144 | further statements only add tables at the end, so each stands where it was first touched |
| TargetDb.Connection.Query | apps/api/src/apply/rollback.service.ts:136-172 | one statement on a connection: implicit commit of DDL, effect on the transaction or the committed state, or an error without effect |
| TargetDb.KeptByRollback | apps/api/src/apply/dry-run.service.ts:86-105 | what a rolled-back transaction leaves after one more statement of each kind: nothing after reads and row changes, everything before a DDL statement, and the DDL itself |
| TargetDb.Connection.RunSqlFile | apps/api/src/apply/sql-runner.ts:14-30 | a text sent whole stops at the first failing statement and otherwise reports the sum of all affected counts |
| Backup.CreateBackup | apps/api/src/apply/backup.service.ts:53-94 | one snapshot per affected table in order, each with the table's presence, size and, within the limit, its columns and rows; SCHEMA_AND_DATA exactly when rows of some table were taken, PARTIAL exactly when some table is over the limit; the target unchanged |
| Rollback.RestoreOneTable | apps/api/src/apply/rollback.service.ts:126-172 | drop, refuse, or delete and re-insert in one transaction, with the final state and the outcome, hard or soft |
| Rollback.RestoreTables | apps/api/src/apply/rollback.service.ts:97-124 | all tables in order whatever happens to earlier ones, with the state, steps and flag of the specification |
| Rollback.RollbackReportsExactly | apps/api/src/apply/rollback.service.ts:97-172 | for all states before and after an apply: a hard failure is reported if and only if some captured table is gone or refuses its rows, wherever in the list it is, and each table has its own step, outcome and row count, in order |
| Rollback.RestoreAllPointwise | apps/api/src/apply/rollback.service.ts:97-124 | each table ends as restoring it alone would leave it, and tables without a snapshot do not change |
| Rollback.RestoreTableExact | apps/api/src/apply/rollback.service.ts:126-172 | one table comes back exactly when it is new, or still there with its old structure and its rows captured or unchanged |
| Rollback.RollbackRestoresExactly | apps/api/src/apply/rollback.service.ts:97-172 | whatever an apply did to the affected tables, rollback gives back the original database if and only if each of them is restorable |
| Apply.Execution.RunFiles | apps/api/src/apply/apply.service.ts:293-319 | files run in order up to the first failure, one step row each |
| Apply.Execution.Apply | apps/api/src/apply/apply.service.ts:101-147 | the whole execution for every failure pattern: backup, connection, files, final status |
| Apply.ExecutionLog | apps/api/src/apply/apply.service.ts:101-147 | files run are a prefix in order, none before the backup is stored and linked; SUCCESS has one good step per file, FAILED has good steps and then exactly one bad one |
| Apply.RunFilesIsOneQuery | apps/api/src/apply/apply.service.ts:293-319 | stopping at the first failing file leaves the state that stopping at the first failing statement of all files would |
| Apply.FragmentFrame | apps/api/src/apply/sql-analyzer.ts:136-144 | SQL that changes rows of, empties or creates only tables the backup covers touches no other table and keeps existing definitions |
| Apply.RollbackUndoesExactly | apps/api/src/apply/rollback.service.ts:97-172 | backup, then any part of an apply, then rollback is the identity exactly when every affected table over the row limit kept its rows |
| Apply.RollbackIsInverse | apps/api/src/apply/rollback.service.ts:97-172 | with all affected tables within the row limit, rollback after any part of an apply restores the original database, every step succeeds, and a second rollback changes nothing |
| Apply.RollbackUndoesExecution | apps/api/src/apply/rollback.service.ts:38-94 | rolling back the backup of a recorded execution restores the target however the execution ended; without a backup nothing had changed |
| Apply.DroppedTableIsNotRestored | apps/api/src/apply/rollback.service.ts:155-171 | a table the apply dropped stays dropped, and a captured one makes the rollback a hard failure |
| DryRun.DryRunFile | apps/api/src/apply/dry-run.service.ts:74-106 | previewing a file never changes the committed state or leaves a transaction open, as long as no INSERT, UPDATE or DELETE of it commits or ends one, and what it reports; its mode says whether a statement changes the schema and its flag whether one loses a table, a column or every row |
| DryRun.DmlStaysInTransaction | apps/api/src/apply/dry-run.service.ts:86-105 | the statements a preview runs never reach the committed state |
| DryRun.DryRunPredictsApply | apps/api/src/apply/dry-run.service.ts:86-105 | for a file of INSERT, UPDATE and DELETE whose cut statements do what the whole text does, the preview errs exactly when applying from the same state fails, and else reports the same total |
| Preview.SecondFileIsNotPredicted | apps/api/src/apply/dry-run.service.ts:64-67 | two files where the preview of the second says zero rows and the apply changes one |
| Preview.LaterFileExactly | apps/api/src/apply/dry-run.service.ts:64-67 | the preview of a later file is right for every database and all reads and row changes exactly when no earlier file writes a table it uses |
| Preview.LaterFilePredicted | apps/api/src/apply/apply.service.ts:293-319 | the step an apply records for such a file reports what its preview reported, if the apply gets there |
| SqlServer.OnePass | apps/api/src/apply/sql-analyzer.ts:50-53 | on plain text three passes that know no quotes keep exactly what one pass that knows them keeps |
| SqlServer.PlainTextsAgree | apps/api/src/apply/sql-analyzer.ts:49-77 | on plain text the server runs exactly the statements the splitter returns |
| SqlServer.OrdinaryIsPlain | apps/api/src/apply/sql-analyzer.ts:49-77 | every text without quotes, comment signs, slashes, minus signs and semicolons that is not blank is plain |
| SqlServer.HashInString | apps/api/src/apply/sql-analyzer.ts:53-53 | a hash sign inside a string makes the two differ |
| SqlServer.DoubleMinus | apps/api/src/apply/sql-analyzer.ts:52-52 | two dashes that start no comment make the two differ |
| Preview.TextPredictedExactly | apps/api/src/apply/dry-run.service.ts:86-105 | for a text of INSERT, UPDATE and DELETE the preview is right for every database and whatever the statements do, if and only if the server cuts the text as the splitter does |
| Preview.PlainTextPredicted | apps/api/src/apply/dry-run.service.ts:86-105 | plain text is enough for that |
| Lint.GetPolicyMap | apps/api/src/sql-review/sql-review.service.ts:16-29 | every rule of the catalogue gets a level: the stored one, or its base severity adjusted for the environment |
| Lint.LintFiles | apps/api/src/apply/lint.engine.ts:94-117 | the report as specified, and the highest severity that occurs in it |
| Lint.LintItemsExact | apps/api/src/apply/lint.engine.ts:96-111 | an item is reported exactly when a statement of that file and line matches that rule at that level |
| Lint.RuleItemsInOrder | apps/api/src/apply/lint.engine.ts:98-109 | a statement is reported once per rule at most, in catalogue order |
| Lint.ReportInOrder | apps/api/src/apply/lint.engine.ts:96-111 | the report follows the files and the statements in them: one more of either only adds at the end |
| Lint.HasBlock | apps/api/src/apply/lint.engine.ts:119-122 | the gate closes exactly when some statement matches a rule whose level is BLOCK |
| Lint.LintGate | apps/api/src/apply/apply.service.ts:88-97 | stored levels, report and gate together: an apply is blocked exactly when a statement matches a rule stored as BLOCK, or one without a stored level whose base is BLOCK outside DEV |
| Lint.DefaultReport | apps/api/src/apply/lint.engine.ts:34-91 | without stored levels: BLOCK, or WARN in DEV, by the rule for its kind exactly for statements that drop or empty a table, drop a database, or change every row; WARN for a dropped column, INFO for a dropped index |
| Lint.DefaultGate | apps/api/src/apply/apply.service.ts:88-97 | without stored levels exactly those statements close the gate to STAGING and PROD, and nothing closes it to DEV |
| Lint.DestructiveMeansRisky | apps/api/src/apply/dry-run.service.ts:122-127 | the preview's destructive flag is a match of a lint rule whose base is above INFO |
| ApplyProtocol.StepInv | apps/api/src/apply/apply.service.ts:72-148 | the invariant of concurrent applies, rollbacks and workflow requests survives every step |
| ApplyProtocol.MutualExclusion | apps/api/src/apply/apply.service.ts:235-254 | under every interleaving each request has at most one RUNNING execution of kind APPLY |
| ApplyProtocol.ApplyStartsAlone | apps/api/src/apply/apply.service.ts:235-254 | no APPLY starts while any execution of its request is RUNNING |
| ApplyProtocol.OnlyApprovedRequestsRun | apps/api/src/apply/apply.service.ts:215-226 | every execution against STAGING or PROD belongs to a request that passed SUBMITTED, REVIEW_APPROVED and FINAL_APPROVED |
| ApplyProtocol.AppliesWereAdmitted | apps/api/src/apply/apply.service.ts:72-102 | under every interleaving a request is applied at most as often as somebody entitled to it passed the gate: in its own environment, with the schedule open, against MySQL, nothing blocked, from a status that allows it |
| ApplyProtocol.GateRefusals | apps/api/src/apply/apply.service.ts:72-86 | which refusal the gate reports when several checks fail |
| ApplyProtocol.OutcomesAreExact | apps/api/src/apply/apply.service.ts:104-147 | under every interleaving an apply is recorded as SUCCESS only after its backup was stored and every file ran, as FAILED only if the backup was not stored or one file failed, and a rollback as what came of it |
| ApplyProtocol.OverlapExactly | apps/api/src/apply/rollback.service.ts:58-68 | a step makes two executions of one request run side by side if and only if it starts a rollback while an execution of that request is RUNNING |
| ApplyProtocol.OverlapsAreRollbacks | apps/api/src/apply/rollback.service.ts:58-68 | of executions of one request that run side by side in any run, all but the first are rollbacks |
| ApplyProtocol.OneApply | apps/api/src/apply/apply.service.ts:102-147 | a handler past the gate, left alone, runs all files, ends in SUCCESS and marks its request |
| ApplyProtocol.AppliedTwice | apps/api/src/apply/apply.service.ts:78-102 | from any state with a FINAL_APPROVED request and nothing of it RUNNING, two admitted handlers can both succeed one after the other, with two APPLY history entries |
| ApplyProtocol.AppliedTwiceHappens | apps/api/src/apply/apply.service.ts:78-147 | such a run from a new request on, through submit, review and approval |
| ApplyProtocol.ChainBrokenExactly | apps/api/src/apply/apply.service.ts:331-364 | in every reachable state a step takes a status history off its path if and only if it marks a STAGING or PROD request as applied that is APPLIED already |
| ApplyProtocol.HistoryIsChainExactly | apps/api/src/apply/apply.service.ts:331-364 | under every interleaving the history is a path exactly while it is no longer than its status allows |
| ApplySchedule.EarliestCandidate | apps/api/src/apply-schedule/apply-schedule.service.ts:61-64 | the earliest window of a day that is still to come, if any |
| ApplySchedule.FindNextWindow | apps/api/src/apply-schedule/apply-schedule.service.ts:59-68 | none exactly without windows; else a window whose next start is nearest of all, between one minute and a week away |
| ApplySchedule.ClosedUntilNextStart | apps/api/src/apply-schedule/apply-schedule.service.ts:49-55 | on the weekly clock no window is open at any minute before that start, and one is open at it |
| ApplySchedule.OpenUntilEnd | apps/api/src/apply-schedule/apply-schedule.service.ts:49-54 | counted from its start, a window is open for the minutes up to its end and closed for the rest of the week |
| ApplySchedule.OpenMinutesExact | apps/api/src/apply-schedule/apply-schedule.service.ts:49-54 | a window is open on exactly as many minutes of the weekly clock as lie between its start and its end |
| ApplySchedule.Schedule.CreateWindow | apps/api/src/apply-schedule/apply-schedule.service.ts:110-117 | a window is stored exactly when it starts before it ends |
| ApplySchedule.Schedule.CreateFreeze | apps/api/src/apply-schedule/apply-schedule.service.ts:144-155 | a freeze is stored exactly when it starts before it ends |
| ApplySchedule.Schedule.CheckApplyAllowed | apps/api/src/apply-schedule/apply-schedule.service.ts:37-56 | an apply is allowed exactly when no freeze has begun and not ended and there is no window or one of this day with start at or before and end after this minute; a freeze wins and the one that ends last is named; otherwise the first opening is named |
| AuditCsv.ToCsv | apps/api/src/audit/audit.service.ts:75-85 | the export is the specified text of header and rows |
| AuditCsv.FieldRoundTrip | apps/api/src/audit/audit.service.ts:77-81 | an escaped field reads back as itself, unless it holds a carriage return and nothing that makes the writer quote it |
| AuditCsv.ExportRoundTrip | apps/api/src/audit/audit.service.ts:75-85 | reading an export gives the header and one record per row with the guarded text of every value; a strict reader refuses it exactly when some field has an unquoted carriage return |
| AuditCsv.NoFormulaSurvives | apps/api/src/audit/audit.service.ts:79-79 | no decoded field starts with a formula character |
| AuditCsv.ExportedField | apps/api/src/audit/audit.service.ts:77-81 | what stands in each place of the export: nothing for a null, an apostrophe before a formula, else the text |
| AuditCsv.EveryColumnOnce | apps/api/src/audit/audit.service.ts:76-76 | every field of an audit row has one place, under a name of its own |
| AuditCsv.GuardConfusesExactly | apps/api/src/audit/audit.service.ts:79-79 | the guard maps two texts to one exactly when one is the other, a formula, with an apostrophe in front |
| SqlSplitter.SplitSqlStatements | apps/api/src/apply/sql-analyzer.ts:49-77 | the one-pass loop yields the non-blank segments of the cleaned text, trimmed and in order, each with the line of its first visible character |
| SqlSplitter.CleanedTraces | apps/api/src/apply/sql-analyzer.ts:50-53 | stripping comments removes no line break and shows every kept character or a space in its place |
| SqlSplitter.BlockCommentsGone | apps/api/src/apply/sql-analyzer.ts:51-51 | after the first pass no block comment is left that is closed anywhere |
| SqlSplitter.LineCommentsGone | apps/api/src/apply/sql-analyzer.ts:52-53 | the text that is split holds no hash sign and no double dash |
| SqlSplitter.SameNewlines | apps/api/src/apply/sql-analyzer.ts:57-73 | counting line breaks in the cleaned text counts those of the original |
| SqlSplitter.SegmentsExact | apps/api/src/apply/sql-analyzer.ts:61-75 | the segments hold no semicolon and joined by semicolons give the cleaned text back |
| SqlSplitter.StatementStartsOnItsLine | apps/api/src/apply/sql-analyzer.ts:61-67 | each statement's first character stands in the original text on the reported line |
| SchemaParser.ExtractParenBody | apps/api/src/schema-diff/desired-schema-parser.ts:80-91 | the scan returns what stands before the matching close paren, or nothing without one |
| SchemaParser.SplitTopLevel | apps/api/src/schema-diff/desired-schema-parser.ts:94-110 | the scan cuts at commas outside parens and drops a blank last piece |
| SchemaParser.ParseCreateTable | apps/api/src/schema-diff/desired-schema-parser.ts:38-77 | the reader as a method gives the table of the specification; `SchemaReading.TableReadExactly` says which table that is |
| SchemaReading.PartReadExactly | apps/api/src/schema-diff/desired-schema-parser.ts:58-161 | every part is read as what it says: an index if it begins as one, with the name, uniqueness and columns its words give; nothing for a skipped clause; a column if it is a name and a type, nullable exactly when neither NOT NULL nor PRIMARY KEY stands in it as whole words |
| SchemaReading.TableReadExactly | apps/api/src/schema-diff/desired-schema-parser.ts:38-77 | a statement is accepted exactly when it has a header and a closed definition list; the table has the columns and indexes that the pieces of the list define, in their order, and nothing else |
| SchemaReading.HeaderExact | apps/api/src/schema-diff/desired-schema-parser.ts:39-42 | the header is CREATE TABLE, IF NOT EXISTS if need be, a name with or without quote marks, and an open paren, in any case and with any white space |
| SchemaReading.NotNullTable | apps/api/src/schema-diff/desired-schema-parser.ts:149-160 | tables of a NOT NULL or PRIMARY KEY column, printed, read back as not null, with the key as an index |
| SchemaRoundTrip.ExtractedPartsAreWhole | apps/api/src/schema-diff/desired-schema-parser.ts:80-110 | the parts of an extracted body have balanced parens and no top-level comma |
| SchemaRoundTrip.RawReadsBack | apps/api/src/schema-diff/desired-schema-parser.ts:136-161 | the stored text of a column reads back as the same column |
| SchemaRoundTrip.ParsedTableStable | apps/api/src/schema-diff/desired-schema-parser.ts:55-76 | every column of an accepted statement prints as one part that reads back as itself |
| SchemaRoundTrip.PrintParseRoundTrip | apps/api/src/schema-diff/schema-diff.engine.ts:117-121 | for every accepted statement the printed form is accepted, with the same name, the same columns down to their text, and the same inline PRIMARY entries |
| SchemaRoundTrip.OneColumnTable | apps/api/src/schema-diff/schema-diff.engine.ts:117-121 | printed tables of one plain column are accepted and read back, so the round trip is about statements that exist |
| SchemaDiff.DiffColumns | apps/api/src/schema-diff/schema-diff.engine.ts:35-76 | additions and changes in desired order, then drops in current order |
| SchemaDiff.DiffIndexes | apps/api/src/schema-diff/schema-diff.engine.ts:78-109 | additions, then drops, of named indexes by name |
| SchemaDiff.DiffSchemas | apps/api/src/schema-diff/schema-diff.engine.ts:11-33 | the statements of all desired tables in order, and none for other tables |
| SchemaDiff.NamedExact | apps/api/src/schema-diff/schema-diff.engine.ts:80-82 | the compared indexes are those with a name other than PRIMARY, one per name, the last definition |
| SchemaDiffOrder.TableDiffInOrder | apps/api/src/schema-diff/schema-diff.engine.ts:35-109 | an existing table's statements: ADD or MODIFY for each desired column that calls for it in desired order, drops in current order, then new and dropped indexes, each in first-seen order |
| SchemaDiffOrder.SchemaDiffInOrder | apps/api/src/schema-diff/schema-diff.engine.ts:11-33 | the tables' statements follow one another in desired order, each table's together |
| SchemaExecution.ColumnOpsRun | apps/api/src/schema-diff/schema-diff.engine.ts:41-60 | the ADD and MODIFY statements fail exactly when one of them does, and what they leave otherwise |
| SchemaExecution.PutsRunExact | apps/api/src/schema-diff/schema-diff.engine.ts:41-60 | they all succeed if and only if the server reads them, new names are new to it, and inline keys fit |
| SchemaExecution.UniqueLeavesExtra | apps/api/src/schema-diff/desired-schema-parser.ts:149-160 | an emitted column with an inline UNIQUE leaves an index the table did not have |
| SchemaExecution.DropsRun | apps/api/src/schema-diff/schema-diff.engine.ts:62-73 | dropping columns succeeds as long as one stays, and shrinks the indexes |
| SchemaExecution.AddIndexesRun | apps/api/src/schema-diff/schema-diff.engine.ts:84-95 | creating indexes succeeds exactly when each of them fits the table |
| SchemaConvergence.ColumnDiffRun | apps/api/src/schema-diff/schema-diff.engine.ts:35-76 | all column statements run, in order, exactly when the server reads them, no name or key is in the way and a column stays, and what they leave |
| SchemaConvergence.NewIndexesAfter | apps/api/src/schema-diff/schema-diff.engine.ts:35-76 | they bring an index other than PRIMARY exactly when a column text asks for one |
| SchemaConvergence.IndexDiffRun | apps/api/src/schema-diff/schema-diff.engine.ts:78-109 | the index statements run exactly when the new ones fit and every index to drop is still there, and which names they leave |
| SchemaConvergence.DiffEmptyExactly | apps/api/src/schema-diff/schema-diff.engine.ts:35-109 | the diff of a table is empty exactly when the live table shows the desired columns and index names |
| SchemaConvergence.CreatedNamesExact | apps/api/src/schema-diff/desired-schema-parser.ts:112-125 | a created table has the desired index names if the server finds just those and none without a name, and only then if it finds every index the reader found |
| SchemaConvergence.NewTable | apps/api/src/schema-diff/schema-diff.engine.ts:17-26 | creating a missing table gives a matching one if the server makes of its text what the reader made of it, and only then if it finds every index the reader found |
| SchemaConvergence.TableConverges | apps/api/src/schema-diff/schema-diff.engine.ts:28-29 | running one table's statements leads to an empty second diff exactly when the table is convergible; for a missing table the converse asks that the server finds every index the reader found |
| SchemaConvergence.RenamedTableRepeats | apps/api/src/schema-diff/schema-diff.engine.ts:14-26 | a table the server keeps under another name is created again by every diff |
| SchemaConvergence.DiffConvergesExactly | apps/api/src/schema-diff/schema-diff.engine.ts:11-109 | whatever the server reads, all statements run and a second diff is empty if every desired table is convergible under its own name, and only if, as far as the server finds the indexes the reader found in missing tables; then every desired table matches; other tables never change |
| SchemaPitfalls.FreshServerExists | apps/api/src/schema-diff/schema-diff.engine.ts:117-121 | servers that pick fresh names exist, whatever else they do |
| SchemaPitfalls.ParsedNamesRead | apps/api/src/schema-diff/desired-schema-parser.ts:136-161 | columns of parsed statements keep their names on every server that reads a quoted name for what it is |
| SchemaPitfalls.UniqueTableReads | apps/api/src/schema-diff/desired-schema-parser.ts:136-161 | the reader takes a table with an inline UNIQUE and keeps no index |
| SchemaPitfalls.InlineUniqueIsDropped | apps/api/src/schema-diff/schema-diff.engine.ts:96-106 | such a table is created, and the second diff drops the index the server made |
| SchemaPitfalls.LuckyNameConverges | apps/api/src/schema-diff/desired-schema-parser.ts:112-125 | a table that converges although the server takes a named index for a nameless one, because it picks that very name |
| SchemaPitfalls.SynonymRepeats | apps/api/src/schema-diff/schema-diff.engine.ts:51-59 | a type the server reports under another name is changed again every time, to no effect |
| SchemaPitfalls.RetypedPrimaryKeyFails | apps/api/src/schema-diff/schema-diff.engine.ts:51-59 | changing the type of a column written with an inline PRIMARY KEY gives a statement the server refuses |
| SchemaPitfalls.CaseChangeFails | apps/api/src/schema-diff/schema-diff.engine.ts:41-50 | a column renamed in case only gives an ADD the server refuses |
| SchemaIntrospector.AddColumnRows | apps/api/src/schema-diff/schema-introspector.ts:60-68 | every table that occurs gets its column rows in order |
| SchemaIntrospector.EnsureIndex | apps/api/src/schema-diff/schema-introspector.ts:74-80 | a new key gets one object, shared by the accumulator and its table; a known key changes nothing |
| SchemaIntrospector.AppendColumn | apps/api/src/schema-diff/schema-introspector.ts:81-81 | a column goes to the object of its key and shows up under that key only |
| SchemaIntrospector.AccumulatorExact | apps/api/src/schema-diff/schema-introspector.ts:70-82 | after all rows each key holds exactly its rows' columns in order, and each table lists the groups that start in it in first-seen order |
| SchemaIntrospector.BuildSchema | apps/api/src/schema-diff/schema-introspector.ts:48-85 | the assembled schema has every table that occurs, its columns in row order and the index groups of the dotted keys, for all rows |
| SchemaGrouping.StartsExact | apps/api/src/schema-diff/schema-introspector.ts:72-80 | a group starts, in row order, at the first row with its key, in the table of that row |
| SchemaGrouping.ColumnsExact | apps/api/src/schema-diff/schema-introspector.ts:60-68 | the columns of a table are those of its rows, each row's once, in row order |
| SchemaGrouping.GroupExact | apps/api/src/schema-diff/schema-introspector.ts:70-82 | the columns of an index group are those of the rows with its key, each once, in row order |
| SchemaGrouping.GroupingConserves | apps/api/src/schema-diff/schema-introspector.ts:70-82 | the groups hold as many columns as there are rows |
| SchemaGrouping.PairNamesDistinct | apps/api/src/schema-diff/schema-introspector.ts:70-82 | grouped by table and index, a table lists each index name once |
| SchemaGrouping.DottedGroupingExact | apps/api/src/schema-diff/schema-introspector.ts:74-75 | the assembled indexes are those of the table and index pairs if and only if no two different pairs share a dotted key |
| SchemaGrouping.DotFreeTablesSuffice | apps/api/src/schema-diff/schema-introspector.ts:74-75 | table names without a dot are enough for that |
| SchemaGrouping.DottedNamesMerge | apps/api/src/schema-diff/schema-introspector.ts:74-75 | two indexes of two tables that become one |
| SchemaSnapshot.SnapshotDescribesExactly | apps/api/src/schema-diff/schema-introspector.ts:47-85 | the schema assembled from the rows of a live database describes it, table by table, if and only if no two dotted keys collide |
| SchemaSnapshot.IntrospectedDiffConverges | apps/api/src/schema-diff/schema-diff.engine.ts:11-109 | introspecting, diffing, running the statements and introspecting again: with dotted keys apart the second diff is empty under the conditions in terms of the live database |

## Left out

- The regular expressions of `analyzeStatement`: a statement comes with its kind, table and flags. `InFragment`, `ClassifiedSoundly` and `Faithful` say where a result needs them to be right.
- Who may start a rollback: the permission check is the one in front of an apply, which `Gate` has.
- MySQL itself: foreign keys, triggers, auto-increment, collation, the order in which rows of one statement meet a constraint, lost connections in the middle of a statement, and bodies of stored programs, whose semicolons the server does not cut at.
- RestoreOneTable: a failing DROP TABLE IF EXISTS, which the code reports as a hard failure, cannot happen without foreign keys.
- RunSqlFile: a lone SELECT of a column called `affectedRows` would be added to the total; a read counts zero here.
- Statements whose effect depends on more than the state they run in, such as NOW() or RAND(), and non-transactional tables, which keep what a rolled-back preview wrote.
- Generated columns, whose stored values INSERT refuses: a table with one is not restored even within the limit.
- DiffConvergesExactly: does not model an ALTER TABLE that the server refuses because of existing data, because the changed column is indexed, or because a foreign key, a generated column or a CHECK needs what is dropped; nor tables kept as named but compared without regard to case (`lower_case_table_names=2`); nor views, which introspection lists among the tables. Matching is what the diff compares: index columns and uniqueness under an unchanged name, defaults and comments may differ.
- DiffConvergesExactly: without `IndexesRead` for the missing tables only one direction is claimed; `LuckyNameConverges` shows the other one fails.
- ColumnsOk: a table whose definition names a column twice, which no server creates, is not considered.
- The printed text of ALTER TABLE statements; operations carry the definition text or the name they print.
- `parseDesiredSchema`: comment stripping, splitting and the last-one-wins map; statements come one by one and tables with distinct names.
- Lower-casing of non-ASCII letters in types; ASCII letters are folded.
- Column rows of introspection come as finished definitions: `normalizeType` and the YES/NO flag are applied before.
- BuildSchema: tables are values of a map that is reassigned, not mutable objects; only the index objects, which are the ones shared, live on the heap.
- JSON encoding of snapshots, encryption of credentials, audit rows, comments, display names except the one `delegatedFrom` shows, the order of lists shown to users.
- Failures of the metadata store in the middle of a step, and a process that dies and leaves a RUNNING execution behind.
- Time zones and date parsing: instants are integers and the weekly clock is a day and a minute.
- Deleting windows and freezes, listing, the policy and rule editors, users, target databases, controllers with their role guards, and the web application.
