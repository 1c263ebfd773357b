/**
 * Applies and rollbacks of many change requests, interleaved step by step with
 * each other and with the approval workflow. Reading the gate, starting, backing up,
 * running each file and finalizing are separate steps; only starting holds the row lock.
 */
module ApplyProtocol {
  import opened Common
  import opened StateMachine
  import opened Delegation
  import opened ChangeRequest
  import Runs = ChangeRequestRuns
  import opened ChangeRequestTheorems

  type CrId = string
  type ProcId = int

  datatype Kind = ApplyKind | RollbackKind
  datatype ExecStatus = Running | Succeeded | Failed
  datatype ExecRow = ExecRow(crId: CrId, kind: Kind, status: ExecStatus, backedUp: bool)

  /** A request handler in flight. `captured` is the status it read at the gate. */
  datatype Proc =
    | Gated(crId: CrId, captured: Status)
    | Applying(crId: CrId, captured: Status, exec: nat, filesLeft: nat, failed: bool)
    | Rolling(exec: nat)

  datatype State = State(crs: map<CrId, Cr>, files: map<CrId, nat>, execs: seq<ExecRow>, procs: map<ProcId, Proc>)

  // --- the gate ------------------------------------------------------------

  datatype GateError =
    | EnvMismatch | PermissionDenied | StatusForbidsApply | OutsideSchedule | MysqlOnly | BlockLintDetected

  predicate MayApply(role: Role, isAuthor: bool, env: Env) {
    if env == Dev then role == Approver || (role == Developer && isAuthor) else role == Approver
  }

  predicate StatusAllowsApply(env: Env, status: Status) {
    if env == Dev then status !in {ReviewRejected, FinalRejected, Applied} else status == FinalApproved
  }

  datatype Context = Context(
    targetEnv: Env, actorId: UserId, role: Role, scheduleOpen: bool, mysql: bool, lintBlocked: bool)

  /** The checks in front of an apply, in the order they are made. */
  function Gate(cr: Cr, ctx: Context): Option<GateError> {
    if cr.env != ctx.targetEnv then Some(EnvMismatch)
    else if !MayApply(ctx.role, ctx.actorId == cr.authorId, ctx.targetEnv) then Some(PermissionDenied)
    else if !StatusAllowsApply(ctx.targetEnv, cr.status) then Some(StatusForbidsApply)
    else if !ctx.scheduleOpen then Some(OutsideSchedule)
    else if !ctx.mysql then Some(MysqlOnly)
    else if ctx.lintBlocked then Some(BlockLintDetected)
    else None
  }

  // --- steps ---------------------------------------------------------------

  datatype Event =
    | Workflow(crId: CrId, ev: Runs.Event)
    | GateRead(p: ProcId, crId: CrId, ctx: Context)
    | StartApply(p: ProcId)
    | BackUp(p: ProcId, ok: bool)
    | RunFile(p: ProcId, ok: bool)
    | Finish(p: ProcId, actorId: UserId)
    | StartRollback(p: ProcId, exec: nat)
    | FinishRollback(p: ProcId, ok: bool)

  predicate IsRunning(row: ExecRow, crId: CrId) { row.crId == crId && row.status == Running }

  function SetStatus(execs: seq<ExecRow>, i: nat, s: ExecStatus): seq<ExecRow>
    requires i < |execs|
  {
    execs[i := execs[i].(status := s)]
  }

  /** Marks the request APPLIED on the strength of the status read at the gate. */
  function MarkApplied(cr: Cr, captured: Status, actorId: UserId): Cr {
    var next := GetNextStatus(captured, Apply);
    if cr.env == Dev || next.Err? then cr
    else cr.(status := next.value, history := cr.history + [HistoryEntry(captured, next.value, actorId)])
  }

  /** One step; an event that is not enabled changes nothing. */
  function Step(s: State, e: Event): State {
    match e
    case Workflow(crId, ev) =>
      if crId !in s.crs || ev.ApplyEv? then s
      else
        var r := Runs.Handle(s.crs[crId], ev);
        if r.Err? then s else s.(crs := s.crs[crId := r.value])
    case GateRead(p, crId, ctx) =>
      if p in s.procs || crId !in s.crs || Gate(s.crs[crId], ctx).Some? then s
      else s.(procs := s.procs[p := Gated(crId, s.crs[crId].status)])
    case StartApply(p) =>
      if p !in s.procs || !s.procs[p].Gated? then s
      else
        var Gated(crId, captured) := s.procs[p];
        if exists row :: row in s.execs && IsRunning(row, crId) then s.(procs := s.procs - {p}) // already running
        else s.(execs := s.execs + [ExecRow(crId, ApplyKind, Running, false)],
                procs := s.procs[p := Applying(crId, captured, |s.execs|,
                                    if crId in s.files then s.files[crId] else 0, false)])
    case BackUp(p, ok) =>
      if p !in s.procs || !s.procs[p].Applying?
         || s.procs[p].exec >= |s.execs| || s.execs[s.procs[p].exec].backedUp then s
      else if ok then s.(execs := s.execs[s.procs[p].exec := s.execs[s.procs[p].exec].(backedUp := true)])
      else s.(execs := SetStatus(s.execs, s.procs[p].exec, Failed), procs := s.procs - {p})
    case RunFile(p, ok) =>
      if p !in s.procs || !s.procs[p].Applying? || s.procs[p].exec >= |s.execs| || !s.execs[s.procs[p].exec].backedUp
         || s.procs[p].failed || s.procs[p].filesLeft == 0 then s
      else if ok then s.(procs := s.procs[p := s.procs[p].(filesLeft := s.procs[p].filesLeft - 1)])
      else s.(procs := s.procs[p := s.procs[p].(failed := true)])
    case Finish(p, actorId) =>
      if p !in s.procs || !s.procs[p].Applying?
         || s.procs[p].exec >= |s.execs| || !s.execs[s.procs[p].exec].backedUp then s
      else
        var Applying(crId, captured, exec, filesLeft, failed) := s.procs[p];
        if failed then s.(execs := SetStatus(s.execs, exec, Failed), procs := s.procs - {p})
        else if filesLeft > 0 || crId !in s.crs then s
        else s.(crs := s.crs[crId := MarkApplied(s.crs[crId], captured, actorId)],
                execs := SetStatus(s.execs, exec, Succeeded), procs := s.procs - {p})
    case StartRollback(p, exec) =>
      if p in s.procs || exec >= |s.execs| || s.execs[exec].kind != ApplyKind || !s.execs[exec].backedUp then s
      else s.(execs := s.execs + [ExecRow(s.execs[exec].crId, RollbackKind, Running, true)],
              procs := s.procs[p := Rolling(|s.execs|)])
    case FinishRollback(p, ok) =>
      if p !in s.procs || !s.procs[p].Rolling? || s.procs[p].exec >= |s.execs| then s
      else s.(execs := SetStatus(s.execs, s.procs[p].exec, if ok then Succeeded else Failed), procs := s.procs - {p})
  }

  function Run(s: State, es: seq<Event>): State {
    if es == [] then s else Step(Run(s, es[..|es| - 1]), es[|es| - 1])
  }

  /** New change requests, nothing running. */
  ghost predicate Init(s: State) {
    && s.execs == [] && s.procs == map[]
    && forall id :: id in s.crs ==> s.crs[id].status == Draft && s.crs[id].history == []
  }

  ghost predicate Reachable(s: State) {
    exists s0, es :: Init(s0) && s == Run(s0, es)
  }

  // --- invariant -----------------------------------------------------------

  /** A path to APPLIED, except that the last step may have been recorded more than once. */
  ghost predicate LooseChain(h: seq<HistoryEntry>, status: Status)
    decreases |h|
  {
    || Chain(h, status)
    || (&& status == Applied && |h| > 0
        && h[|h| - 1].from == FinalApproved && h[|h| - 1].to == Applied
        && LooseChain(h[..|h| - 1], Applied))
  }

  /** Went through SUBMITTED, REVIEW_APPROVED and FINAL_APPROVED, in that order. */
  ghost predicate PassedApproval(h: seq<HistoryEntry>) {
    |h| >= 3 && h[0].to == Submitted && h[1].to == ReviewApproved && h[2].to == FinalApproved
  }

  predicate RunsApply(row: ExecRow) { row.kind == ApplyKind && row.status == Running }

  ghost predicate ExclusiveApplies(execs: seq<ExecRow>) {
    forall i, j :: 0 <= i < j < |execs| && RunsApply(execs[i]) && RunsApply(execs[j]) ==> execs[i].crId != execs[j].crId
  }

  /** Whether an execution or a handler of this request could exist at all. */
  ghost predicate Cleared(s: State, crId: CrId) {
    crId in s.crs && (s.crs[crId].env != Dev ==> PassedApproval(s.crs[crId].history))
  }

  ghost predicate ProcInv(s: State, p: ProcId)
    requires p in s.procs
  {
    match s.procs[p]
    case Gated(crId, captured) =>
      Cleared(s, crId) &&
        (s.crs[crId].env != Dev ==> captured == FinalApproved && s.crs[crId].status in {FinalApproved, Applied})
    case Applying(crId, captured, exec, _, _) =>
      && Cleared(s, crId)
      && (s.crs[crId].env != Dev ==> captured == FinalApproved && s.crs[crId].status in {FinalApproved, Applied})
      && exec < |s.execs| && s.execs[exec].crId == crId
      && s.execs[exec].kind == ApplyKind && s.execs[exec].status == Running
    case Rolling(exec) => exec < |s.execs| && s.execs[exec].kind == RollbackKind
  }

  ghost predicate Inv(s: State) {
    && ExclusiveApplies(s.execs)
    && (forall id :: id in s.crs ==> LooseChain(s.crs[id].history, s.crs[id].status))
    && (forall i :: 0 <= i < |s.execs| ==> Cleared(s, s.execs[i].crId))
    && (forall p :: p in s.procs ==> ProcInv(s, p))
    && (forall p, q :: p in s.procs && q in s.procs && p != q && s.procs[p].Applying? && s.procs[q].Applying? ==>
          s.procs[p].exec != s.procs[q].exec)
  }

  lemma {:induction false} LooseChainPassed(h: seq<HistoryEntry>, status: Status)
    requires LooseChain(h, status) && status in {FinalApproved, Applied}
    ensures PassedApproval(h)
    decreases |h|
  {
    if Chain(h, status) {
      FinalApprovedPassedAllStages(h, status);
    } else {
      LooseChainPassed(h[..|h| - 1], Applied);
    }
  }

  /** Recording one APPLY, the first or a repeated one, keeps the history a loose path. */
  lemma {:induction false} MarkAppliedLoose(cr: Cr, actorId: UserId)
    requires LooseChain(cr.history, cr.status) && cr.status in {FinalApproved, Applied} && cr.env != Dev
    ensures var cr' := MarkApplied(cr, FinalApproved, actorId);
      LooseChain(cr'.history, cr'.status) && cr'.status == Applied && cr.history <= cr'.history
  {
  }

  lemma {:induction false} LooseIsChainBeforeApplied(h: seq<HistoryEntry>, status: Status)
    requires LooseChain(h, status) && status != Applied
    ensures Chain(h, status)
  {
  }

  /** A workflow request either leaves status and history alone or makes one legal transition. */
  lemma {:induction false} HandleShape(cr: Cr, ev: Runs.Event) returns (action: Option<Action>)
    requires Runs.Handle(cr, ev).Ok?
    ensures var cr' := Runs.Handle(cr, ev).value;
      && cr'.env == cr.env
      && (action.None? ==> cr'.status == cr.status && cr'.history == cr.history)
      && (action.Some? ==>
            && GetNextStatus(cr.status, action.value) == Ok(cr'.status)
            && cr'.history == cr.history + [HistoryEntry(cr.status, cr'.status, ev.actor)]
            && (!ev.ApplyEv? ==> action.value != Apply))
  {
    match ev
    case SubmitEv(_, _) => action := Some(Action.Submit);
    case ReviewEv(_, _, _, d) => action := Some(if d == Approve then ReviewApprove else ReviewReject);
    case ApproveEv(_, _, d) =>
      var cr' := Runs.Handle(cr, ev).value;
      action := if cr'.status == cr.status then None else Some(if d == Reject then FinalReject else FinalApprove);
    case AssignEv(_, _, _, _, _, _) => action := None;
    case ApplyEv(_) => action := if cr.env == Dev then None else Some(Apply);
  }

  /** A workflow request extends the history legally, and never leaves {FINAL_APPROVED, APPLIED}. */
  lemma {:induction false} WorkflowLoose(cr: Cr, ev: Runs.Event)
    requires LooseChain(cr.history, cr.status) && !ev.ApplyEv? && Runs.Handle(cr, ev).Ok?
    ensures var cr' := Runs.Handle(cr, ev).value;
      && LooseChain(cr'.history, cr'.status)
      && cr.history <= cr'.history && cr'.env == cr.env
      && (cr.status in {FinalApproved, Applied} ==> cr'.status == cr.status)
  {
    var action := HandleShape(cr, ev);
    if action.Some? {
      LooseIsChainBeforeApplied(cr.history, cr.status);
      ChainExtends(cr.history, cr.status, action.value, ev.actor);
    }
  }

  /** Replacing one request's row by one with a longer history disturbs nothing else. */
  lemma {:induction false} UpdateCrInv(s: State, id: CrId, cr': Cr)
    requires Inv(s) && id in s.crs
    requires LooseChain(cr'.history, cr'.status) && s.crs[id].history <= cr'.history && cr'.env == s.crs[id].env
    requires s.crs[id].status in {FinalApproved, Applied} ==> cr'.status in {FinalApproved, Applied}
    ensures Inv(s.(crs := s.crs[id := cr']))
  {
    var s' := s.(crs := s.crs[id := cr']);
    forall c | Cleared(s, c) ensures Cleared(s', c) { }
    forall p | p in s'.procs ensures ProcInv(s', p) {
      assert ProcInv(s, p);
    }
  }

  /** Dropping a handler, or ending an execution nobody else works on, keeps the invariant. */
  lemma {:induction false} EndInv(s: State, p: ProcId, exec: nat, status: ExecStatus)
    requires Inv(s) && p in s.procs && status != Running
    requires exec < |s.execs|
    requires s.procs[p] == Rolling(exec) || (s.procs[p].Applying? && s.procs[p].exec == exec)
    ensures Inv(s.(execs := SetStatus(s.execs, exec, status), procs := s.procs - {p}))
  {
    var s' := s.(execs := SetStatus(s.execs, exec, status), procs := s.procs - {p});
    assert ProcInv(s, p);
    forall i | 0 <= i < |s'.execs| ensures Cleared(s', s'.execs[i].crId) {
      assert Cleared(s, s.execs[i].crId);
    }
    forall q | q in s'.procs ensures ProcInv(s', q) {
      assert ProcInv(s, q);
    }
  }

  /** A handler that is turned away changes nothing but itself. */
  lemma {:induction false} LeaveInv(s: State, p: ProcId)
    requires Inv(s)
    ensures Inv(s.(procs := s.procs - {p}))
  {
    var s' := s.(procs := s.procs - {p});
    forall q | q in s'.procs ensures ProcInv(s', q) {
      assert ProcInv(s, q);
    }
    forall i | 0 <= i < |s'.execs| ensures Cleared(s', s'.execs[i].crId) {
      assert Cleared(s, s.execs[i].crId);
    }
  }

  lemma {:induction false} NewApplyIsAlone(execs: seq<ExecRow>, id: CrId)
    requires ExclusiveApplies(execs) && forall row :: row in execs ==> !IsRunning(row, id)
    ensures ExclusiveApplies(execs + [ExecRow(id, ApplyKind, Running, false)])
  {
    forall i | 0 <= i < |execs| ensures !IsRunning(execs[i], id) {
      assert execs[i] in execs;
    }
  }

  lemma {:induction false} EnterInv(s: State, p: ProcId, n: nat)
    requires Inv(s) && p in s.procs && s.procs[p].Gated?
    requires forall row :: row in s.execs ==> !IsRunning(row, s.procs[p].crId)
    ensures var Gated(id, captured) := s.procs[p];
      Inv(s.(execs := s.execs + [ExecRow(id, ApplyKind, Running, false)],
             procs := s.procs[p := Applying(id, captured, |s.execs|, n, false)]))
  {
    var Gated(id, captured) := s.procs[p];
    var s' := s.(execs := s.execs + [ExecRow(id, ApplyKind, Running, false)],
                 procs := s.procs[p := Applying(id, captured, |s.execs|, n, false)]);
    assert ProcInv(s, p);
    NewApplyIsAlone(s.execs, id);
    forall i | 0 <= i < |s'.execs| ensures Cleared(s', s'.execs[i].crId) {
      if i < |s.execs| { assert Cleared(s, s.execs[i].crId); }
    }
    forall q | q in s'.procs ensures ProcInv(s', q) {
      if q in s.procs { assert ProcInv(s, q); }
    }
  }

  lemma {:induction false} StartApplyInv(s: State, p: ProcId)
    requires Inv(s)
    ensures Inv(Step(s, StartApply(p)))
  {
    if p in s.procs && s.procs[p].Gated? {
      var id := s.procs[p].crId;
      if exists row :: row in s.execs && IsRunning(row, id) {
        LeaveInv(s, p);
      } else {
        EnterInv(s, p, if id in s.files then s.files[id] else 0);
      }
    }
  }

  lemma {:induction false} BackUpInv(s: State, p: ProcId, ok: bool)
    requires Inv(s)
    ensures Inv(Step(s, BackUp(p, ok)))
  {
    var s' := Step(s, BackUp(p, ok));
    if s' != s {
      if ok {
        forall i | 0 <= i < |s'.execs| ensures Cleared(s', s'.execs[i].crId) {
          assert Cleared(s, s.execs[i].crId);
        }
        forall q | q in s'.procs ensures ProcInv(s', q) {
          assert ProcInv(s, q);
        }
      } else {
        EndInv(s, p, s.procs[p].exec, Failed);
      }
    }
  }

  lemma {:induction false} StartRollbackInv(s: State, p: ProcId, exec: nat)
    requires Inv(s)
    ensures Inv(Step(s, StartRollback(p, exec)))
  {
    var s' := Step(s, StartRollback(p, exec));
    if s' != s {
      forall i | 0 <= i < |s'.execs| ensures Cleared(s', s'.execs[i].crId) {
        if i < |s.execs| { assert Cleared(s, s.execs[i].crId); } else { assert Cleared(s, s.execs[exec].crId); }
      }
      forall q | q in s'.procs ensures ProcInv(s', q) {
        if q in s.procs { assert ProcInv(s, q); }
      }
    }
  }

  lemma {:induction false} GateReadInv(s: State, p: ProcId, crId: CrId, ctx: Context)
    requires Inv(s)
    ensures Inv(Step(s, GateRead(p, crId, ctx)))
  {
    var s' := Step(s, GateRead(p, crId, ctx));
    if s' != s {
      var cr := s.crs[crId];
      if cr.env != Dev {
        LooseChainPassed(cr.history, cr.status);
      }
      forall i | 0 <= i < |s'.execs| ensures Cleared(s', s'.execs[i].crId) {
        assert Cleared(s, s.execs[i].crId);
      }
      forall q | q in s'.procs ensures ProcInv(s', q) {
        if q in s.procs { assert ProcInv(s, q); }
      }
    }
  }

  lemma {:induction false} FinishInv(s: State, p: ProcId, actorId: UserId)
    requires Inv(s)
    ensures Inv(Step(s, Finish(p, actorId)))
  {
    var s' := Step(s, Finish(p, actorId));
    if s' != s {
      assert ProcInv(s, p);
      var Applying(crId, captured, exec, filesLeft, failed) := s.procs[p];
      if failed {
        EndInv(s, p, exec, Failed);
      } else {
        var cr := s.crs[crId];
        if cr.env != Dev {
          MarkAppliedLoose(cr, actorId);
        }
        UpdateCrInv(s, crId, MarkApplied(cr, captured, actorId));
        EndInv(s.(crs := s.crs[crId := MarkApplied(cr, captured, actorId)]), p, exec, Succeeded);
      }
    }
  }

  lemma {:induction false} RunFileInv(s: State, p: ProcId, ok: bool)
    requires Inv(s)
    ensures Inv(Step(s, RunFile(p, ok)))
  {
    var s' := Step(s, RunFile(p, ok));
    if s' != s {
      forall i | 0 <= i < |s'.execs| ensures Cleared(s', s'.execs[i].crId) {
        assert Cleared(s, s.execs[i].crId);
      }
      forall q | q in s'.procs ensures ProcInv(s', q) {
        assert ProcInv(s, q);
      }
    }
  }

  lemma {:induction false} StepInv(s: State, e: Event)
    requires Inv(s)
    ensures Inv(Step(s, e))
  {
    match e
    case Workflow(crId, ev) =>
      if Step(s, e) != s {
        WorkflowLoose(s.crs[crId], ev);
        UpdateCrInv(s, crId, Runs.Handle(s.crs[crId], ev).value);
      }
    case GateRead(p, crId, ctx) => GateReadInv(s, p, crId, ctx);
    case StartApply(p) => StartApplyInv(s, p);
    case BackUp(p, ok) => BackUpInv(s, p, ok);
    case RunFile(p, ok) => RunFileInv(s, p, ok);
    case Finish(p, actorId) => FinishInv(s, p, actorId);
    case StartRollback(p, exec) => StartRollbackInv(s, p, exec);
    case FinishRollback(p, ok) =>
      if Step(s, e) != s {
        EndInv(s, p, s.procs[p].exec, if ok then Succeeded else Failed);
      }
  }

  lemma {:induction false} RunInv(s: State, es: seq<Event>)
    requires Inv(s)
    ensures Inv(Run(s, es))
  {
    if es == [] {
    } else {
      RunInv(s, es[..|es| - 1]);
      StepInv(Run(s, es[..|es| - 1]), es[|es| - 1]);
    }
  }

  lemma {:induction false} ReachableInv(s: State)
    requires Reachable(s)
    ensures Inv(s)
  {
    var s0, es :| Init(s0) && s == Run(s0, es);
    RunInv(s0, es);
  }

  // --- results -------------------------------------------------------------

  /** Under every interleaving each request has at most one RUNNING execution of kind APPLY. */
  lemma {:induction false} MutualExclusion(s: State, i: nat, j: nat)
    requires Reachable(s) && i < |s.execs| && j < |s.execs|
    requires IsRunning(s.execs[i], s.execs[i].crId) && IsRunning(s.execs[j], s.execs[i].crId)
    requires s.execs[i].kind == ApplyKind && s.execs[j].kind == ApplyKind
    ensures i == j
  {
    ReachableInv(s);
  }

  /** An APPLY starts only when no execution of its request, of either kind, is RUNNING. */
  lemma {:induction false} ApplyStartsAlone(s: State, e: Event, i: nat)
    requires i < |Step(s, e).execs|
    requires Step(s, e).execs[i].kind == ApplyKind && Step(s, e).execs[i].status == Running
    requires i < |s.execs| ==> s.execs[i].status != Running
    ensures i == |s.execs| && e.StartApply?
    ensures forall row :: row in s.execs ==> !IsRunning(row, Step(s, e).execs[i].crId)
  {
  }

  /** Every execution against STAGING or PROD belongs to a request that passed the whole approval path. */
  lemma {:induction false} OnlyApprovedRequestsRun(s: State, i: nat)
    requires Reachable(s) && i < |s.execs|
    ensures s.execs[i].crId in s.crs
    ensures s.crs[s.execs[i].crId].env != Dev ==> PassedApproval(s.crs[s.execs[i].crId].history)
  {
    ReachableInv(s);
  }

  /** What the gate let through: the environment's own rule of who may apply, and from which status. */
  ghost predicate Admitted(cr: Cr, ctx: Context) {
    && ctx.targetEnv == cr.env && ctx.scheduleOpen && ctx.mysql && !ctx.lintBlocked
    && (ctx.role == Approver || (cr.env == Dev && ctx.role == Developer && ctx.actorId == cr.authorId))
    && (if cr.env == Dev then cr.status in {Draft, Submitted, ReviewApproved, FinalApproved}
        else cr.status == FinalApproved)
  }

  lemma {:induction false} GateExact(cr: Cr, ctx: Context)
    ensures Gate(cr, ctx).None? <==> Admitted(cr, ctx)
  {
    match cr.status
    case Draft =>
    case Submitted =>
    case ReviewApproved =>
    case FinalApproved =>
    case ReviewRejected =>
    case FinalRejected =>
    case Applied =>
  }

  /** Which refusal is reported when several checks fail: the first in this order. */
  lemma {:induction false} GateRefusals(cr: Cr, ctx: Context)
    ensures var g := Gate(cr, ctx);
            var wrongEnv := ctx.targetEnv != cr.env;
            var notEntitled := ctx.role != Approver
                               && !(ctx.targetEnv == Dev && ctx.role == Developer && ctx.actorId == cr.authorId);
            var wrongStatus := if ctx.targetEnv == Dev then cr.status in {ReviewRejected, FinalRejected, Applied}
                               else cr.status != FinalApproved;
      && (g == Some(EnvMismatch) <==> wrongEnv)
      && (g == Some(PermissionDenied) <==> !wrongEnv && notEntitled)
      && (g == Some(StatusForbidsApply) <==> !wrongEnv && !notEntitled && wrongStatus)
      && (g == Some(OutsideSchedule) <==> !wrongEnv && !notEntitled && !wrongStatus && !ctx.scheduleOpen)
      && (g == Some(MysqlOnly) <==> !wrongEnv && !notEntitled && !wrongStatus && ctx.scheduleOpen && !ctx.mysql)
  {
  }

  /** Event `n` of the run read the gate for this request, and was let through. */
  ghost predicate AdmittedAt(s0: State, es: seq<Event>, id: CrId, n: nat) {
    && n < |es| && es[n].GateRead? && es[n].crId == id
    && id in Run(s0, es[..n]).crs && Admitted(Run(s0, es[..n]).crs[id], es[n].ctx)
  }

  /** The number of applies of a request that were started. */
  function Applies(execs: seq<ExecRow>, id: CrId): nat {
    if execs == [] then 0
    else
      var last := execs[|execs| - 1];
      Applies(execs[..|execs| - 1], id) + (if last.kind == ApplyKind && last.crId == id then 1 else 0)
  }

  /** Handlers that are past the gate and have not started. */
  function Waiting(s: State, id: CrId): set<ProcId> {
    set p | p in s.procs && s.procs[p].Gated? && s.procs[p].crId == id
  }

  /** How often in the run the gate let somebody through to this request. */
  ghost function Admissions(s0: State, es: seq<Event>, id: CrId): nat {
    if es == [] then 0
    else
      var n := |es| - 1;
      Admissions(s0, es[..n], id) + (if AdmittedAt(s0, es, id, n) then 1 else 0)
  }

  lemma {:induction false} SameApplies(execs: seq<ExecRow>, execs': seq<ExecRow>, id: CrId)
    requires |execs| == |execs'|
    requires forall i :: 0 <= i < |execs| ==> execs[i].kind == execs'[i].kind && execs[i].crId == execs'[i].crId
    ensures Applies(execs, id) == Applies(execs', id)
  {
    if execs == [] {
    } else {
      SameApplies(execs[..|execs| - 1], execs'[..|execs| - 1], id);
    }
  }

  lemma {:induction false} OneMoreExec(execs: seq<ExecRow>, row: ExecRow, id: CrId)
    ensures Applies(execs + [row], id) == Applies(execs, id) + if row.kind == ApplyKind && row.crId == id then 1 else 0
  {
    assert (execs + [row])[..|execs|] == execs;
  }

  /** Only reading the gate adds a waiting handler, and only starting, or being turned away, takes one. */
  lemma {:induction false} WaitingStep(s: State, e: Event, id: CrId)
    ensures Waiting(Step(s, e), id) ==
      if e.GateRead? && e.p !in s.procs && e.crId == id && id in s.crs && Gate(s.crs[id], e.ctx).None?
      then Waiting(s, id) + {e.p}
      else if e.StartApply? then Waiting(s, id) - {e.p}
      else Waiting(s, id)
  {
  }

  /** Only starting adds an APPLY, and takes its handler from those that wait. */
  lemma {:induction false} AppliesStep(s: State, e: Event, id: CrId)
    ensures Applies(Step(s, e).execs, id) <=
      Applies(s.execs, id) + if e.StartApply? && e.p in Waiting(s, id) then 1 else 0
  {
    var s' := Step(s, e);
    if |s'.execs| == |s.execs| {
      SameApplies(s.execs, s'.execs, id);
    } else {
      OneMoreExec(s.execs, s'.execs[|s.execs|], id);
      assert s'.execs == s.execs + [s'.execs[|s.execs|]];
    }
  }

  /**
   * Over every run, whatever is interleaved, a request is applied at most as often as somebody
   * entitled to it was let through the gate: in the request's own environment, while the
   * schedule was open, against MySQL, with no statement blocked, and from a status that allows it.
   * Handlers that wait have used up an admission each.
   */
  lemma {:induction false} AppliesWereAdmitted(s0: State, es: seq<Event>, id: CrId)
    requires Init(s0)
    ensures Applies(Run(s0, es).execs, id) + |Waiting(Run(s0, es), id)| <= Admissions(s0, es, id)
  {
    if es == [] {
      assert Waiting(s0, id) == {};
    } else {
      var n := |es| - 1;
      var s := Run(s0, es[..n]);
      AppliesWereAdmitted(s0, es[..n], id);
      WaitingStep(s, es[n], id);
      AppliesStep(s, es[n], id);
      if es[n].GateRead? && es[n].crId == id && id in s.crs {
        GateExact(s.crs[id], es[n].ctx);
      }
    }
  }

  // --- how executions end --------------------------------------------------

  /**
   * What the run did for one execution: whether storing its backup failed, files that ran, files
   * that failed, and how a rollback went.
   */
  datatype Tally = Tally(unsaved: bool, ran: nat, broke: nat, rolled: Option<bool>)

  /** The event is a step of the handler of execution `i`. */
  predicate WorksOn(s: State, e: Event, i: nat) {
    && i < |s.execs| && (e.BackUp? || e.RunFile? || e.FinishRollback?) && e.p in s.procs
    && match s.procs[e.p]
       case Gated(_, _) => false
       case Applying(_, _, exec, filesLeft, failed) =>
         exec == i && if s.execs[i].backedUp then e.RunFile? && filesLeft > 0 && !failed else e.BackUp?
       case Rolling(exec) => exec == i && e.FinishRollback?
  }

  function Tallied(t: Tally, s: State, e: Event, i: nat): Tally {
    if !WorksOn(s, e, i) then t
    else if e.BackUp? then t.(unsaved := !e.ok)
    else if e.FinishRollback? then t.(rolled := Some(e.ok))
    else if e.ok then t.(ran := t.ran + 1)
    else t.(broke := t.broke + 1)
  }

  function TallyOf(s0: State, es: seq<Event>, i: nat): Tally {
    if es == [] then Tally(false, 0, 0, None)
    else
      var n := |es| - 1;
      Tallied(TallyOf(s0, es[..n], i), Run(s0, es[..n]), es[n], i)
  }

  function FilesOf(s: State, id: CrId): nat { if id in s.files then s.files[id] else 0 }

  /** The handler of a RUNNING apply knows what has been done. */
  ghost predicate InProgress(s: State, i: nat, t: Tally, p: ProcId)
    requires i < |s.execs|
  {
    && p in s.procs && s.procs[p].Applying? && s.procs[p].exec == i && s.procs[p].crId == s.execs[i].crId
    && !t.unsaved && t.broke == (if s.procs[p].failed then 1 else 0)
    && t.ran + s.procs[p].filesLeft == FilesOf(s, s.execs[i].crId)
    && (t.ran + t.broke > 0 ==> s.execs[i].backedUp)
  }

  /** The row of an execution says what the run did. */
  ghost predicate Accounts(s: State, i: nat, t: Tally) {
    if i >= |s.execs| then t == Tally(false, 0, 0, None)
    else
      var row := s.execs[i];
      if row.kind == RollbackKind then
        row.status == (if t.rolled.None? then Running else if t.rolled.value then Succeeded else Failed)
      else
        match row.status
        case Running => exists p :: InProgress(s, i, t, p)
        case Succeeded => row.backedUp && t.ran == FilesOf(s, row.crId) && t.broke == 0
        case Failed => if row.backedUp then t.broke == 1 else t.unsaved && t.ran == t.broke == 0
  }

  /** Nothing of execution `i`, of its handler and of the files has changed. */
  ghost predicate SameWork(s: State, s': State, i: nat) {
    && s'.files == s.files
    && (i < |s.execs| ==> i < |s'.execs| && s'.execs[i] == s.execs[i])
    && (forall p :: p in s.procs && s.procs[p].Applying? && s.procs[p].exec == i ==>
          p in s'.procs && s'.procs[p] == s.procs[p])
  }

  lemma {:induction false} SameWorkAccounts(s: State, s': State, i: nat, t: Tally)
    requires i < |s.execs| && Accounts(s, i, t) && SameWork(s, s', i)
    ensures Accounts(s', i, t)
  {
    if p :| InProgress(s, i, t, p) {
      assert InProgress(s', i, t, p);
    }
  }

  /** The exec of the handler whose step this is, if it has one. */
  predicate Touches(s: State, e: Event, i: nat) {
    && (e.BackUp? || e.RunFile? || e.Finish? || e.FinishRollback?) && e.p in s.procs && !s.procs[e.p].Gated?
    && s.procs[e.p].exec == i
  }

  lemma {:induction false} UntouchedRow(s: State, e: Event, i: nat)
    requires i < |s.execs| && !Touches(s, e, i)
    ensures i < |Step(s, e).execs| && Step(s, e).execs[i] == s.execs[i] && Step(s, e).files == s.files
  {
  }

  lemma {:induction false} UntouchedHandler(s: State, e: Event, i: nat, p: ProcId)
    requires !Touches(s, e, i) && p in s.procs && s.procs[p].Applying? && s.procs[p].exec == i
    ensures p in Step(s, e).procs && Step(s, e).procs[p] == s.procs[p]
  {
  }

  lemma {:induction false} UntouchedSame(s: State, e: Event, i: nat)
    requires i < |s.execs| && !Touches(s, e, i)
    ensures SameWork(s, Step(s, e), i)
  {
    UntouchedRow(s, e, i);
    forall p | p in s.procs && s.procs[p].Applying? && s.procs[p].exec == i
      ensures p in Step(s, e).procs && Step(s, e).procs[p] == s.procs[p]
    {
      UntouchedHandler(s, e, i, p);
    }
  }

  lemma {:induction false} BackUpAccounts(s: State, p: ProcId, ok: bool, i: nat, t: Tally)
    requires Inv(s) && Accounts(s, i, t) && Touches(s, BackUp(p, ok), i) && i < |s.execs|
    ensures Accounts(Step(s, BackUp(p, ok)), i, Tallied(t, s, BackUp(p, ok), i))
  {
    assert ProcInv(s, p);
    var s' := Step(s, BackUp(p, ok));
    if s' != s {
      assert InProgress(s, i, t, p);
      if ok {
        assert InProgress(s', i, Tallied(t, s, BackUp(p, ok), i), p);
      }
    }
  }

  lemma {:induction false} RunFileAccounts(s: State, p: ProcId, ok: bool, i: nat, t: Tally)
    requires Inv(s) && Accounts(s, i, t) && Touches(s, RunFile(p, ok), i) && i < |s.execs|
    ensures Accounts(Step(s, RunFile(p, ok)), i, Tallied(t, s, RunFile(p, ok), i))
  {
    assert ProcInv(s, p);
    var s' := Step(s, RunFile(p, ok));
    if s' != s {
      assert InProgress(s, i, t, p);
      assert InProgress(s', i, Tallied(t, s, RunFile(p, ok), i), p);
    }
  }

  lemma {:induction false} FinishAccounts(s: State, p: ProcId, actorId: UserId, i: nat, t: Tally)
    requires Inv(s) && Accounts(s, i, t) && Touches(s, Finish(p, actorId), i) && i < |s.execs|
    ensures Accounts(Step(s, Finish(p, actorId)), i, t)
  {
    assert ProcInv(s, p);
    if Step(s, Finish(p, actorId)) != s {
      assert InProgress(s, i, t, p);
    }
  }

  lemma {:induction false} FinishRollbackAccounts(s: State, p: ProcId, ok: bool, i: nat, t: Tally)
    requires Inv(s) && Accounts(s, i, t) && Touches(s, FinishRollback(p, ok), i) && i < |s.execs|
    ensures Accounts(Step(s, FinishRollback(p, ok)), i, Tallied(t, s, FinishRollback(p, ok), i))
  {
    assert ProcInv(s, p);
  }

  lemma {:induction false} NewAccounts(s: State, e: Event, i: nat)
    requires i >= |s.execs|
    ensures Accounts(Step(s, e), i, Tally(false, 0, 0, None))
  {
    var s' := Step(s, e);
    if i < |s'.execs| && e.StartApply? {
      assert InProgress(s', i, Tally(false, 0, 0, None), e.p);
    }
  }

  lemma {:induction false} UntouchedTally(s: State, e: Event, i: nat, t: Tally)
    requires Inv(s) && (!Touches(s, e, i) || i >= |s.execs|)
    ensures Tallied(t, s, e, i) == t
  {
    forall p | p in s.procs && !s.procs[p].Gated? ensures s.procs[p].exec < |s.execs| {
      assert ProcInv(s, p);
    }
  }

  lemma {:induction false} AccountsStep(s: State, e: Event, i: nat, t: Tally)
    requires Inv(s) && Accounts(s, i, t)
    ensures Accounts(Step(s, e), i, Tallied(t, s, e, i))
  {
    if i >= |s.execs| {
      UntouchedTally(s, e, i, t);
      NewAccounts(s, e, i);
    } else if !Touches(s, e, i) {
      UntouchedTally(s, e, i, t);
      UntouchedSame(s, e, i);
      SameWorkAccounts(s, Step(s, e), i, t);
    } else {
      match e
      case BackUp(p, ok) => BackUpAccounts(s, p, ok, i, t);
      case RunFile(p, ok) => RunFileAccounts(s, p, ok, i, t);
      case Finish(p, actorId) => FinishAccounts(s, p, actorId, i, t);
      case FinishRollback(p, ok) => FinishRollbackAccounts(s, p, ok, i, t);
    }
  }

  /**
   * Over every run, whatever is interleaved: an apply is recorded as SUCCESS only if its backup
   * was stored and every file of its request ran, as FAILED only if the backup was not or one
   * file failed, and a rollback as what came of it.
   */
  lemma {:induction false} OutcomesAreExact(s0: State, es: seq<Event>, i: nat)
    requires Init(s0)
    ensures Accounts(Run(s0, es), i, TallyOf(s0, es, i))
  {
    if es == [] {
    } else {
      var n := |es| - 1;
      OutcomesAreExact(s0, es[..n], i);
      RunInv(s0, es[..n]);
      AccountsStep(Run(s0, es[..n]), es[n], i, TallyOf(s0, es[..n], i));
    }
  }

  /** Two executions of one request are RUNNING. */
  predicate Overlap(execs: seq<ExecRow>, i: nat, j: nat) {
    i < j < |execs| && IsRunning(execs[i], execs[i].crId) && IsRunning(execs[j], execs[i].crId)
  }

  predicate RollbackEnabled(s: State, e: Event) {
    && e.StartRollback? && e.p !in s.procs
    && e.exec < |s.execs| && s.execs[e.exec].kind == ApplyKind && s.execs[e.exec].backedUp
  }

  /** No step makes an execution RUNNING again. */
  lemma {:induction false} StillRunning(s: State, e: Event, i: nat)
    requires i < |Step(s, e).execs| && Step(s, e).execs[i].status == Running && i < |s.execs|
    ensures s.execs[i].status == Running && s.execs[i].crId == Step(s, e).execs[i].crId
         && s.execs[i].kind == Step(s, e).execs[i].kind
  {
  }

  lemma {:induction false} OverlapIsNew(s: State, e: Event, i: nat, j: nat)
    requires Overlap(Step(s, e).execs, i, j) && !Overlap(s.execs, i, j)
    ensures RollbackEnabled(s, e) && i < j == |s.execs| && IsRunning(s.execs[i], s.execs[e.exec].crId)
  {
    var s' := Step(s, e);
    StillRunning(s, e, i);
    if j < |s.execs| {
      StillRunning(s, e, j);
    }
    assert forall k :: 0 <= k < |s.execs| ==> s.execs[k] in s.execs;
  }

  /**
   * Rollbacks are not held back the way applies are. A step makes two executions of one
   * request run side by side if and only if it starts a rollback while an execution of that
   * request, perhaps the one it undoes, is RUNNING.
   */
  lemma {:induction false} OverlapExactly(s: State, e: Event)
    ensures (exists i: nat, j: nat :: Overlap(Step(s, e).execs, i, j) && !Overlap(s.execs, i, j)) <==>
      RollbackEnabled(s, e) && exists row :: row in s.execs && IsRunning(row, s.execs[e.exec].crId)
  {
    var s' := Step(s, e);
    if RollbackEnabled(s, e) && exists row :: row in s.execs && IsRunning(row, s.execs[e.exec].crId) {
      var row :| row in s.execs && IsRunning(row, s.execs[e.exec].crId);
      var i :| 0 <= i < |s.execs| && s.execs[i] == row;
      assert Overlap(s'.execs, i, |s.execs|) && !Overlap(s.execs, i, |s.execs|);
    }
    forall i: nat, j: nat | Overlap(s'.execs, i, j) && !Overlap(s.execs, i, j)
      ensures RollbackEnabled(s, e) && exists row :: row in s.execs && IsRunning(row, s.execs[e.exec].crId)
    {
      OverlapIsNew(s, e, i, j);
      assert s.execs[i] in s.execs;
    }
  }

  /** So of executions of one request that run side by side, all but the first are rollbacks. */
  lemma {:induction false} OverlapsAreRollbacks(s0: State, es: seq<Event>, i: nat, j: nat)
    requires Init(s0) && Overlap(Run(s0, es).execs, i, j)
    ensures Run(s0, es).execs[j].kind == RollbackKind
  {
    if es == [] {
    } else {
      var n := |es| - 1;
      var s := Run(s0, es[..n]);
      if Overlap(s.execs, i, j) {
        OverlapsAreRollbacks(s0, es[..n], i, j);
        StillRunning(s, es[n], j);
      } else {
        OverlapIsNew(s, es[n], i, j);
      }
    }
  }

  lemma {:induction false} RunAppend(s: State, es: seq<Event>, e: Event)
    ensures Run(s, es + [e]) == Step(Run(s, es), e)
  {
  }

  lemma {:induction false} RunLast(s: State, es: seq<Event>, e: Event, all: seq<Event>)
    requires all == es + [e]
    ensures Run(s, all) == Step(Run(s, es), e)
  {
  }

  lemma {:induction false} RunConcat(s: State, es: seq<Event>, es': seq<Event>)
    ensures Run(s, es + es') == Run(Run(s, es), es')
    decreases |es'|
  {
    if es' == [] {
      assert es + es' == es;
    } else {
      var init, last := es'[..|es'| - 1], es'[|es'| - 1];
      RunConcat(s, es, init);
      AppendSnoc(es, es');
      SnocSplit(es');
      RunLast(s, es + init, last, es + es');
      RunLast(Run(s, es), init, last, es');
    }
  }

  /** The files of an apply, one after the other. */
  lemma {:induction false} AllFilesRun(s: State, p: ProcId) returns (es: seq<Event>)
    requires p in s.procs && s.procs[p].Applying? && !s.procs[p].failed
    requires s.procs[p].exec < |s.execs| && s.execs[s.procs[p].exec].backedUp
    ensures Run(s, es) == s.(procs := s.procs[p := s.procs[p].(filesLeft := 0)])
    decreases s.procs[p].filesLeft
  {
    if s.procs[p].filesLeft == 0 {
      es := [];
      assert s.procs[p := s.procs[p].(filesLeft := 0)] == s.procs;
    } else {
      var s1 := Step(s, RunFile(p, true));
      var rest := AllFilesRun(s1, p);
      es := [RunFile(p, true)] + rest;
      RunAppend(s, [], RunFile(p, true));
      RunConcat(s, [RunFile(p, true)], rest);
      assert s1.procs[p := s1.procs[p].(filesLeft := 0)] == s.procs[p := s.procs[p].(filesLeft := 0)];
    }
  }

  lemma {:induction false} LastStep(s: State, s3: State, p: ProcId, id: CrId, actorId: UserId)
    requires p in s.procs && id in s.crs
    requires s3.crs == s.crs && s3.files == s.files && s3.execs == s.execs + [ExecRow(id, ApplyKind, Running, true)]
    requires s3.procs == s.procs[p := Applying(id, FinalApproved, |s.execs|, 0, false)]
    ensures var s4 := Step(s3, Finish(p, actorId));
      && s4.crs == s.crs[id := MarkApplied(s.crs[id], FinalApproved, actorId)]
      && s4.files == s.files && s4.procs == s.procs - {p}
      && s4.execs == s.execs + [ExecRow(id, ApplyKind, Succeeded, true)]
  {
  }

  /** A handler past the gate, undisturbed, runs to SUCCESS and marks its request APPLIED. */
  lemma {:induction false} OneApply(s: State, p: ProcId, id: CrId, actorId: UserId) returns (es: seq<Event>)
    requires p in s.procs && s.procs[p] == Gated(id, FinalApproved) && id in s.crs
    requires forall row :: row in s.execs ==> !IsRunning(row, id)
    ensures var s' := Run(s, es);
      && s'.crs == s.crs[id := MarkApplied(s.crs[id], FinalApproved, actorId)]
      && s'.files == s.files && s'.procs == s.procs - {p}
      && s'.execs == s.execs + [ExecRow(id, ApplyKind, Succeeded, true)]
  {
    var n := if id in s.files then s.files[id] else 0;
    var s1 := Step(s, StartApply(p));
    assert s1.procs[p] == Applying(id, FinalApproved, |s.execs|, n, false);
    var s2 := Step(s1, BackUp(p, true));
    assert s2.execs == s.execs + [ExecRow(id, ApplyKind, Running, true)] && s2.procs == s1.procs && s2.crs == s.crs;
    var files := AllFilesRun(s2, p);
    var s3 := Run(s2, files);
    LastStep(s, s3, p, id, actorId);
    RunAppend(s, [], StartApply(p));
    RunAppend(s, [] + [StartApply(p)], BackUp(p, true));
    var started := [] + [StartApply(p)] + [BackUp(p, true)];
    RunConcat(s, started, files);
    RunAppend(s, started + files, Finish(p, actorId));
    es := started + files + [Finish(p, actorId)];
  }

  /** Two handlers past the gate, one after the other. */
  lemma {:induction false} BothApply(s: State, p: ProcId, q: ProcId, id: CrId, actorId: UserId) returns (es: seq<Event>)
    requires p != q && p in s.procs && q in s.procs && id in s.crs && s.crs[id].env != Dev
    requires s.procs[p] == s.procs[q] == Gated(id, FinalApproved)
    requires forall row :: row in s.execs ==> !IsRunning(row, id)
    ensures var s' := Run(s, es);
            var entry := HistoryEntry(FinalApproved, Applied, actorId);
            var row := ExecRow(id, ApplyKind, Succeeded, true);
      id in s'.crs && s'.crs[id].history == s.crs[id].history + [entry, entry] && s'.execs == s.execs + [row, row]
  {
    var first := OneApply(s, p, id, actorId);
    var second := OneApply(Run(s, first), q, id, actorId);
    es := first + second;
    RunConcat(s, first, second);
  }

  /**
   * Not "at most one successful apply": from every state in which a request is FINAL_APPROVED
   * and nothing of it is RUNNING, two requests to apply it can both read that status at the
   * gate and then run one after the other. It is applied twice, and recorded twice.
   */
  lemma {:induction false} AppliedTwice(s: State, p: ProcId, q: ProcId, id: CrId, ctx: Context) returns (es: seq<Event>)
    requires p != q && p !in s.procs && q !in s.procs && id in s.crs
    requires s.crs[id].env != Dev && s.crs[id].status == FinalApproved && Gate(s.crs[id], ctx).None?
    requires forall row :: row in s.execs ==> !IsRunning(row, id)
    ensures var s' := Run(s, es);
            var entry := HistoryEntry(FinalApproved, Applied, ctx.actorId);
            var row := ExecRow(id, ApplyKind, Succeeded, true);
      && id in s'.crs && s'.crs[id].history == s.crs[id].history + [entry, entry]
      && s'.execs == s.execs + [row, row]
  {
    var s1 := Step(s, GateRead(p, id, ctx));
    var s2 := Step(s1, GateRead(q, id, ctx));
    RunAppend(s, [], GateRead(p, id, ctx));
    RunAppend(s, [] + [GateRead(p, id, ctx)], GateRead(q, id, ctx));
    var gates := [] + [GateRead(p, id, ctx)] + [GateRead(q, id, ctx)];
    var applies := BothApply(s2, p, q, id, ctx.actorId);
    es := gates + applies;
    RunConcat(s, gates, applies);
  }

  function NewCr(): Cr { Cr("dev", Prod, Some("rev"), Draft, [Slot("app", None, None)], []) }

  function Approved(): Cr {
    Cr("dev", Prod, Some("rev"), FinalApproved, [Slot("app", Some(Approve), None)],
       [HistoryEntry(Draft, Submitted, "dev"), HistoryEntry(Submitted, ReviewApproved, "rev"),
        HistoryEntry(ReviewApproved, FinalApproved, "app")])
  }

  function Only(cr: Cr): State { State(map["1" := cr], map["1" := 1], [], map[]) }

  lemma {:induction false} OnlyStep(cr: Cr, ev: Runs.Event, cr': Cr)
    requires !ev.ApplyEv? && Runs.Handle(cr, ev) == Ok(cr')
    ensures Step(Only(cr), Workflow("1", ev)) == Only(cr')
  {
    assert Only(cr).crs["1" := cr'] == Only(cr').crs;
  }

  lemma {:induction false} OneApproval(cr: Cr)
    requires cr.status == ReviewApproved && cr.slots == [Slot("app", None, None)]
    ensures ApproveCr(cr, "app", [], Approve) ==
      Ok(cr.(slots := [Slot("app", Some(Approve), None)], status := FinalApproved,
             history := cr.history + [HistoryEntry(ReviewApproved, FinalApproved, "app")]))
  {
    var slots := [Slot("app", Some(Approve), None)];
    assert cr.slots[0 := slots[0]] == slots && slots[..0] == [];
    assert CountDecision(slots, Approve) == 1;
  }

  lemma {:induction false} ApprovalRun() returns (es: seq<Event>)
    ensures Run(Only(NewCr()), es) == Only(Approved())
  {
    var submit := Runs.SubmitEv("dev", None);
    var review := Runs.ReviewEv("rev", [], 0, Approve);
    var approve := Runs.ApproveEv("app", [], Approve);
    var submitted := NewCr().(status := Submitted, history := [HistoryEntry(Draft, Submitted, "dev")]);
    var reviewed := submitted.(status := ReviewApproved,
                               history := submitted.history + [HistoryEntry(Submitted, ReviewApproved, "rev")]);
    assert NewCr().history + [HistoryEntry(Draft, Submitted, "dev")] == submitted.history;
    assert reviewed.history + [HistoryEntry(ReviewApproved, FinalApproved, "app")] == Approved().history;
    OnlyStep(NewCr(), submit, submitted);
    OnlyStep(submitted, review, reviewed);
    OneApproval(reviewed);
    OnlyStep(reviewed, approve, Approved());
    es := [] + [Workflow("1", submit)] + [Workflow("1", review)] + [Workflow("1", approve)];
    RunAppend(Only(NewCr()), [], Workflow("1", submit));
    RunAppend(Only(NewCr()), [] + [Workflow("1", submit)], Workflow("1", review));
    RunAppend(Only(NewCr()), [] + [Workflow("1", submit)] + [Workflow("1", review)], Workflow("1", approve));
  }

  /** Such a run exists, from a new request on. */
  lemma {:induction false} AppliedTwiceHappens() returns (es: seq<Event>)
    ensures Init(Only(NewCr()))
    ensures var s := Run(Only(NewCr()), es);
            var row := ExecRow("1", ApplyKind, Succeeded, true);
      "1" in s.crs && s.execs == [row, row] && !Chain(s.crs["1"].history, s.crs["1"].status)
  {
    var approval := ApprovalRun();
    var s := Run(Only(NewCr()), approval);
    var ctx := Context(Prod, "app", Approver, true, true, false);
    var twice := AppliedTwice(s, 1, 2, "1", ctx);
    es := approval + twice;
    RunConcat(Only(NewCr()), approval, twice);
    var cr := Run(s, twice).crs["1"];
    if Chain(cr.history, cr.status) {
      ChainLength(cr.history, cr.status);
    }
  }

  /**
   * The gate is not read again before finalizing, so a request may be applied twice.
   * Finalizing keeps the status history a path exactly when the request still has the
   * status that was read at the gate.
   */
  lemma {:induction false} FinalizeKeepsChainExactly(cr: Cr, actorId: UserId)
    requires cr.env != Dev && cr.status in {FinalApproved, Applied} && Chain(cr.history, cr.status)
    ensures var cr' := MarkApplied(cr, FinalApproved, actorId);
      Chain(cr'.history, cr'.status) <==> cr.status == FinalApproved
  {
  }

  /** What marking means, in STAGING and PROD and in DEV. */
  lemma {:induction false} MarkAppliedExact(cr: Cr, actorId: UserId)
    ensures cr.env == Dev ==> MarkApplied(cr, FinalApproved, actorId) == cr
    ensures cr.env in {Staging, Prod} ==>
      MarkApplied(cr, FinalApproved, actorId) ==
        Cr(cr.authorId, cr.env, cr.reviewerId, Applied, cr.slots,
           cr.history + [HistoryEntry(FinalApproved, Applied, actorId)])
  {
  }

  /** Left alone between gate and end, the protocol marks a request as the sequential workflow does. */
  lemma {:induction false} MarkingIsFinalizing(cr: Cr, actorId: UserId)
    requires cr.status == FinalApproved
    ensures FinalizeApplyCr(cr, actorId) == Ok(MarkApplied(cr, cr.status, actorId))
  {
    MarkAppliedExact(cr, actorId);
    FinalizeExact(cr, actorId);
  }

  /** The step that marks request `id` as applied: every file has run. */
  predicate Marks(s: State, e: Event, id: CrId) {
    && e.Finish? && e.p in s.procs && s.procs[e.p].Applying? && s.procs[e.p].crId == id
    && s.procs[e.p].exec < |s.execs| && s.execs[s.procs[e.p].exec].backedUp
    && !s.procs[e.p].failed && s.procs[e.p].filesLeft == 0
  }

  lemma {:induction false} WorkflowStep(s: State, e: Event, id: CrId)
    requires id in s.crs && Chain(s.crs[id].history, s.crs[id].status) && e.Workflow? && e.crId == id
    ensures id in Step(s, e).crs && Chain(Step(s, e).crs[id].history, Step(s, e).crs[id].status)
  {
    if Step(s, e) != s {
      var action := HandleShape(s.crs[id], e.ev);
      if action.Some? {
        ChainExtends(s.crs[id].history, s.crs[id].status, action.value, e.ev.actor);
      }
    }
  }

  lemma {:induction false} MarkingStep(s: State, e: Event, id: CrId)
    requires Inv(s) && id in s.crs && Chain(s.crs[id].history, s.crs[id].status) && Marks(s, e, id)
    ensures id in Step(s, e).crs
    ensures !Chain(Step(s, e).crs[id].history, Step(s, e).crs[id].status) <==>
      s.crs[id].env != Dev && s.crs[id].status == Applied
  {
    assert ProcInv(s, e.p);
    if s.crs[id].env != Dev {
      FinalizeKeepsChainExactly(s.crs[id], e.actorId);
    }
  }

  /** Every other step leaves the request alone. */
  lemma {:induction false} OtherStep(s: State, e: Event, id: CrId)
    requires id in s.crs && !Marks(s, e, id) && !(e.Workflow? && e.crId == id)
    ensures id in Step(s, e).crs && Step(s, e).crs[id] == s.crs[id]
  {
  }

  /**
   * In every reachable state, under any step: a status history stops being a path if and only
   * if the step marks a STAGING or PROD request as applied that is APPLIED already.
   */
  lemma {:induction false} ChainBrokenExactly(s: State, e: Event, id: CrId)
    requires Reachable(s) && id in s.crs && Chain(s.crs[id].history, s.crs[id].status)
    ensures id in Step(s, e).crs
    ensures !Chain(Step(s, e).crs[id].history, Step(s, e).crs[id].status) <==>
      Marks(s, e, id) && s.crs[id].env != Dev && s.crs[id].status == Applied
  {
    ReachableInv(s);
    if Marks(s, e, id) {
      MarkingStep(s, e, id);
    } else if e.Workflow? && e.crId == id {
      WorkflowStep(s, e, id);
    } else {
      OtherStep(s, e, id);
    }
  }

  lemma {:induction false} LooseLength(h: seq<HistoryEntry>, status: Status)
    requires LooseChain(h, status)
    ensures |h| >= Rank(status)
    ensures Chain(h, status) <==> |h| == Rank(status)
    decreases |h|
  {
    if Chain(h, status) {
      ChainLength(h, status);
    } else {
      LooseLength(h[..|h| - 1], Applied);
    }
  }

  /** Over every interleaving, the history is a path exactly while it is no longer than the status allows. */
  lemma {:induction false} HistoryIsChainExactly(s: State, id: CrId)
    requires Reachable(s) && id in s.crs
    ensures Chain(s.crs[id].history, s.crs[id].status) <==> |s.crs[id].history| <= Rank(s.crs[id].status)
    ensures s.crs[id].status != Applied ==> Chain(s.crs[id].history, s.crs[id].status)
  {
    ReachableInv(s);
    LooseLength(s.crs[id].history, s.crs[id].status);
  }
}
