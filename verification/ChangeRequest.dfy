/** One change request as a value, and what each workflow request does to it. */
module ChangeRequest {
  import opened Common
  import opened StateMachine
  import opened Delegation

  datatype Env = Dev | Staging | Prod

  datatype Decision = Approve | Reject

  /** One approver's place: the owner, the decision taken, and who took it on the owner's behalf. */
  datatype Slot = Slot(userId: UserId, decision: Option<Decision>, decidedById: Option<UserId>)

  datatype Cr = Cr(
    authorId: UserId,
    env: Env,
    reviewerId: Option<UserId>,
    status: Status,
    slots: seq<Slot>,
    history: seq<HistoryEntry>)

  datatype CrError =
    | SubmitAuthorOnly | SubmitRequiresAssignees(required: nat)
    | ReviewForbidden
    | ApproveInvalidStatus | AlreadyDecided | ApproveForbidden | SodViolation
    | AssigneesChangeForbidden | ApproverCountMismatch(required: nat)
    | ReviewerMustBeReviewerRole | DuplicateApprovers | ApproversMustBeApproverRole
    | BadTransition(cause: TransitionError)
    | ForeignKeyViolation // the store refuses a reviewer that is no user
    | BadBody             // a `null` where the handler dereferences a list

  /** An approval policy row asks for one to five approvals. */
  type Required = n: nat | 1 <= n <= 5 witness 1

  /** A missing (or unreadable) policy row means one approval. */
  function GetRequired(row: Option<Required>): Required {
    if row.Some? then row.value else 1
  }

  // --- slots ---------------------------------------------------------------

  predicate Undecided(s: Slot) { s.decision.None? }

  /** The person who acted on a decided slot: the recorded delegate, else the owner. */
  function ActorOf(s: Slot): UserId {
    if s.decidedById.Some? then s.decidedById.value else s.userId
  }

  /** First slot at or after `from` owned by one of `owners`, decided or not as `open` asks. */
  function FindSlot(slots: seq<Slot>, owners: seq<UserId>, open: bool, from: nat): (k: nat)
    requires from <= |slots|
    ensures from <= k <= |slots|
    ensures k < |slots| ==> slots[k].userId in owners && (open ==> Undecided(slots[k]))
    ensures forall j :: from <= j < k ==> !(slots[j].userId in owners && (open ==> Undecided(slots[j])))
    decreases |slots| - from
  {
    if from == |slots| then from
    else if slots[from].userId in owners && (open ==> Undecided(slots[from])) then from
    else FindSlot(slots, owners, open, from + 1)
  }

  function CountDecision(slots: seq<Slot>, d: Decision): nat {
    if slots == [] then 0
    else CountDecision(slots[..|slots| - 1], d) + (if slots[|slots| - 1].decision == Some(d) then 1 else 0)
  }

  function CountUndecided(slots: seq<Slot>): nat {
    if slots == [] then 0
    else CountUndecided(slots[..|slots| - 1]) + (if Undecided(slots[|slots| - 1]) then 1 else 0)
  }

  function FreshSlots(owners: seq<UserId>): (slots: seq<Slot>)
    ensures |slots| == |owners|
    ensures forall i :: 0 <= i < |owners| ==> slots[i] == Slot(owners[i], None, None)
  {
    seq(|owners|, i requires 0 <= i < |owners| => Slot(owners[i], None, None))
  }

  // --- assignee checks -----------------------------------------------------

  function AssertAssigneeRoles(users: Directory, reviewerId: Field<UserId>, approverIds: Field<seq<UserId>>)
    : Option<CrError>
  {
    if reviewerId.Given? && reviewerId.value != ""
       && (reviewerId.value !in users || users[reviewerId.value] != Reviewer)
    then Some(ReviewerMustBeReviewerRole)
    else if approverIds.Given? && !Distinct(approverIds.value) then Some(DuplicateApprovers)
    else if approverIds.Given? && exists a :: a in approverIds.value && (a !in users || users[a] != Approver)
    then Some(ApproversMustBeApproverRole)
    else None
  }

  // --- requests ------------------------------------------------------------

  function Create(users: Directory, authorId: UserId, env: Env,
                  reviewerId: Field<UserId>, approverIds: Field<seq<UserId>>): Result<Cr, CrError>
  {
    var bad := AssertAssigneeRoles(users, reviewerId, approverIds);
    if bad.Some? then Err(bad.value)
    else if reviewerId == Given("") then Err(ForeignKeyViolation)
    else Ok(Cr(authorId, env,
               if reviewerId.Given? then Some(reviewerId.value) else None,
               Draft,
               FreshSlots(if approverIds.Given? then approverIds.value else []),
               []))
  }

  function ApplyTransition(cr: Cr, action: Action, actor: UserId): Result<Cr, CrError> {
    var next := GetNextStatus(cr.status, action);
    if next.Err? then Err(BadTransition(next.error))
    else Ok(cr.(status := next.value, history := cr.history + [HistoryEntry(cr.status, next.value, actor)]))
  }

  function SubmitCr(cr: Cr, actor: UserId, policy: Option<Required>): Result<Cr, CrError> {
    if cr.authorId != actor then Err(SubmitAuthorOnly)
    else
      var required := GetRequired(policy);
      if cr.reviewerId.None? || |cr.slots| != required then Err(SubmitRequiresAssignees(required))
      else ApplyTransition(cr, Action.Submit, actor)
  }

  function ReviewCr(cr: Cr, actor: UserId, rows: seq<Row>, now: int, decision: Decision): Result<Cr, CrError> {
    var isDirect := cr.reviewerId == Some(actor);
    var isDelegate := !isDirect && cr.reviewerId.Some? && IsActiveDelegateFor(rows, actor, cr.reviewerId.value, now);
    if !isDirect && !isDelegate then Err(ReviewForbidden)
    else ApplyTransition(cr, if decision == Approve then ReviewApprove else ReviewReject, actor)
  }

  /** The slot this approval fills, and whether it is filled on behalf of its owner. */
  datatype Choice = Choice(slot: nat, onBehalf: bool)

  function ChooseSlot(slots: seq<Slot>, actor: UserId, delegatorIds: seq<UserId>): (r: Result<Choice, CrError>)
    ensures r.Ok? ==> r.value.slot < |slots| && Undecided(slots[r.value.slot])
  {
    var mine := FindSlot(slots, [actor], false, 0);
    if mine < |slots| && Undecided(slots[mine]) then Ok(Choice(mine, false))
    else
      var del := FindSlot(slots, delegatorIds, true, 0);
      if del < |slots| then Ok(Choice(del, true))
      else if mine < |slots| then Err(AlreadyDecided)
      else Err(ApproveForbidden)
  }

  /** The separation-of-duties guard: a slot other than `k` that `actor` already decided. */
  predicate ActedElsewhere(slots: seq<Slot>, k: nat, actor: UserId) {
    exists i :: 0 <= i < |slots| && i != k &&
      ((slots[i].userId == actor && !Undecided(slots[i])) || slots[i].decidedById == Some(actor))
  }

  /** A slot with its decision; the actor is recorded only when standing in for the owner. */
  function Filled(s: Slot, actor: UserId, onBehalf: bool, decision: Decision): Slot {
    Slot(s.userId, Some(decision), if onBehalf then Some(actor) else None)
  }

  /** A rejection ends the stage at once, approval of every slot ends it too. */
  function AfterDecision(cr: Cr, actor: UserId, decision: Decision): Result<Cr, CrError> {
    if decision == Reject then ApplyTransition(cr, FinalReject, actor)
    else if CountDecision(cr.slots, Approve) == |cr.slots| then ApplyTransition(cr, FinalApprove, actor)
    else Ok(cr)
  }

  function ApproveCr(cr: Cr, actor: UserId, delegatorIds: seq<UserId>, decision: Decision): Result<Cr, CrError> {
    if cr.status != ReviewApproved then Err(ApproveInvalidStatus)
    else
      var choice := ChooseSlot(cr.slots, actor, delegatorIds);
      if choice.Err? then Err(choice.error)
      else
        var Choice(k, onBehalf) := choice.value;
        if ActedElsewhere(cr.slots, k, actor) then Err(SodViolation)
        else AfterDecision(cr.(slots := cr.slots[k := Filled(cr.slots[k], actor, onBehalf, decision)]), actor, decision)
  }

  function SetAssigneesCr(cr: Cr, users: Directory, user: UserId, role: Role, policy: Option<Required>,
                          reviewerId: Field<UserId>, approverIds: Field<seq<UserId>>): Result<Cr, CrError>
  {
    var isDraft := cr.status == Draft;
    if !((isDraft && cr.authorId == user) || role == Admin) then Err(AssigneesChangeForbidden)
    else
      var bad := AssertAssigneeRoles(users, reviewerId, approverIds);
      if bad.Some? then Err(bad.value)
      else if approverIds.Null? && !isDraft then Err(BadBody)
      else if approverIds.Given? && !isDraft && |approverIds.value| != GetRequired(policy)
      then Err(ApproverCountMismatch(GetRequired(policy)))
      else if reviewerId == Given("") then Err(ForeignKeyViolation)
      else if approverIds.Null? then Err(BadBody)
      else
        var reviewer := match reviewerId
                        case Absent => cr.reviewerId
                        case Null => None
                        case Given(u) => Some(u);
        Ok(cr.(reviewerId := reviewer,
               slots := if approverIds.Given? then FreshSlots(approverIds.value) else cr.slots))
  }

  /** The apply engine's last step: STAGING and PROD requests become APPLIED, DEV ones do not move. */
  function FinalizeApplyCr(cr: Cr, actor: UserId): Result<Cr, CrError> {
    if cr.env == Dev then Ok(cr) else ApplyTransition(cr, Apply, actor)
  }
}
