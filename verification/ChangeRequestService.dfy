/** The stored change request: a record whose requests update it in place. */
module ChangeRequestService {
  import opened Common
  import opened StateMachine
  import opened Delegation
  import opened ChangeRequest

  class ChangeRequestRecord {
    const authorId: UserId
    const env: Env
    var reviewerId: Option<UserId>
    var status: Status
    var approvers: array<Slot>
    var history: seq<HistoryEntry>

    /** The value the specification functions speak about. */
    function Value(): Cr
      reads this, approvers
    {
      Cr(authorId, env, reviewerId, status, approvers[..], history)
    }

    constructor (cr: Cr)
      requires cr.status == Draft && cr.history == []
      ensures Value() == cr && fresh(approvers)
    {
      authorId := cr.authorId;
      env := cr.env;
      reviewerId := cr.reviewerId;
      status := Draft;
      history := [];
      approvers := new Slot[|cr.slots|](i requires 0 <= i < |cr.slots| => cr.slots[i]);
    }

    /** Moves the status and appends the history row, or refuses and changes nothing. */
    method Transition(action: Action, actor: UserId) returns (r: Option<CrError>)
      modifies this`status, this`history
      ensures var spec := ApplyTransition(old(Value()), action, actor);
              if spec.Ok? then r.None? && Value() == spec.value
              else r == Some(spec.error) && Value() == old(Value())
    {
      var next := GetNextStatus(status, action);
      if next.Err? {
        return Some(BadTransition(next.error));
      }
      history := history + [HistoryEntry(status, next.value, actor)];
      status := next.value;
      r := None;
    }

    method Submit(actor: UserId, policy: Option<Required>) returns (r: Option<CrError>)
      modifies this`status, this`history
      ensures var spec := SubmitCr(old(Value()), actor, policy);
              if spec.Ok? then r.None? && Value() == spec.value
              else r == Some(spec.error) && Value() == old(Value())
    {
      if authorId != actor {
        return Some(SubmitAuthorOnly);
      }
      var required := GetRequired(policy);
      if reviewerId.None? || approvers.Length != required {
        return Some(SubmitRequiresAssignees(required));
      }
      r := Transition(Action.Submit, actor);
    }

    method Review(actor: UserId, rows: seq<Row>, now: int, decision: Decision) returns (r: Option<CrError>)
      modifies this`status, this`history
      ensures var spec := ReviewCr(old(Value()), actor, rows, now, decision);
              if spec.Ok? then r.None? && Value() == spec.value
              else r == Some(spec.error) && Value() == old(Value())
    {
      var isDirect := reviewerId == Some(actor);
      var isDelegate := false;
      if !isDirect && reviewerId.Some? {
        var ids := ActiveDelegatorIds(rows, actor, now);
        isDelegate := reviewerId.value in ids;
      }
      if !isDirect && !isDelegate {
        return Some(ReviewForbidden);
      }
      r := Transition(if decision == Approve then ReviewApprove else ReviewReject, actor);
    }

    /** First slot owned by one of `owners`, open if `open` asks so; `Length` when there is none. */
    method QuerySlot(owners: seq<UserId>, open: bool) returns (k: nat)
      ensures k == FindSlot(approvers[..], owners, open, 0)
    {
      k := 0;
      while k < approvers.Length && !(approvers[k].userId in owners && (open ==> Undecided(approvers[k])))
        invariant 0 <= k <= approvers.Length
        invariant FindSlot(approvers[..], owners, open, 0) == FindSlot(approvers[..], owners, open, k)
      {
        k := k + 1;
      }
    }

    /** Has `actor` decided a slot other than `k`, as owner or as delegate? */
    method QueryActedElsewhere(k: nat, actor: UserId) returns (found: bool)
      ensures found == ActedElsewhere(approvers[..], k, actor)
    {
      var i := 0;
      while i < approvers.Length
        invariant 0 <= i <= approvers.Length
        invariant forall j :: 0 <= j < i && j != k ==>
          !((approvers[j].userId == actor && !Undecided(approvers[j])) || approvers[j].decidedById == Some(actor))
      {
        if i != k && ((approvers[i].userId == actor && !Undecided(approvers[i]))
                      || approvers[i].decidedById == Some(actor)) {
          assert approvers[..][i] == approvers[i];
          return true;
        }
        i := i + 1;
      }
      found := false;
    }

    method CountApproved() returns (n: nat)
      ensures n == CountDecision(approvers[..], Approve)
    {
      n := 0;
      for i := 0 to approvers.Length
        invariant n == CountDecision(approvers[..i], Approve)
      {
        assert approvers[..i + 1][..i] == approvers[..i];
        if approvers[i].decision == Some(Approve) {
          n := n + 1;
        }
      }
      assert approvers[..approvers.Length] == approvers[..];
    }

    /** The own slot if it is open, else the first delegated one that is. */
    method QueryChoice(actor: UserId, delegatorIds: seq<UserId>) returns (r: Result<Choice, CrError>)
      ensures r == ChooseSlot(approvers[..], actor, delegatorIds)
    {
      var mine := QuerySlot([actor], false);
      if mine < approvers.Length && Undecided(approvers[mine]) {
        return Ok(Choice(mine, false));
      }
      var delegated := QuerySlot(delegatorIds, true);
      if delegated < approvers.Length {
        return Ok(Choice(delegated, true));
      }
      r := Err(if mine < approvers.Length then AlreadyDecided else ApproveForbidden);
    }

    /** The slots that a decision has just changed: reject, final approval, or wait for the others. */
    method ConcludeStage(actor: UserId, decision: Decision) returns (r: Option<CrError>)
      modifies this`status, this`history
      ensures var spec := AfterDecision(old(Value()), actor, decision);
              if spec.Ok? then r.None? && Value() == spec.value
              else r == Some(spec.error) && Value() == old(Value())
    {
      var approved := CountApproved();
      if decision == Reject {
        r := Transition(FinalReject, actor);
      } else if approved == approvers.Length {
        r := Transition(FinalApprove, actor);
      } else {
        r := None;
      }
    }

    method ApproveSlot(actor: UserId, delegatorIds: seq<UserId>, decision: Decision) returns (r: Option<CrError>)
      modifies this`status, this`history, approvers
      ensures var spec := ApproveCr(old(Value()), actor, delegatorIds, decision);
              if spec.Ok? then r.None? && Value() == spec.value
              else r == Some(spec.error) && Value() == old(Value())
    {
      if status != ReviewApproved {
        return Some(ApproveInvalidStatus);
      }
      var choice := QueryChoice(actor, delegatorIds);
      if choice.Err? {
        return Some(choice.error);
      }
      var Choice(slot, onBehalf) := choice.value;
      var prior := QueryActedElsewhere(slot, actor);
      if prior {
        return Some(SodViolation);
      }
      ghost var before := approvers[..];
      approvers[slot] := approvers[slot].(decision := Some(decision),
                                             decidedById := if onBehalf then Some(actor) else None);
      assert approvers[..] == before[slot := Filled(before[slot], actor, onBehalf, decision)];
      r := ConcludeStage(actor, decision);
    }

    method SetAssignees(users: Directory, user: UserId, role: Role, policy: Option<Required>,
                        newReviewer: Field<UserId>, approverIds: Field<seq<UserId>>)
      returns (r: Option<CrError>)
      modifies this`reviewerId, this`approvers
      ensures var spec := SetAssigneesCr(old(Value()), users, user, role, policy, newReviewer, approverIds);
              if spec.Ok? then r.None? && Value() == spec.value
              else r == Some(spec.error) && Value() == old(Value())
      ensures approvers == old(approvers) || fresh(approvers)
    {
      var isDraft := status == Draft;
      if !((isDraft && authorId == user) || role == Admin) {
        return Some(AssigneesChangeForbidden);
      }
      var bad := AssertAssigneeRoles(users, newReviewer, approverIds);
      if bad.Some? {
        return bad;
      }
      if !approverIds.Absent? && !isDraft {
        if approverIds.Null? {
          return Some(BadBody);
        }
        if |approverIds.value| != GetRequired(policy) {
          return Some(ApproverCountMismatch(GetRequired(policy)));
        }
      }
      if newReviewer == Given("") {
        return Some(ForeignKeyViolation);
      }
      if approverIds.Null? {
        return Some(BadBody);
      }
      match newReviewer {
        case Absent =>
        case Null => reviewerId := None;
        case Given(u) => reviewerId := Some(u);
      }
      if approverIds.Given? {
        var owners := approverIds.value;
        approvers := new Slot[|owners|](i requires 0 <= i < |owners| => Slot(owners[i], None, None));
        assert approvers[..] == FreshSlots(owners);
      }
      r := None;
    }

    method FinalizeApply(actor: UserId) returns (r: Option<CrError>)
      modifies this`status, this`history
      ensures var spec := FinalizeApplyCr(old(Value()), actor);
              if spec.Ok? then r.None? && Value() == spec.value
              else r == Some(spec.error) && Value() == old(Value())
    {
      if env == Dev {
        return None;
      }
      r := Transition(Apply, actor);
    }
  }
}
