/** The promises of the approval workflow, over every reachable state. */
module ChangeRequestTheorems {
  import opened Common
  import opened StateMachine
  import opened Delegation
  import opened ChangeRequest
  import opened ChangeRequestRuns

  /**
   * Separation of duties: whoever acted on two different decided slots, directly
   * or for someone else, is two different people, and those people are exactly
   * the ones whose approve() calls succeeded, one call each.
   */
  lemma {:induction false} SeparationOfDuties(t: Tracked)
    requires Reachable(t)
    ensures var slots := t.cr.slots;
      && (forall i, j :: 0 <= i < j < |slots| && !Undecided(slots[i]) && !Undecided(slots[j]) ==>
            ActorOf(slots[i]) != ActorOf(slots[j]))
      && (forall a :: a in t.acted <==> exists i :: 0 <= i < |slots| && !Undecided(slots[i]) && ActorOf(slots[i]) == a)
      && Distinct(t.acted)
  {
    ReachableInv(t);
  }

  lemma {:induction false} OnlyApproveFinallyApproves(t: Tracked, ev: Event)
    requires Inv(t)
    requires t.cr.status != FinalApproved && Step(t, ev).cr.status == FinalApproved
    ensures ev.ApproveEv? && t.cr.status == ReviewApproved && !Step(t, ev).reassigned
  {
  }

  lemma {:induction false} AllApprovedByDistinctPeople(t: Tracked)
    requires Inv(t) && t.cr.status == FinalApproved && !t.reassigned
    ensures forall i :: 0 <= i < |t.cr.slots| ==> t.cr.slots[i].decision == Some(Approve)
    ensures forall i :: 0 <= i < |t.cr.slots| ==> ActorOf(t.cr.slots[i]) in t.acted
    ensures |set a | a in t.acted| == |t.cr.slots| >= 1
    ensures t.checked == Some(|t.cr.slots|)
  {
    CountDecisionBounds(t.cr.slots, Approve);
    assert forall i :: 0 <= i < |t.cr.slots| ==> !Undecided(t.cr.slots[i]);
    CountUndecidedBounds(t.cr.slots);
    DistinctCardinality(t.acted);
  }

  /**
   * The moment a request becomes FINAL_APPROVED: it is an approve() call, every slot
   * now says APPROVE, and as many different people acted as there are slots, which is
   * the count the policy asked for when it was last checked.
   */
  lemma {:induction false} UnanimityAtFinalApproval(t: Tracked, ev: Event)
    requires Reachable(t)
    requires t.cr.status != FinalApproved && Step(t, ev).cr.status == FinalApproved
    ensures var t' := Step(t, ev);
      && ev.ApproveEv? && t.cr.status == ReviewApproved
      && (forall i :: 0 <= i < |t'.cr.slots| ==> t'.cr.slots[i].decision == Some(Approve))
      && (forall i :: 0 <= i < |t'.cr.slots| ==> ActorOf(t'.cr.slots[i]) in t'.acted)
      && |set a | a in t'.acted| == |t'.cr.slots| >= 1
      && t'.checked == Some(|t'.cr.slots|)
  {
    ReachableInv(t);
    StepInv(t, ev);
    OnlyApproveFinallyApproves(t, ev);
    AllApprovedByDistinctPeople(Step(t, ev));
  }

  /** Past the guard, approve() fills the chosen slot. */
  lemma {:induction false} ApproveFills(cr: Cr, actor: UserId, delegatorIds: seq<UserId>, decision: Decision, k: nat,
                                        onBehalf: bool)
    requires cr.status == ReviewApproved
    requires ChooseSlot(cr.slots, actor, delegatorIds) == Ok(Choice(k, onBehalf)) && !ActedElsewhere(cr.slots, k, actor)
    ensures var r := ApproveCr(cr, actor, delegatorIds, decision);
      r.Ok? && r.value.slots == cr.slots[k := Filled(cr.slots[k], actor, onBehalf, decision)]
  {
  }

  lemma {:induction false} OwnerIsChosen(slots: seq<Slot>, i: nat, delegatorIds: seq<UserId>)
    requires OwnersInv(slots) && i < |slots| && Undecided(slots[i])
    ensures ChooseSlot(slots, slots[i].userId, delegatorIds) == Ok(Choice(i, false))
    ensures !ActedElsewhere(slots, i, slots[i].userId)
  {
  }

  lemma {:induction false} OwnerDecides(cr: Cr, i: nat, delegatorIds: seq<UserId>, decision: Decision)
    requires OwnersInv(cr.slots) && cr.status == ReviewApproved
    requires i < |cr.slots| && Undecided(cr.slots[i])
    ensures var r := ApproveCr(cr, cr.slots[i].userId, delegatorIds, decision);
      r.Ok? && r.value.slots == cr.slots[i := Slot(cr.slots[i].userId, Some(decision), None)]
  {
    OwnerIsChosen(cr.slots, i, delegatorIds);
    ApproveFills(cr, cr.slots[i].userId, delegatorIds, decision, i, false);
  }

  /** A request is never left waiting on nobody: an open slot exists, and its owner is never refused. */
  lemma {:induction false} OwnerOfOpenSlotMayDecide(t: Tracked, delegatorIds: seq<UserId>, decision: Decision)
    requires Reachable(t) && t.cr.status == ReviewApproved
    ensures exists i :: 0 <= i < |t.cr.slots| && Undecided(t.cr.slots[i])
    ensures forall i :: 0 <= i < |t.cr.slots| && Undecided(t.cr.slots[i]) ==>
      var r := ApproveCr(t.cr, t.cr.slots[i].userId, delegatorIds, decision);
      r.Ok? && r.value.slots == t.cr.slots[i := Slot(t.cr.slots[i].userId, Some(decision), None)]
  {
    ReachableInv(t);
    CountUndecidedBounds(t.cr.slots);
    forall i | 0 <= i < |t.cr.slots| && Undecided(t.cr.slots[i])
      ensures ApproveCr(t.cr, t.cr.slots[i].userId, delegatorIds, decision).Ok?
      ensures ApproveCr(t.cr, t.cr.slots[i].userId, delegatorIds, decision).value.slots
              == t.cr.slots[i := Slot(t.cr.slots[i].userId, Some(decision), None)]
    {
      OwnerDecides(t.cr, i, delegatorIds, decision);
    }
  }

  /** Every successful approve() settles one more slot, and settling the last one ends the stage. */
  lemma {:induction false} ApproveMakesProgress(t: Tracked, ev: Event)
    requires Reachable(t) && ev.ApproveEv? && Handle(t.cr, ev).Ok?
    ensures var t' := Step(t, ev);
      && CountUndecided(t'.cr.slots) == CountUndecided(t.cr.slots) - 1
      && (ev.decision == Reject ==> t'.cr.status == FinalRejected)
      && (ev.decision == Approve ==>
            t'.cr.status == if CountUndecided(t'.cr.slots) == 0 then FinalApproved else ReviewApproved)
  {
    ReachableInv(t);
    ApproveSteps(t.cr, ev.actor, ev.delegatorIds, ev.decision);
    var Choice(k, onBehalf) := ChooseSlot(t.cr.slots, ev.actor, ev.delegatorIds).value;
    CountUndecidedUpdate(t.cr.slots, k, Step(t, ev).cr.slots[k]);
  }

  lemma {:induction false} ReachableStep(t: Tracked, ev: Event)
    requires Reachable(t)
    ensures Reachable(Step(t, ev))
  {
    var cr0, evs :| IsNew(cr0) && t == Run(Start(cr0), evs);
    RunSnoc(Start(cr0), evs, ev);
  }

  /** The people whose own slot is still open. */
  ghost function OpenOwners(cr: Cr): set<UserId> {
    set s | s in cr.slots && Undecided(s) :: s.userId
  }

  lemma {:induction false} FilledOwnersShrink(cr: Cr, cr': Cr, k: nat, s: Slot)
    requires k < |cr.slots| && cr'.slots == cr.slots[k := s] && !Undecided(s)
    ensures OpenOwners(cr') <= OpenOwners(cr)
  {
    forall x | x in cr'.slots && Undecided(x) ensures x in cr.slots {
      var i :| 0 <= i < |cr'.slots| && cr'.slots[i] == x;
      assert i != k && cr.slots[i] == x;
    }
  }

  /** One such approval. */
  lemma {:induction false} OwnerStep(t: Tracked, i: nat)
    requires Reachable(t) && t.cr.status == ReviewApproved && i < |t.cr.slots| && Undecided(t.cr.slots[i])
    ensures var t' := Step(t, ApproveEv(t.cr.slots[i].userId, [], Approve));
      && OpenOwners(t'.cr) <= OpenOwners(t.cr)
      && CountUndecided(t'.cr.slots) == CountUndecided(t.cr.slots) - 1
      && t'.cr.status == if CountUndecided(t.cr.slots) == 1 then FinalApproved else ReviewApproved
  {
    var s := t.cr.slots[i];
    var ev := ApproveEv(s.userId, [], Approve);
    ReachableInv(t);
    OwnerDecides(t.cr, i, [], Approve);
    ApproveMakesProgress(t, ev);
    FilledOwnersShrink(t.cr, Step(t, ev).cr, i, Slot(s.userId, Some(Approve), None));
  }

  /** By the owner of some open slot. */
  lemma {:induction false} OwnerApproves(t: Tracked) returns (ev: Event)
    requires Reachable(t) && t.cr.status == ReviewApproved
    ensures ev.ApproveEv? && ev.delegatorIds == [] && ev.decision == Approve
    ensures ev.actor in OpenOwners(t.cr)
    ensures OpenOwners(Step(t, ev).cr) <= OpenOwners(t.cr)
    ensures CountUndecided(Step(t, ev).cr.slots) == CountUndecided(t.cr.slots) - 1
    ensures Step(t, ev).cr.status == if CountUndecided(t.cr.slots) == 1 then FinalApproved else ReviewApproved
  {
    ReachableInv(t);
    CountUndecidedBounds(t.cr.slots);
    var i :| 0 <= i < |t.cr.slots| && Undecided(t.cr.slots[i]);
    assert t.cr.slots[i] in t.cr.slots;
    OwnerStep(t, i);
    ev := ApproveEv(t.cr.slots[i].userId, [], Approve);
  }

  lemma {:induction false} RunCons(t: Tracked, ev: Event, rest: seq<Event>)
    ensures Run(t, [ev] + rest) == Run(Step(t, ev), rest)
    decreases |rest|
  {
    if rest == [] {
      assert [ev] + rest == [ev];
      assert Run(t, [ev]) == Step(Run(t, []), ev);
    } else {
      RunCons(t, ev, rest[..|rest| - 1]);
      var evs := [ev] + rest;
      assert evs[..|evs| - 1] == [ev] + rest[..|rest| - 1];
    }
  }

  /** From any REVIEW_APPROVED state, one approval per open slot reaches FINAL_APPROVED. */
  lemma {:induction false} CanAlwaysFinish(t: Tracked) returns (evs: seq<Event>)
    requires Reachable(t) && t.cr.status == ReviewApproved
    ensures |evs| == CountUndecided(t.cr.slots)
    ensures forall e :: e in evs ==> e.ApproveEv? && e.delegatorIds == [] && e.decision == Approve
                                     && e.actor in OpenOwners(t.cr)
    ensures Run(t, evs).cr.status == FinalApproved
    decreases CountUndecided(t.cr.slots)
  {
    var ev := OwnerApproves(t);
    var t' := Step(t, ev);
    if t'.cr.status == FinalApproved {
      evs := [ev];
      assert Run(t, evs) == Step(Run(t, []), ev);
    } else {
      ReachableStep(t, ev);
      var rest := CanAlwaysFinish(t');
      evs := [ev] + rest;
      RunCons(t, ev, rest);
    }
  }

  /**
   * A SUBMITTED request can be reviewed by someone exactly when it has a reviewer.
   * Submitting demands one, but an ADMIN may clear it afterwards.
   */
  lemma {:induction false} SubmittedIsReviewable(cr: Cr)
    requires cr.status == Submitted
    ensures cr.reviewerId.Some? <==>
      exists actor, rows, now, decision :: ReviewCr(cr, actor, rows, now, decision).Ok?
  {
    if cr.reviewerId.Some? {
      assert ReviewCr(cr, cr.reviewerId.value, [], 0, Approve).Ok?;
    }
  }

  /** A request may be created for a reviewer and approvers of the right roles. */
  lemma {:induction false} MayBeNew(author: UserId, env: Env, reviewer: UserId, approvers: seq<UserId>)
    requires reviewer != "" && "" !in approvers && reviewer !in approvers && Distinct(approvers)
    ensures IsNew(Cr(author, env, Some(reviewer), Draft, FreshSlots(approvers), []))
  {
    var users: Directory := map u | u in [reviewer] + approvers :: if u == reviewer then Reviewer else Approver;
    assert Create(users, author, env, Given(reviewer), Given(approvers)).Ok?;
  }

  lemma {:induction false} TwoSteps(cr0: Cr, first: Event, second: Event)
    requires IsNew(cr0)
    ensures Reachable(Step(Step(Start(cr0), first), second))
  {
    var evs := [first, second];
    assert evs[..1] == [first] && [first][..0] == [];
    assert Run(Start(cr0), [first]) == Step(Start(cr0), first);
    assert Run(Start(cr0), evs) == Step(Step(Start(cr0), first), second);
  }

  /** Such a request without a reviewer is reachable: created, submitted, then cleared by an ADMIN. */
  lemma {:induction false} ReviewerCanBeCleared() returns (t: Tracked)
    ensures Reachable(t) && t.cr.status == Submitted && t.cr.reviewerId.None? && t.cr.slots != []
  {
    var cr0 := Cr("dev", Prod, Some("rev"), Draft, FreshSlots(["app"]), []);
    MayBeNew("dev", Prod, "rev", ["app"]);
    var submitted := cr0.(status := Submitted, history := cr0.history + [HistoryEntry(Draft, Submitted, "dev")]);
    var submit, clear := SubmitEv("dev", None), AssignEv("adm", Admin, map[], None, Null, Absent);
    assert Handle(cr0, submit) == Ok(submitted);
    t := Tracked(submitted.(reviewerId := None), [], Some(1), false);
    assert Step(Tracked(submitted, [], Some(1), false), clear) == t;
    TwoSteps(cr0, submit, clear);
  }

  /** The decisions recorded on the slots agree with the status, in every reachable state. */
  lemma {:induction false} DecisionsMatchStatus(t: Tracked)
    requires Reachable(t)
    ensures t.cr.status in {Draft, Submitted, ReviewRejected} ==> AllUndecided(t.cr.slots)
    ensures t.cr.status == ReviewApproved ==>
      (forall s :: s in t.cr.slots ==> s.decision != Some(Reject)) && exists s :: s in t.cr.slots && Undecided(s)
    ensures FinallyDecided(t.cr.status) && t.reassigned ==> AllUndecided(t.cr.slots)
    ensures t.cr.status == FinalRejected && !t.reassigned ==> CountDecision(t.cr.slots, Reject) == 1
    ensures t.cr.status in {FinalApproved, Applied} && !t.reassigned ==>
      forall s :: s in t.cr.slots ==> s.decision == Some(Approve)
    ensures t.cr.status != Draft ==> t.checked == Some(|t.cr.slots|)
  {
    ReachableInv(t);
    CountDecisionBounds(t.cr.slots, Reject);
    CountDecisionBounds(t.cr.slots, Approve);
    CountUndecidedBounds(t.cr.slots);
    if t.cr.status == ReviewApproved {
      var i :| 0 <= i < |t.cr.slots| && Undecided(t.cr.slots[i]);
      assert t.cr.slots[i] in t.cr.slots;
    }
  }

  /** Nobody recorded as having stood in for somebody owns a slot on the same request. */
  lemma {:induction false} DelegatesOwnNoSlot(t: Tracked)
    requires Reachable(t)
    ensures forall s, s' :: s in t.cr.slots && s' in t.cr.slots ==> s.decidedById != Some(s'.userId)
    ensures forall s :: s in t.cr.slots && s.decidedById.Some? ==> !Undecided(s)
  {
    ReachableInv(t);
  }

  /** The status history is one path from DRAFT to the current status, of at most four entries. */
  lemma {:induction false} HistoryIsAChain(t: Tracked)
    requires Reachable(t)
    ensures var h := t.cr.history;
      && |h| == Rank(t.cr.status) <= 4
      && (h == [] ==> t.cr.status == Draft)
      && (h != [] ==> h[0].from == Draft && h[|h| - 1].to == t.cr.status)
      && (forall i :: 0 < i < |h| ==> h[i].from == h[i - 1].to)
      && (forall i :: 0 <= i < |h| ==> exists action :: TransitionOf(action) == Transition(h[i].from, h[i].to))
  {
    ReachableInv(t);
    ChainLength(t.cr.history, t.cr.status);
    ChainLinks(t.cr.history, t.cr.status);
  }

  lemma {:induction false} TerminalStep(t: Tracked, ev: Event)
    requires t.cr.status in TERMINAL_STATUSES
    ensures Step(t, ev).cr.status == t.cr.status && Step(t, ev).cr.history == t.cr.history
  {
  }

  /** No request, however often it is tried, moves a request out of a terminal status. */
  lemma {:induction false} TerminalForever(t: Tracked, evs: seq<Event>)
    requires t.cr.status in TERMINAL_STATUSES
    ensures Run(t, evs).cr.status == t.cr.status
    ensures Run(t, evs).cr.history == t.cr.history
  {
    if evs == [] {
    } else {
      var n := |evs| - 1;
      TerminalForever(t, evs[..n]);
      TerminalStep(Run(t, evs[..n]), evs[n]);
    }
  }

  // --- when each request is accepted ---------------------------------------

  ghost predicate OwnsOpenSlot(cr: Cr, actor: UserId) {
    exists i :: 0 <= i < |cr.slots| && cr.slots[i].userId == actor && Undecided(cr.slots[i])
  }

  /** `actor` may fill slot `k`: an open slot, own before delegated, first delegated first, at most once. */
  ghost predicate MayFill(cr: Cr, actor: UserId, delegatorIds: seq<UserId>, k: nat) {
    && cr.status == ReviewApproved
    && k < |cr.slots| && Undecided(cr.slots[k])
    && (cr.slots[k].userId == actor
        || (&& cr.slots[k].userId in delegatorIds
            && !OwnsOpenSlot(cr, actor)
            && forall j :: 0 <= j < k ==> !(cr.slots[j].userId in delegatorIds && Undecided(cr.slots[j]))))
    && (forall i :: 0 <= i < |cr.slots| && !Undecided(cr.slots[i]) ==>
          cr.slots[i].userId != actor && cr.slots[i].decidedById != Some(actor))
  }

  /** approve() succeeds exactly when some slot may be filled, and fills that slot and no other. */
  lemma {:induction false} ApproveExact(cr: Cr, actor: UserId, delegatorIds: seq<UserId>, decision: Decision)
    requires OwnersInv(cr.slots)
    ensures ApproveCr(cr, actor, delegatorIds, decision).Ok? <==> exists k: nat :: MayFill(cr, actor, delegatorIds, k)
    ensures forall k: nat :: MayFill(cr, actor, delegatorIds, k) ==>
      var r := ApproveCr(cr, actor, delegatorIds, decision);
      && r.Ok?
      && r.value.slots == cr.slots[k := Slot(cr.slots[k].userId, Some(decision),
                                             if cr.slots[k].userId == actor then None else Some(actor))]
  {
    var r := ApproveCr(cr, actor, delegatorIds, decision);
    if r.Ok? {
      ChosenSlot(cr, actor, delegatorIds);
      var Choice(k, _) := ChooseSlot(cr.slots, actor, delegatorIds).value;
      forall i | 0 <= i < |cr.slots| && !Undecided(cr.slots[i])
        ensures cr.slots[i].userId != actor && cr.slots[i].decidedById != Some(actor)
      {
        assert i != k;
      }
      assert MayFill(cr, actor, delegatorIds, k);
    }
    forall k: nat | MayFill(cr, actor, delegatorIds, k)
      ensures r.Ok?
      ensures r.value.slots == cr.slots[k := Slot(cr.slots[k].userId, Some(decision),
                                                  if cr.slots[k].userId == actor then None else Some(actor))]
    {
      if cr.slots[k].userId == actor {
        OwnerDecides(cr, k, delegatorIds, decision);
      } else {
        var mine := FindSlot(cr.slots, [actor], false, 0);
        assert mine == |cr.slots|;
        assert FindSlot(cr.slots, delegatorIds, true, 0) == k;
        assert ChooseSlot(cr.slots, actor, delegatorIds) == Ok(Choice(k, true));
        assert !ActedElsewhere(cr.slots, k, actor);
      }
    }
  }

  /** What setAssignees() accepts, and all it changes: the reviewer and the slots, each as the field says. */
  lemma {:induction false} SetAssigneesExact(cr: Cr, users: Directory, user: UserId, role: Role,
                                             policy: Option<Required>,
                                             reviewerId: Field<UserId>, approverIds: Field<seq<UserId>>)
    ensures var r := SetAssigneesCr(cr, users, user, role, policy, reviewerId, approverIds);
      && (r.Ok? <==>
            && (role == Admin || (cr.status == Draft && cr.authorId == user))
            && (reviewerId.Given? ==> reviewerId.value in users && users[reviewerId.value] == Reviewer)
            && !approverIds.Null?
            && (approverIds.Given? ==>
                  && Distinct(approverIds.value)
                  && (forall a :: a in approverIds.value ==> a in users && users[a] == Approver)
                  && (cr.status != Draft ==> |approverIds.value| == GetRequired(policy))))
      && (r.Ok? ==> r.value.status == cr.status && r.value.history == cr.history)
      && (r.Ok? ==> r.value.authorId == cr.authorId && r.value.env == cr.env)
      && (r.Ok? ==> r.value.reviewerId == if reviewerId.Absent? then cr.reviewerId
                                          else if reviewerId.Null? then None else Some(reviewerId.value))
      && (r.Ok? && approverIds.Absent? ==> r.value.slots == cr.slots)
      && (r.Ok? && approverIds.Given? ==>
            && AllUndecided(r.value.slots)
            && |r.value.slots| == |approverIds.value|
            && forall i :: 0 <= i < |approverIds.value| ==> r.value.slots[i].userId == approverIds.value[i])
  {
  }

  /** A new request starts in DRAFT, with the named people in the named order and nothing decided. */
  lemma {:induction false} CreateExact(users: Directory, author: UserId, env: Env,
                                       reviewerId: Field<UserId>, approverIds: Field<seq<UserId>>)
    ensures var r := Create(users, author, env, reviewerId, approverIds);
            var owners := if approverIds.Given? then approverIds.value else [];
      && (r.Ok? <==>
            && (reviewerId.Given? ==> reviewerId.value in users && users[reviewerId.value] == Reviewer)
            && Distinct(owners)
            && forall a :: a in owners ==> a in users && users[a] == Approver)
      && (r.Ok? ==>
            && r.value.status == Draft && r.value.history == [] && r.value.authorId == author && r.value.env == env
            && r.value.reviewerId == (if reviewerId.Given? then Some(reviewerId.value) else None)
            && AllUndecided(r.value.slots) && |r.value.slots| == |owners|
            && forall i :: 0 <= i < |owners| ==> r.value.slots[i].userId == owners[i])
  {
  }

  /** Only the author submits, only from DRAFT, and only with a reviewer and as many approvers as the policy asks. */
  lemma {:induction false} SubmitExact(cr: Cr, actor: UserId, policy: Option<Required>)
    ensures var r := SubmitCr(cr, actor, policy);
      && (r.Ok? <==>
            cr.authorId == actor && cr.status == Draft && cr.reviewerId.Some? && |cr.slots| == GetRequired(policy))
      && (r.Ok? ==>
            r.value == cr.(status := Submitted, history := cr.history + [HistoryEntry(Draft, Submitted, actor)]))
  {
  }

  /** Only the reviewer or an active delegate of the reviewer decides, once, and the decision picks the next status. */
  lemma {:induction false} ReviewExact(cr: Cr, actor: UserId, rows: seq<Row>, now: int, decision: Decision)
    ensures var r := ReviewCr(cr, actor, rows, now, decision);
            var next := if decision == Approve then ReviewApproved else ReviewRejected;
      && (r.Ok? <==>
            && cr.status == Submitted && cr.reviewerId.Some?
            && (cr.reviewerId.value == actor
                || exists r :: r in rows && r.delegateId == actor && r.delegatorId == cr.reviewerId.value
                               && r.startsAt <= now < r.endsAt))
      && (r.Ok? ==> r.value == cr.(status := next, history := cr.history + [HistoryEntry(Submitted, next, actor)]))
  {
  }

  // --- refusals: which error, when several would fit -----------------------

  predicate NoReviewer(users: Directory, reviewerId: Field<UserId>) {
    reviewerId.Given? && reviewerId.value != ""
    && (reviewerId.value in users ==> users[reviewerId.value] != Reviewer)
  }

  predicate NamedTwice(approverIds: Field<seq<UserId>>) {
    approverIds.Given?
    && exists i, j :: 0 <= i < j < |approverIds.value| && approverIds.value[i] == approverIds.value[j]
  }

  predicate SomeNoApprover(users: Directory, approverIds: Field<seq<UserId>>) {
    approverIds.Given?
    && exists a :: a in approverIds.value && (a in users ==> users[a] != Approver)
  }

  /** The reviewer is looked at first, then repetitions, then the approvers' roles. */
  lemma {:induction false} AssigneeRefusals(users: Directory, reviewerId: Field<UserId>,
                                            approverIds: Field<seq<UserId>>)
    ensures var e := AssertAssigneeRoles(users, reviewerId, approverIds);
      && (e == Some(ReviewerMustBeReviewerRole) <==> NoReviewer(users, reviewerId))
      && (e == Some(DuplicateApprovers) <==> !NoReviewer(users, reviewerId) && NamedTwice(approverIds))
      && (e == Some(ApproversMustBeApproverRole) <==>
            !NoReviewer(users, reviewerId) && !NamedTwice(approverIds) && SomeNoApprover(users, approverIds))
      && (e.Some? ==> e.value in {ReviewerMustBeReviewerRole, DuplicateApprovers, ApproversMustBeApproverRole})
  {
  }

  /** create() reports the assignees first; an empty reviewer id gets past them and is refused by the store. */
  lemma {:induction false} CreateRefusals(users: Directory, author: UserId, env: Env,
                                          reviewerId: Field<UserId>, approverIds: Field<seq<UserId>>)
    ensures var r := Create(users, author, env, reviewerId, approverIds);
            var e := AssertAssigneeRoles(users, reviewerId, approverIds);
      && (e.Some? ==> r == Err(e.value))
      && (e.None? && r.Err? ==> r.error == ForeignKeyViolation && reviewerId == Given(""))
  {
  }

  /** submit() and review() look at the person first, submit() then at the assignees, and both last at the status. */
  lemma {:induction false} SubmitRefusals(cr: Cr, actor: UserId, policy: Option<Required>)
    ensures var r, required := SubmitCr(cr, actor, policy), if policy == None then 1 else policy.value;
      && (r == Err(SubmitAuthorOnly) <==> actor != cr.authorId)
      && (r == Err(SubmitRequiresAssignees(required)) <==>
            actor == cr.authorId && (cr.reviewerId == None || |cr.slots| != required))
      && (r == Err(BadTransition(IllegalTransition(cr.status, Action.Submit))) <==>
            actor == cr.authorId && cr.reviewerId != None && |cr.slots| == required && cr.status != Draft)
  {
  }

  lemma {:induction false} ReviewRefusals(cr: Cr, actor: UserId, rows: seq<Row>, now: int, decision: Decision)
    ensures var r := ReviewCr(cr, actor, rows, now, decision);
            var action := if decision == Approve then ReviewApprove else ReviewReject;
            var entitled := cr.reviewerId.Some? &&
              (cr.reviewerId.value == actor || cr.reviewerId.value in ActiveDelegatorIds(rows, actor, now));
      && (r == Err(ReviewForbidden) <==> !entitled)
      && (r == Err(BadTransition(IllegalTransition(cr.status, action))) <==> entitled && cr.status != Submitted)
  {
  }

  /** Some open slot belongs to the actor or to somebody the actor stands in for. */
  ghost predicate SomethingOpen(cr: Cr, actor: UserId, delegatorIds: seq<UserId>) {
    exists s :: s in cr.slots && Undecided(s) && (s.userId == actor || s.userId in delegatorIds)
  }

  ghost predicate HasDecided(cr: Cr, actor: UserId) {
    exists s :: s in cr.slots && ((s.userId == actor && !Undecided(s)) || s.decidedById == Some(actor))
  }

  ghost predicate OwnsSlot(cr: Cr, actor: UserId) { exists s :: s in cr.slots && s.userId == actor }

  /** A slot is chosen exactly when something is open; an owner without one has decided. */
  lemma {:induction false} OpenIsChosen(cr: Cr, actor: UserId, ids: seq<UserId>)
    requires OwnersInv(cr.slots)
    ensures var choice := ChooseSlot(cr.slots, actor, ids);
      && (choice.Ok? <==> SomethingOpen(cr, actor, ids))
      && (choice.Ok? ==> (ActedElsewhere(cr.slots, choice.value.slot, actor) <==> HasDecided(cr, actor)))
      && (choice.Err? ==> choice.error == if OwnsSlot(cr, actor) then AlreadyDecided else ApproveForbidden)
  {
  }

  /**
   * approve() looks at the status first. Then, with nothing open, owners hear that they have
   * decided and others that they may not; with something open, whoever has decided once is held back.
   */
  lemma {:induction false} ApproveRefusals(cr: Cr, actor: UserId, ids: seq<UserId>, decision: Decision)
    requires OwnersInv(cr.slots)
    ensures var r := ApproveCr(cr, actor, ids, decision);
      && (r == Err(ApproveInvalidStatus) <==> cr.status != ReviewApproved)
      && (r == Err(AlreadyDecided) <==>
            cr.status == ReviewApproved && !SomethingOpen(cr, actor, ids) && OwnsSlot(cr, actor))
      && (r == Err(ApproveForbidden) <==>
            cr.status == ReviewApproved && !SomethingOpen(cr, actor, ids) && !OwnsSlot(cr, actor))
      && (r == Err(SodViolation) <==>
            cr.status == ReviewApproved && SomethingOpen(cr, actor, ids) && HasDecided(cr, actor))
    {
    if cr.status == ReviewApproved {
      OpenIsChosen(cr, actor, ids);
    }
  }

  /** setAssignees() looks at the person, the assignees' roles, the fields as such, and the number of approvers. */
  lemma {:induction false} SetAssigneesRefusals(cr: Cr, users: Directory, user: UserId, role: Role,
                                                policy: Option<Required>,
                                                reviewerId: Field<UserId>, approverIds: Field<seq<UserId>>)
    ensures var r := SetAssigneesCr(cr, users, user, role, policy, reviewerId, approverIds);
            var e := AssertAssigneeRoles(users, reviewerId, approverIds);
            var required := if policy == None then 1 else policy.value;
            var entitled := role == Admin || (cr.status == Draft && cr.authorId == user);
            var miscounted := cr.status != Draft && approverIds.Given? && |approverIds.value| != required;
      && (r == Err(AssigneesChangeForbidden) <==> !entitled)
      && (entitled && e.Some? ==> r == Err(e.value))
      && (r == Err(ApproverCountMismatch(required)) <==> entitled && e.None? && miscounted)
      && (r == Err(BadBody) <==>
            entitled && e.None? && approverIds == Null && (cr.status != Draft || reviewerId != Given("")))
      && (r == Err(ForeignKeyViolation) <==>
            entitled && e.None? && !miscounted && reviewerId == Given("")
            && !(approverIds == Null && cr.status != Draft))
  {
    AssigneeRefusals(users, reviewerId, approverIds);
  }

  ghost predicate Recorded(cr: Cr, cr': Cr, actor: UserId) {
    && cr'.authorId == cr.authorId && cr'.env == cr.env
    && (cr'.status == cr.status ==> cr'.history == cr.history)
    && (cr'.status != cr.status ==> cr'.history == cr.history + [HistoryEntry(cr.status, cr'.status, actor)])
  }

  lemma {:induction false} ApproveIsRecorded(cr: Cr, actor: UserId, delegatorIds: seq<UserId>, decision: Decision)
    requires ApproveCr(cr, actor, delegatorIds, decision).Ok?
    ensures Recorded(cr, ApproveCr(cr, actor, delegatorIds, decision).value, actor)
  {
  }

  /** Whatever the request: the status moves only with a history entry, which names who moved it. */
  lemma {:induction false} EveryMoveIsRecorded(t: Tracked, ev: Event)
    ensures Recorded(t.cr, Step(t, ev).cr, ev.actor)
  {
    var r := Handle(t.cr, ev);
    if r.Ok? {
      match ev
      case SubmitEv(actor, policy) => SubmitExact(t.cr, actor, policy);
      case ReviewEv(actor, rows, now, decision) => ReviewExact(t.cr, actor, rows, now, decision);
      case ApproveEv(actor, ids, decision) => ApproveIsRecorded(t.cr, actor, ids, decision);
      case AssignEv(_, _, _, _, _, _) =>
      case ApplyEv(_) =>
    }
  }

  // --- delegations in time -------------------------------------------------

  /** Who is looked for matters, not in which order. */
  lemma {:induction false} FindSlotSame(slots: seq<Slot>, owners: seq<UserId>, owners': seq<UserId>, open: bool,
                                        from: nat)
    requires from <= |slots| && forall p :: p in owners <==> p in owners'
    ensures FindSlot(slots, owners, open, from) == FindSlot(slots, owners', open, from)
    decreases |slots| - from
  {
    if from == |slots| {
    } else {
      FindSlotSame(slots, owners, owners', open, from + 1);
    }
  }

  lemma {:induction false} ChoiceSame(slots: seq<Slot>, actor: UserId, ids: seq<UserId>, ids': seq<UserId>)
    requires forall p :: p in ids <==> p in ids'
    ensures ChooseSlot(slots, actor, ids) == ChooseSlot(slots, actor, ids')
  {
    FindSlotSame(slots, ids, ids', true, 0);
  }

  /** A delegation outside its time changes nothing in review() and approve(). */
  lemma {:induction false} OtherTimesChangeNothing(cr: Cr, actor: UserId, rows: seq<Row>, rows': seq<Row>, now: int,
                                                   decision: Decision)
    requires SameCurrent(rows, rows', now)
    ensures ReviewCr(cr, actor, rows, now, decision) == ReviewCr(cr, actor, rows', now, decision)
    ensures ApproveCr(cr, actor, ActiveDelegatorIds(rows, actor, now), decision)
         == ApproveCr(cr, actor, ActiveDelegatorIds(rows', actor, now), decision)
  {
    forall p
      ensures p in ActiveDelegatorIds(rows, actor, now) <==> p in ActiveDelegatorIds(rows', actor, now)
      ensures IsActiveDelegateFor(rows, actor, p, now) <==> IsActiveDelegateFor(rows', actor, p, now)
    {
      OnlyCurrentRowsMatter(rows, rows', now, actor, p);
    }
    ChoiceSame(cr.slots, actor, ActiveDelegatorIds(rows, actor, now), ActiveDelegatorIds(rows', actor, now));
  }

  /** Whoever decides in place of another holds a delegation of that person that has begun and not ended. */
  lemma {:induction false} DelegatesActInTime(cr: Cr, actor: UserId, rows: seq<Row>, now: int, decision: Decision)
    ensures ReviewCr(cr, actor, rows, now, decision).Ok? && cr.reviewerId != Some(actor) ==>
      cr.reviewerId.Some? && exists r ::
        r in rows && r.delegateId == actor && r.delegatorId == cr.reviewerId.value && r.startsAt <= now < r.endsAt
    ensures var done := ApproveCr(cr, actor, ActiveDelegatorIds(rows, actor, now), decision);
      done.Ok? ==> forall k ::
        0 <= k < |cr.slots| && done.value.slots[k] != cr.slots[k] && cr.slots[k].userId != actor ==>
        exists r ::
          r in rows && r.delegateId == actor && r.delegatorId == cr.slots[k].userId && r.startsAt <= now < r.endsAt
  {
    ReviewExact(cr, actor, rows, now, decision);
    var ids := ActiveDelegatorIds(rows, actor, now);
    if ApproveCr(cr, actor, ids, decision).Ok? {
      var Choice(k, onBehalf) := ChooseSlot(cr.slots, actor, ids).value;
      ApproveFills(cr, actor, ids, decision, k, onBehalf);
    }
  }

  // --- the end of an apply -------------------------------------------------

  /** STAGING and PROD requests become APPLIED, from FINAL_APPROVED only; DEV ones stay as they are. */
  lemma {:induction false} FinalizeExact(cr: Cr, actor: UserId)
    ensures cr.env == Dev ==> FinalizeApplyCr(cr, actor) == Ok(cr)
    ensures cr.env in {Staging, Prod} ==>
      FinalizeApplyCr(cr, actor) ==
        if cr.status == FinalApproved
        then Ok(Cr(cr.authorId, cr.env, cr.reviewerId, Applied, cr.slots,
                   cr.history + [HistoryEntry(FinalApproved, Applied, actor)]))
        else Err(BadTransition(IllegalTransition(cr.status, Apply)))
  {
  }
}
