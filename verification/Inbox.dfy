/** The read side: what a user is shown, and that it agrees with what the write side accepts. */
module Inbox {
  import opened Common
  import opened StateMachine
  import opened Delegation
  import opened ChangeRequest
  import opened ChangeRequestRuns
  import opened ChangeRequestTheorems

  datatype AuthUser = AuthUser(userId: UserId, role: Role)

  function DelegatorIdsFor(user: AuthUser, rows: seq<Row>, now: int): seq<UserId> {
    if user.role != Reviewer && user.role != Approver then [] else ActiveDelegatorIds(rows, user.userId, now)
  }

  function ReviewerKey(cr: Cr): UserId {
    if cr.reviewerId.Some? then cr.reviewerId.value else ""
  }

  predicate Visible(user: AuthUser, delegatorIds: seq<UserId>, cr: Cr) {
    match user.role
    case Developer => cr.authorId == user.userId
    case Reviewer =>
      cr.status != Draft && cr.reviewerId.Some?
      && (cr.reviewerId.value == user.userId || cr.reviewerId.value in delegatorIds)
    case Approver =>
      cr.status != Draft
      && exists s :: s in cr.slots && (s.userId == user.userId || s.userId in delegatorIds)
    case Admin => false
  }

  predicate MyApprovalPending(cr: Cr, userId: UserId, delegatorIds: seq<UserId>) {
    cr.status == ReviewApproved
    && exists s :: s in cr.slots && (s.userId == userId || s.userId in delegatorIds) && Undecided(s)
  }

  predicate AlreadyActed(slots: seq<Slot>, userId: UserId) {
    || (exists s :: s in slots && s.userId == userId && !Undecided(s))
    || (exists s :: s in slots && s.decidedById == Some(userId))
  }

  /** Name of the person a user would stand in for, or none when the item is the user's own. */
  function DelegatedFrom(cr: Cr, userId: UserId, delegatorIds: seq<UserId>, nameOf: UserId -> string): Option<string> {
    if delegatorIds == [] then None
    else if cr.status == Submitted then
      if ReviewerKey(cr) in delegatorIds && cr.reviewerId.Some? then Some(nameOf(cr.reviewerId.value)) else None
    else if cr.status == ReviewApproved then
      if exists s :: s in cr.slots && s.userId == userId && Undecided(s) then None
      else
        var k := FindSlot(cr.slots, delegatorIds, true, 0);
        if k < |cr.slots| then Some(nameOf(cr.slots[k].userId)) else None
    else None
  }

  /** The inbox test for one request. */
  predicate InInbox(user: AuthUser, rows: seq<Row>, now: int, cr: Cr) {
    && (user.role == Reviewer || user.role == Approver)
    && var delegatorIds := DelegatorIdsFor(user, rows, now);
    && Visible(user, delegatorIds, cr)
    && if user.role == Reviewer then cr.status == Submitted
       else MyApprovalPending(cr, user.userId, delegatorIds) && !AlreadyActed(cr.slots, user.userId)
  }

  predicate CanActAsDelegate(cr: Cr, userId: UserId, delegatorIds: seq<UserId>) {
    && !AlreadyActed(cr.slots, userId)
    && (|| (cr.status == Submitted && delegatorIds != [] && ReviewerKey(cr) in delegatorIds)
        || (cr.status == ReviewApproved && exists s :: s in cr.slots && s.userId in delegatorIds && Undecided(s)))
  }

  lemma {:induction false} FillableIsPending(cr: Cr, userId: UserId, ids: seq<UserId>, k: nat)
    requires OwnersInv(cr.slots) && MayFill(cr, userId, ids, k)
    ensures MyApprovalPending(cr, userId, ids) && !AlreadyActed(cr.slots, userId)
    ensures exists s :: s in cr.slots && (s.userId == userId || s.userId in ids)
  {
  }

  lemma {:induction false} PendingMayFill(cr: Cr, userId: UserId, ids: seq<UserId>) returns (k: nat)
    requires OwnersInv(cr.slots)
    requires MyApprovalPending(cr, userId, ids) && !AlreadyActed(cr.slots, userId)
    ensures MayFill(cr, userId, ids, k)
  {
    forall i | 0 <= i < |cr.slots| && !Undecided(cr.slots[i])
      ensures cr.slots[i].userId != userId && cr.slots[i].decidedById != Some(userId)
    {
      assert cr.slots[i] in cr.slots;
    }
    var own := FindSlot(cr.slots, [userId], true, 0);
    if own < |cr.slots| {
      k := own;
    } else {
      k := FindSlot(cr.slots, ids, true, 0);
      var s :| s in cr.slots && (s.userId == userId || s.userId in ids) && Undecided(s);
      var i :| 0 <= i < |cr.slots| && cr.slots[i] == s;
    }
  }

  lemma {:induction false} AcceptedExactly(cr: Cr, userId: UserId, ids: seq<UserId>, decision: Decision)
    requires OwnersInv(cr.slots)
    ensures ApproveCr(cr, userId, ids, decision).Ok? <==>
      MyApprovalPending(cr, userId, ids) && !AlreadyActed(cr.slots, userId)
  {
    ApproveExact(cr, userId, ids, decision);
    if ApproveCr(cr, userId, ids, decision).Ok? {
      var k: nat :| MayFill(cr, userId, ids, k);
      FillableIsPending(cr, userId, ids, k);
    }
    if MyApprovalPending(cr, userId, ids) && !AlreadyActed(cr.slots, userId) {
      var k := PendingMayFill(cr, userId, ids);
    }
  }

  /** An approver's inbox holds exactly the requests approve() would accept from that approver now. */
  lemma {:induction false} ApproverInboxExact(t: Tracked, user: AuthUser, rows: seq<Row>, now: int, decision: Decision)
    requires Reachable(t) && user.role == Approver
    ensures InInbox(user, rows, now, t.cr) <==>
      ApproveCr(t.cr, user.userId, ActiveDelegatorIds(rows, user.userId, now), decision).Ok?
  {
    ReachableInv(t);
    AcceptedExactly(t.cr, user.userId, ActiveDelegatorIds(rows, user.userId, now), decision);
  }

  /** A reviewer's inbox holds exactly the requests review() would accept from that reviewer now. */
  lemma {:induction false} ReviewerInboxExact(cr: Cr, user: AuthUser, rows: seq<Row>, now: int, decision: Decision)
    requires user.role == Reviewer
    ensures InInbox(user, rows, now, cr) <==> ReviewCr(cr, user.userId, rows, now, decision).Ok?
  {
  }

  /** The user, or someone the user stands in for at this moment. */
  ghost predicate ActsFor(user: AuthUser, rows: seq<Row>, now: int, p: UserId) {
    p == user.userId ||
    exists r :: r in rows && r.delegateId == user.userId && r.delegatorId == p && r.startsAt <= now < r.endsAt
  }

  /**
   * Who sees a request: its author as a developer; past DRAFT its reviewer, its approvers and,
   * while a delegation lasts, reviewers and approvers who stand in for them; administrators never.
   */
  lemma {:induction false} SeenExactly(user: AuthUser, rows: seq<Row>, now: int, cr: Cr)
    ensures Visible(user, DelegatorIdsFor(user, rows, now), cr) <==>
      || (user.role == Developer && user.userId == cr.authorId)
      || (user.role == Reviewer && cr.status != Draft
          && cr.reviewerId.Some? && ActsFor(user, rows, now, cr.reviewerId.value))
      || (user.role == Approver && cr.status != Draft
          && exists s :: s in cr.slots && ActsFor(user, rows, now, s.userId))
  {
  }

  /** Nothing is decided unseen: a reviewer or approver whose decision is accepted sees the request. */
  lemma {:induction false} DecidersSee(t: Tracked, user: AuthUser, rows: seq<Row>, now: int, decision: Decision)
    requires Reachable(t)
    ensures user.role == Reviewer && ReviewCr(t.cr, user.userId, rows, now, decision).Ok? ==>
      Visible(user, DelegatorIdsFor(user, rows, now), t.cr)
    ensures user.role == Approver &&
            ApproveCr(t.cr, user.userId, ActiveDelegatorIds(rows, user.userId, now), decision).Ok? ==>
      Visible(user, DelegatorIdsFor(user, rows, now), t.cr)
  {
    if user.role == Reviewer {
      ReviewerInboxExact(t.cr, user, rows, now, decision);
    } else if user.role == Approver {
      ApproverInboxExact(t, user, rows, now, decision);
    }
  }

  /** Delegations outside their time change nobody's inbox. */
  lemma {:induction false} OtherTimesChangeNoInbox(user: AuthUser, rows: seq<Row>, rows': seq<Row>, now: int, cr: Cr)
    requires SameCurrent(rows, rows', now)
    ensures InInbox(user, rows, now, cr) <==> InInbox(user, rows', now, cr)
  {
    forall p ensures p in DelegatorIdsFor(user, rows, now) <==> p in DelegatorIdsFor(user, rows', now) {
      OnlyCurrentRowsMatter(rows, rows', now, user.userId, p);
    }
  }

  /** Developers and admins have an empty inbox. */
  lemma {:induction false} OthersHaveNoInbox(user: AuthUser, rows: seq<Row>, now: int, cr: Cr)
    requires user.role in {Developer, Admin}
    ensures !InInbox(user, rows, now, cr)
  {
  }

  /** Everyone else's inbox is empty, and loses nothing: they own no slot and stand in for nobody. */
  lemma {:induction false} OthersHaveNoDelegators(user: AuthUser, rows: seq<Row>, users: Directory, now: int)
    requires WellFormed(rows, users)
    requires user.userId in users && users[user.userId] == user.role
    ensures DelegatorIdsFor(user, rows, now) == ActiveDelegatorIds(rows, user.userId, now)
  {
    DelegatesShareRole(rows, users, user.userId, now);
    var ids := ActiveDelegatorIds(rows, user.userId, now);
    if ids != [] {
      assert ids[0] in ids;
    }
  }

  /** Whoever has something pending and has not acted gets past the guard, and is shown the slot it chose. */
  lemma {:induction false} PendingChoice(cr: Cr, userId: UserId, ids: seq<UserId>, nameOf: UserId -> string)
    requires MyApprovalPending(cr, userId, ids) && !AlreadyActed(cr.slots, userId)
    ensures ChooseSlot(cr.slots, userId, ids).Ok?
    ensures var Choice(k, onBehalf) := ChooseSlot(cr.slots, userId, ids).value;
      && !ActedElsewhere(cr.slots, k, userId)
      && (!onBehalf ==> cr.slots[k].userId == userId)
      && DelegatedFrom(cr, userId, ids, nameOf) == if onBehalf then Some(nameOf(cr.slots[k].userId)) else None
  {
  }

  /**
   * On an item of an approver's inbox, `delegatedFrom` is empty exactly when approve()
   * would record a direct decision; otherwise it names the owner of the slot it would fill.
   */
  lemma {:induction false} DelegatedFromExact(cr: Cr, user: AuthUser, rows: seq<Row>, now: int,
                                              decision: Decision, nameOf: UserId -> string)
    requires user.role == Approver && InInbox(user, rows, now, cr)
    ensures var ids := DelegatorIdsFor(user, rows, now);
            var from := DelegatedFrom(cr, user.userId, ids, nameOf);
            var r := ApproveCr(cr, user.userId, ids, decision);
      && r.Ok?
      && exists k :: && 0 <= k < |cr.slots|
                     && r.value.slots == cr.slots[k := r.value.slots[k]]
                     && Undecided(cr.slots[k]) && r.value.slots[k].decision == Some(decision)
                     && (from.None? <==> r.value.slots[k].decidedById.None?)
                     && (from.None? ==> cr.slots[k].userId == user.userId)
                     && (from.Some? ==> from.value == nameOf(cr.slots[k].userId)
                                        && r.value.slots[k].decidedById == Some(user.userId))
  {
    var ids := DelegatorIdsFor(user, rows, now);
    PendingChoice(cr, user.userId, ids, nameOf);
    var Choice(k, onBehalf) := ChooseSlot(cr.slots, user.userId, ids).value;
    ApproveFills(cr, user.userId, ids, decision, k, onBehalf);
    assert cr.slots[k := Filled(cr.slots[k], user.userId, onBehalf, decision)][k]
        == Filled(cr.slots[k], user.userId, onBehalf, decision);
  }

  /** The same for reviewers: it rests on nobody delegating to themselves. */
  lemma {:induction false} ReviewerDelegatedFromExact(cr: Cr, user: AuthUser, rows: seq<Row>, users: Directory,
                                                      now: int, nameOf: UserId -> string)
    requires user.role == Reviewer && WellFormed(rows, users)
    requires InInbox(user, rows, now, cr)
    ensures var from := DelegatedFrom(cr, user.userId, DelegatorIdsFor(user, rows, now), nameOf);
      && cr.reviewerId.Some?
      && (from.None? <==> cr.reviewerId.value == user.userId)
      && (from.Some? ==> from.value == nameOf(cr.reviewerId.value))
  {
  }

  /** approve() would fill somebody else's slot. */
  ghost predicate WouldDelegate(cr: Cr, userId: UserId, ids: seq<UserId>, decision: Decision) {
    var r := ApproveCr(cr, userId, ids, decision);
    r.Ok? && exists k :: 0 <= k < |cr.slots| && Undecided(cr.slots[k])
                         && r.value.slots[k].decidedById == Some(userId)
  }

  lemma {:induction false} FlagMeansDelegated(cr: Cr, userId: UserId, ids: seq<UserId>, decision: Decision)
    requires OwnersInv(cr.slots) && cr.status == ReviewApproved
    requires CanActAsDelegate(cr, userId, ids) && !OwnsOpenSlot(cr, userId)
    ensures WouldDelegate(cr, userId, ids, decision)
  {
    ApproveExact(cr, userId, ids, decision);
    var s :| s in cr.slots && s.userId in ids && Undecided(s);
    assert MyApprovalPending(cr, userId, ids);
    var k := PendingMayFill(cr, userId, ids);
    assert cr.slots[k].userId != userId;
    assert ApproveCr(cr, userId, ids, decision).value.slots[k].decidedById == Some(userId);
  }

  lemma {:induction false} DelegatedMeansFlag(cr: Cr, userId: UserId, ids: seq<UserId>, decision: Decision)
    requires OwnersInv(cr.slots) && cr.status == ReviewApproved
    requires WouldDelegate(cr, userId, ids, decision)
    ensures CanActAsDelegate(cr, userId, ids) && !OwnsOpenSlot(cr, userId)
  {
    ApproveExact(cr, userId, ids, decision);
    var k: nat :| MayFill(cr, userId, ids, k);
    FillableIsPending(cr, userId, ids, k);
    assert cr.slots[k] in cr.slots;
    assert cr.slots[k].userId != userId;
  }

  /**
   * The detail view's `canActAsDelegate` flag is not the same test: it also holds for an
   * approver with an open slot of their own. An approval then fills that own slot, so
   * approve() records a delegated decision exactly when the flag holds and no own slot is open.
   */
  lemma {:induction false} CanActAsDelegateExact(t: Tracked, userId: UserId, ids: seq<UserId>, decision: Decision)
    requires Reachable(t) && t.cr.status == ReviewApproved
    ensures CanActAsDelegate(t.cr, userId, ids) && !OwnsOpenSlot(t.cr, userId)
       <==> WouldDelegate(t.cr, userId, ids, decision)
  {
    ReachableInv(t);
    if CanActAsDelegate(t.cr, userId, ids) && !OwnsOpenSlot(t.cr, userId) {
      FlagMeansDelegated(t.cr, userId, ids, decision);
    }
    if WouldDelegate(t.cr, userId, ids, decision) {
      DelegatedMeansFlag(t.cr, userId, ids, decision);
    }
  }

  /**
   * In SUBMITTED the flag is exact, nobody delegating to themselves: it holds for those who may
   * review in somebody else's place. In every other status but REVIEW_APPROVED it is off, and so is the name.
   */
  lemma {:induction false} ReviewFlagExact(t: Tracked, userId: UserId, rows: seq<Row>, users: Directory, now: int,
                                           decision: Decision, nameOf: UserId -> string)
    requires Reachable(t) && WellFormed(rows, users)
    ensures var ids := ActiveDelegatorIds(rows, userId, now);
      && (t.cr.status == Submitted ==>
            (CanActAsDelegate(t.cr, userId, ids) <==>
             ReviewCr(t.cr, userId, rows, now, decision).Ok? && t.cr.reviewerId != Some(userId)))
      && (t.cr.status !in {Submitted, ReviewApproved} ==>
            !CanActAsDelegate(t.cr, userId, ids) && DelegatedFrom(t.cr, userId, ids, nameOf) == None)
  {
    ReachableInv(t);
    DelegatesShareRole(rows, users, userId, now);
    var ids := ActiveDelegatorIds(rows, userId, now);
    if t.cr.status == Submitted {
      forall s | s in t.cr.slots ensures Undecided(s) && s.decidedById.None? {
        var k :| 0 <= k < |t.cr.slots| && t.cr.slots[k] == s;
      }
      ReviewExact(t.cr, userId, rows, now, decision);
    }
  }

  function Waiting(): Cr {
    Cr("dev", Prod, Some("rev"), ReviewApproved, [Slot("A", None, None), Slot("B", None, None)],
       [HistoryEntry(Draft, Submitted, "dev"), HistoryEntry(Submitted, ReviewApproved, "rev")])
  }

  /** Created by "dev" for reviewer "rev" and approvers "A" and "B", submitted, reviewed. */
  lemma {:induction false} WaitingIsReachable()
    ensures Reachable(Tracked(Waiting(), [], Some(2), false))
  {
    var cr0 := Waiting().(status := Draft, history := []);
    MayBeNew("dev", Prod, "rev", ["A", "B"]);
    assert FreshSlots(["A", "B"]) == cr0.slots;
    var submit, review := SubmitEv("dev", Some(2)), ReviewEv("rev", [], 0, Approve);
    var submitted := cr0.(status := Submitted, history := cr0.history + [HistoryEntry(Draft, Submitted, "dev")]);
    assert Handle(cr0, submit) == Ok(submitted);
    assert submitted.history + [HistoryEntry(Submitted, ReviewApproved, "rev")] == Waiting().history;
    assert Handle(submitted, review) == Ok(Waiting());
    TwoSteps(cr0, submit, review);
  }

  lemma {:induction false} WaitingFlag()
    ensures CanActAsDelegate(Waiting(), "A", ["B"])
  {
    assert Waiting().slots[1] in Waiting().slots;
  }

  lemma {:induction false} WaitingFills()
    ensures var r := ApproveCr(Waiting(), "A", ["B"], Approve);
      r.Ok? && r.value.slots == [Slot("A", Some(Approve), None), Slot("B", None, None)]
  {
    var slots := Waiting().slots;
    OwnerIsChosen(slots, 0, ["B"]);
    ApproveFills(Waiting(), "A", ["B"], Approve, 0, false);
    assert slots[0 := Slot("A", Some(Approve), None)] == [Slot("A", Some(Approve), None), Slot("B", None, None)];
  }

  /** Where the flag and approve() part, in a reachable state: delegate of B, with an own slot open as well. */
  lemma {:induction false} CanActAsDelegateOverstates()
    ensures Reachable(Tracked(Waiting(), [], Some(2), false))
    ensures CanActAsDelegate(Waiting(), "A", ["B"])
    ensures var r := ApproveCr(Waiting(), "A", ["B"], Approve);
      r.Ok? && r.value.slots == [Slot("A", Some(Approve), None), Slot("B", None, None)]
  {
    WaitingIsReachable();
    WaitingFlag();
    WaitingFills();
  }
}
