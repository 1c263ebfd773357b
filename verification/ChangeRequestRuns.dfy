/** What holds of a change request over every run of workflow requests. */
module ChangeRequestRuns {
  import opened Common
  import opened StateMachine
  import opened Delegation
  import opened ChangeRequest

  /**
   * One request, with everything it reads from outside the change request.
   * Delegations, policy rows and users differ freely from one request to the next.
   */
  datatype Event =
    | SubmitEv(actor: UserId, policy: Option<Required>)
    | ReviewEv(actor: UserId, rows: seq<Row>, now: int, decision: Decision)
    | ApproveEv(actor: UserId, delegatorIds: seq<UserId>, decision: Decision)
    | AssignEv(actor: UserId, role: Role, users: Directory, policy: Option<Required>,
               reviewerId: Field<UserId>, approverIds: Field<seq<UserId>>)
    | ApplyEv(actor: UserId)

  function Handle(cr: Cr, ev: Event): Result<Cr, CrError> {
    match ev
    case SubmitEv(actor, policy) => SubmitCr(cr, actor, policy)
    case ReviewEv(actor, rows, now, decision) => ReviewCr(cr, actor, rows, now, decision)
    case ApproveEv(actor, delegatorIds, decision) => ApproveCr(cr, actor, delegatorIds, decision)
    case AssignEv(actor, role, users, policy, reviewerId, approverIds) =>
      SetAssigneesCr(cr, users, actor, role, policy, reviewerId, approverIds)
    case ApplyEv(actor) => FinalizeApplyCr(cr, actor)
  }

  /**
   * A change request with a record kept beside it, from the requests alone:
   * `acted`: who made each successful approve() since the slots were last set;
   * `checked`: the policy count compared against at the last submit or later reassignment;
   * `reassigned`: the slots were replaced after the final decision.
   */
  datatype Tracked = Tracked(cr: Cr, acted: seq<UserId>, checked: Option<nat>, reassigned: bool)

  predicate FinallyDecided(s: Status) {
    s == FinalApproved || s == FinalRejected || s == Applied
  }

  function Step(t: Tracked, ev: Event): Tracked {
    var r := Handle(t.cr, ev);
    if r.Err? then t // a refused request changes nothing
    else
      match ev
      case SubmitEv(_, policy) => t.(cr := r.value, checked := Some(GetRequired(policy)))
      case ApproveEv(actor, _, _) => t.(cr := r.value, acted := t.acted + [actor])
      case AssignEv(_, _, _, policy, _, Given(_)) =>
        Tracked(r.value, [], if t.cr.status == Draft then None else Some(GetRequired(policy)),
                t.reassigned || FinallyDecided(t.cr.status))
      case _ => t.(cr := r.value)
  }

  function Run(t: Tracked, evs: seq<Event>): Tracked {
    if evs == [] then t else Step(Run(t, evs[..|evs| - 1]), evs[|evs| - 1])
  }

  ghost predicate IsNew(cr: Cr) {
    exists users, author, env, reviewerId, approverIds ::
      Create(users, author, env, reviewerId, approverIds) == Ok(cr)
  }

  lemma {:induction false} RunSnoc(t: Tracked, evs: seq<Event>, ev: Event)
    ensures Run(t, evs + [ev]) == Step(Run(t, evs), ev)
  {
  }

  function Start(cr: Cr): Tracked { Tracked(cr, [], None, false) }

  ghost predicate Reachable(t: Tracked) {
    exists cr0, evs :: IsNew(cr0) && t == Run(Start(cr0), evs)
  }

  // --- counting ------------------------------------------------------------

  lemma {:induction false} CountDecisionBounds(slots: seq<Slot>, d: Decision)
    ensures 0 <= CountDecision(slots, d) <= |slots|
    ensures CountDecision(slots, d) == |slots| <==> forall i :: 0 <= i < |slots| ==> slots[i].decision == Some(d)
    ensures CountDecision(slots, d) == 0 <==> forall i :: 0 <= i < |slots| ==> slots[i].decision != Some(d)
  {
    if slots == [] {
    } else {
      var init := slots[..|slots| - 1];
      CountDecisionBounds(init, d);
      assert forall i :: 0 <= i < |init| ==> slots[i] == init[i];
    }
  }

  lemma {:induction false} CountDecisionUpdate(slots: seq<Slot>, k: nat, s: Slot, d: Decision)
    requires k < |slots|
    ensures CountDecision(slots[k := s], d) ==
      CountDecision(slots, d)
      - (if slots[k].decision == Some(d) then 1 else 0) + (if s.decision == Some(d) then 1 else 0)
  {
    var init := slots[..|slots| - 1];
    var slots' := slots[k := s];
    if k == |slots| - 1 {
      assert slots'[..|slots'| - 1] == init;
    } else {
      CountDecisionUpdate(init, k, s, d);
      assert slots'[..|slots'| - 1] == init[k := s];
    }
  }

  lemma {:induction false} CountUndecidedUpdate(slots: seq<Slot>, k: nat, s: Slot)
    requires k < |slots|
    ensures CountUndecided(slots[k := s]) ==
      CountUndecided(slots) - (if Undecided(slots[k]) then 1 else 0) + (if Undecided(s) then 1 else 0)
  {
    var init := slots[..|slots| - 1];
    var slots' := slots[k := s];
    if k == |slots| - 1 {
      assert slots'[..|slots'| - 1] == init;
    } else {
      CountUndecidedUpdate(init, k, s);
      assert slots'[..|slots'| - 1] == init[k := s];
    }
  }

  lemma {:induction false} CountUndecidedBounds(slots: seq<Slot>)
    ensures CountUndecided(slots) <= |slots|
    ensures CountUndecided(slots) == 0 <==> forall i :: 0 <= i < |slots| ==> !Undecided(slots[i])
    ensures CountUndecided(slots) == |slots| <==> forall i :: 0 <= i < |slots| ==> Undecided(slots[i])
  {
    if slots == [] {
    } else {
      var init := slots[..|slots| - 1];
      CountUndecidedBounds(init);
      assert forall i :: 0 <= i < |init| ==> slots[i] == init[i];
    }
  }

  // --- the invariant -------------------------------------------------------

  /** Each person owns one slot at most, and nobody recorded as a delegate owns any. */
  ghost predicate OwnersInv(slots: seq<Slot>) {
    && (forall i, j :: 0 <= i < j < |slots| ==> slots[i].userId != slots[j].userId)
    && (forall i :: 0 <= i < |slots| && Undecided(slots[i]) ==> slots[i].decidedById.None?)
    && (forall i, j :: 0 <= i < |slots| && 0 <= j < |slots| ==> slots[i].decidedById != Some(slots[j].userId))
  }

  /** The decided slots and the people who called approve() are in one-to-one correspondence. */
  ghost predicate ActorsInv(slots: seq<Slot>, acted: seq<UserId>) {
    && (forall i, j :: 0 <= i < j < |slots| && !Undecided(slots[i]) && !Undecided(slots[j]) ==>
          ActorOf(slots[i]) != ActorOf(slots[j]))
    && (forall i :: 0 <= i < |slots| && !Undecided(slots[i]) ==> ActorOf(slots[i]) in acted)
    && (forall a :: a in acted ==> exists i :: 0 <= i < |slots| && !Undecided(slots[i]) && ActorOf(slots[i]) == a)
    && Distinct(acted)
    && |acted| == |slots| - CountUndecided(slots)
  }

  ghost predicate AllUndecided(slots: seq<Slot>) {
    forall i :: 0 <= i < |slots| ==> slots[i].decision.None? && slots[i].decidedById.None?
  }

  /** What the status says about the decisions, and the reverse. */
  ghost predicate StatusInv(t: Tracked) {
    var slots := t.cr.slots;
    && (t.cr.status in {Draft, Submitted, ReviewRejected} ==> AllUndecided(slots))
    && (t.cr.status == ReviewApproved ==> CountDecision(slots, Reject) == 0 && CountUndecided(slots) > 0)
    && (FinallyDecided(t.cr.status) && t.reassigned ==> AllUndecided(slots))
    && (t.cr.status == FinalRejected && !t.reassigned ==> CountDecision(slots, Reject) == 1)
    && (t.cr.status in {FinalApproved, Applied} && !t.reassigned ==> CountDecision(slots, Approve) == |slots|)
    && (!FinallyDecided(t.cr.status) ==> !t.reassigned)
  }

  ghost predicate PolicyInv(t: Tracked) {
    if t.cr.status == Draft then t.checked.None? else t.checked == Some(|t.cr.slots|) && |t.cr.slots| >= 1
  }

  ghost predicate Inv(t: Tracked) {
    && OwnersInv(t.cr.slots)
    && ActorsInv(t.cr.slots, t.acted)
    && StatusInv(t)
    && PolicyInv(t)
    && Chain(t.cr.history, t.cr.status)
  }

  lemma {:induction false} FreshSlotsInv(owners: seq<UserId>)
    requires Distinct(owners)
    ensures var slots := FreshSlots(owners);
            OwnersInv(slots) && ActorsInv(slots, []) && AllUndecided(slots)
            && CountUndecided(slots) == |slots| && CountDecision(slots, Reject) == 0
  {
    CountUndecidedBounds(FreshSlots(owners));
    CountDecisionBounds(FreshSlots(owners), Reject);
  }

  lemma {:induction false} CreatedIs(cr: Cr) returns (owners: seq<UserId>)
    requires IsNew(cr)
    ensures Distinct(owners) && cr.slots == FreshSlots(owners) && cr.status == Draft && cr.history == []
  {
    var users, author, env, reviewerId, approverIds :|
      Create(users, author, env, reviewerId, approverIds) == Ok(cr);
    owners := if approverIds.Given? then approverIds.value else [];
  }

  lemma {:induction false} StartInv(cr: Cr)
    requires IsNew(cr)
    ensures Inv(Start(cr))
  {
    var owners := CreatedIs(cr);
    FreshSlotsInv(owners);
  }

  lemma {:induction false} TransitionInv(t: Tracked, action: Action, actor: UserId)
    requires Inv(t)
    requires ApplyTransition(t.cr, action, actor).Ok?
    ensures Chain(ApplyTransition(t.cr, action, actor).value.history, ApplyTransition(t.cr, action, actor).value.status)
  {
  }

  lemma {:induction false} SubmitInv(t: Tracked, ev: Event)
    requires Inv(t) && ev.SubmitEv?
    ensures Inv(Step(t, ev))
  {
    if Handle(t.cr, ev).Ok? {
      TransitionInv(t, Action.Submit, ev.actor);
    }
  }

  /** Slots nobody has touched: nothing rejected, everything still open. */
  lemma {:induction false} UntouchedCounts(slots: seq<Slot>)
    requires AllUndecided(slots)
    ensures CountDecision(slots, Reject) == 0 && CountUndecided(slots) == |slots|
  {
    CountUndecidedBounds(slots);
    CountDecisionBounds(slots, Reject);
  }

  lemma {:induction false} ReviewInv(t: Tracked, ev: Event)
    requires Inv(t) && ev.ReviewEv?
    ensures Inv(Step(t, ev))
  {
    if Handle(t.cr, ev).Ok? {
      var action := if ev.decision == Approve then ReviewApprove else ReviewReject;
      var cr' := ApplyTransition(t.cr, action, ev.actor).value;
      TransitionInv(t, action, ev.actor);
      UntouchedCounts(t.cr.slots);
      assert Step(t, ev) == t.(cr := cr');
      assert cr'.slots == t.cr.slots;
    }
  }

  lemma {:induction false} ApplyInv(t: Tracked, ev: Event)
    requires Inv(t) && ev.ApplyEv?
    ensures Inv(Step(t, ev))
  {
    if Handle(t.cr, ev).Ok? && t.cr.env != Dev {
      TransitionInv(t, Apply, ev.actor);
      assert Step(t, ev) == t.(cr := ApplyTransition(t.cr, Apply, ev.actor).value);
    }
  }

  lemma {:induction false} AssignInv(t: Tracked, ev: Event)
    requires Inv(t) && ev.AssignEv?
    ensures Inv(Step(t, ev))
  {
    if Handle(t.cr, ev).Ok? && ev.approverIds.Given? {
      FreshSlotsInv(ev.approverIds.value);
    }
  }

  /** The slot a successful approve() fills, as it was and as it becomes. */
  lemma {:induction false} ChosenSlot(cr: Cr, actor: UserId, delegatorIds: seq<UserId>)
    requires OwnersInv(cr.slots)
    requires ChooseSlot(cr.slots, actor, delegatorIds).Ok?
    ensures var Choice(k, onBehalf) := ChooseSlot(cr.slots, actor, delegatorIds).value;
            && k < |cr.slots| && Undecided(cr.slots[k])
            && (!onBehalf ==> cr.slots[k].userId == actor)
            && (onBehalf ==> cr.slots[k].userId in delegatorIds
                             && forall i :: 0 <= i < |cr.slots| ==>
                                  cr.slots[i].userId == actor ==> !Undecided(cr.slots[i]))
  {
  }

  lemma {:induction false} FillOwners(slots: seq<Slot>, k: nat, actor: UserId, onBehalf: bool, decision: Decision)
    requires OwnersInv(slots) && k < |slots|
    requires onBehalf ==> forall i :: 0 <= i < |slots| ==> slots[i].userId != actor
    ensures OwnersInv(slots[k := Filled(slots[k], actor, onBehalf, decision)])
  {
  }

  /** Nobody who gets past the guard has acted before. */
  lemma {:induction false} NotYetActed(slots: seq<Slot>, acted: seq<UserId>, k: nat, actor: UserId)
    requires ActorsInv(slots, acted) && k < |slots| && Undecided(slots[k]) && !ActedElsewhere(slots, k, actor)
    ensures forall i :: 0 <= i < |slots| && !Undecided(slots[i]) ==> ActorOf(slots[i]) != actor
    ensures actor !in acted
  {
    forall i | 0 <= i < |slots| && !Undecided(slots[i]) ensures ActorOf(slots[i]) != actor {
      assert i != k;
    }
  }

  lemma {:induction false} FillActors(slots: seq<Slot>, acted: seq<UserId>, k: nat, s: Slot)
    requires ActorsInv(slots, acted) && k < |slots| && Undecided(slots[k]) && !Undecided(s)
    requires ActorOf(s) !in acted
    ensures ActorsInv(slots[k := s], acted + [ActorOf(s)])
  {
    var slots' := slots[k := s];
    CountUndecidedUpdate(slots, k, s);
    forall a | a in acted + [ActorOf(s)]
      ensures exists i :: 0 <= i < |slots'| && !Undecided(slots'[i]) && ActorOf(slots'[i]) == a
    {
      if a in acted {
        var i :| 0 <= i < |slots| && !Undecided(slots[i]) && ActorOf(slots[i]) == a;
        assert slots'[i] == slots[i];
      } else {
        assert slots'[k] == s;
      }
    }
  }

  /** Filling an open slot by someone the guard lets through keeps owners and actors apart. */
  lemma {:induction false} FillInv(slots: seq<Slot>, acted: seq<UserId>, k: nat, actor: UserId, onBehalf: bool,
                                   decision: Decision)
    requires OwnersInv(slots) && ActorsInv(slots, acted)
    requires k < |slots| && Undecided(slots[k])
    requires !ActedElsewhere(slots, k, actor)
    requires !onBehalf ==> slots[k].userId == actor
    requires onBehalf ==> forall i :: 0 <= i < |slots| ==> slots[i].userId == actor ==> !Undecided(slots[i])
    ensures var slots' := slots[k := Filled(slots[k], actor, onBehalf, decision)];
            OwnersInv(slots') && ActorsInv(slots', acted + [actor])
  {
    NotYetActed(slots, acted, k, actor);
    FillActors(slots, acted, k, Filled(slots[k], actor, onBehalf, decision));
    forall i | 0 <= i < |slots| ensures onBehalf ==> slots[i].userId != actor {
      assert i == k || !((slots[i].userId == actor && !Undecided(slots[i])) || slots[i].decidedById == Some(actor));
    }
    FillOwners(slots, k, actor, onBehalf, decision);
  }

  /** Without a rejection, every slot approved is the same as no slot open. */
  lemma {:induction false} AllDecided(slots: seq<Slot>)
    requires CountDecision(slots, Reject) == 0
    ensures CountDecision(slots, Approve) == |slots| <==> CountUndecided(slots) == 0
  {
    CountDecisionBounds(slots, Approve);
    CountDecisionBounds(slots, Reject);
    CountUndecidedBounds(slots);
    if CountUndecided(slots) == 0 {
      forall i | 0 <= i < |slots| ensures slots[i].decision == Some(Approve) {
        assert !Undecided(slots[i]) && slots[i].decision != Some(Reject);
        assert slots[i].decision.value == Approve;
      }
    }
  }

  /** Counts after one more decision, and what they say about the next status. */
  lemma {:induction false} FilledCounts(slots: seq<Slot>, k: nat, s: Slot)
    requires k < |slots| && Undecided(slots[k]) && !Undecided(s)
    requires CountDecision(slots, Reject) == 0
    ensures var slots' := slots[k := s];
      && (s.decision == Some(Reject) ==> CountDecision(slots', Reject) == 1)
      && (s.decision == Some(Approve) ==> CountDecision(slots', Reject) == 0)
      && (s.decision == Some(Approve) ==>
            (CountDecision(slots', Approve) == |slots'| <==> CountUndecided(slots') == 0))
      && CountUndecided(slots') == CountUndecided(slots) - 1
  {
    CountDecisionUpdate(slots, k, s, Reject);
    CountUndecidedUpdate(slots, k, s);
    if s.decision == Some(Approve) {
      AllDecided(slots[k := s]);
    }
  }

  /** A successful approve(), spelled out: one slot filled, then perhaps one transition. */
  lemma {:induction false} ApproveSteps(cr: Cr, actor: UserId, delegatorIds: seq<UserId>, decision: Decision)
    requires ApproveCr(cr, actor, delegatorIds, decision).Ok?
    requires CountDecision(cr.slots, Reject) == 0
    ensures ChooseSlot(cr.slots, actor, delegatorIds).Ok?
    ensures var Choice(k, onBehalf) := ChooseSlot(cr.slots, actor, delegatorIds).value;
            var s := Filled(cr.slots[k], actor, onBehalf, decision);
            var cr' := ApproveCr(cr, actor, delegatorIds, decision).value;
            && !ActedElsewhere(cr.slots, k, actor)
            && cr'.slots == cr.slots[k := s]
            && cr'.status == (if decision == Reject then FinalRejected
                              else if CountUndecided(cr.slots) == 1 then FinalApproved else ReviewApproved)
            && cr'.history == (if cr'.status == ReviewApproved then cr.history
                               else cr.history + [HistoryEntry(ReviewApproved, cr'.status, actor)])
            && cr' == cr.(slots := cr'.slots, status := cr'.status, history := cr'.history)
  {
    var Choice(k, onBehalf) := ChooseSlot(cr.slots, actor, delegatorIds).value;
    FilledCounts(cr.slots, k, Filled(cr.slots[k], actor, onBehalf, decision));
  }

  /** What the status says after one more decision. */
  lemma {:induction false} ApproveStatus(t: Tracked, t': Tracked, k: nat, s: Slot)
    requires StatusInv(t) && PolicyInv(t) && t.cr.status == ReviewApproved
    requires k < |t.cr.slots| && Undecided(t.cr.slots[k]) && s.decision.Some?
    requires t'.cr.slots == t.cr.slots[k := s] && t'.checked == t.checked && t'.reassigned == t.reassigned
    requires t'.cr.status == (if s.decision == Some(Reject) then FinalRejected
                              else if CountUndecided(t.cr.slots) == 1 then FinalApproved else ReviewApproved)
    ensures StatusInv(t') && PolicyInv(t')
  {
    FilledCounts(t.cr.slots, k, s);
    assert s.decision.value == Approve || s.decision.value == Reject;
    CountUndecidedBounds(t'.cr.slots);
  }

  lemma {:induction false} ApproveInv(t: Tracked, ev: Event)
    requires Inv(t) && ev.ApproveEv?
    ensures Inv(Step(t, ev))
  {
    var cr := t.cr;
    if Handle(cr, ev).Ok? {
      ApproveSteps(cr, ev.actor, ev.delegatorIds, ev.decision);
      ChosenSlot(cr, ev.actor, ev.delegatorIds);
      var Choice(k, onBehalf) := ChooseSlot(cr.slots, ev.actor, ev.delegatorIds).value;
      FillInv(cr.slots, t.acted, k, ev.actor, onBehalf, ev.decision);
      var t' := Step(t, ev);
      assert t'.acted == t.acted + [ev.actor];
      ApproveStatus(t, t', k, Filled(cr.slots[k], ev.actor, onBehalf, ev.decision));
      if t'.cr.status != ReviewApproved {
        ChainExtends(cr.history, cr.status, if ev.decision == Reject then FinalReject else FinalApprove, ev.actor);
      }
      assert OwnersInv(t'.cr.slots) && ActorsInv(t'.cr.slots, t'.acted);
      assert Chain(t'.cr.history, t'.cr.status);
    }
  }

  lemma {:induction false} StepInv(t: Tracked, ev: Event)
    requires Inv(t)
    ensures Inv(Step(t, ev))
  {
    match ev
    case SubmitEv(_, _) => SubmitInv(t, ev);
    case ReviewEv(_, _, _, _) => ReviewInv(t, ev);
    case ApproveEv(_, _, _) => ApproveInv(t, ev);
    case AssignEv(_, _, _, _, _, _) => AssignInv(t, ev);
    case ApplyEv(_) => ApplyInv(t, ev);
  }

  lemma {:induction false} RunInv(t: Tracked, evs: seq<Event>)
    requires Inv(t)
    ensures Inv(Run(t, evs))
  {
    if evs == [] {
    } else {
      RunInv(t, evs[..|evs| - 1]);
      StepInv(Run(t, evs[..|evs| - 1]), evs[|evs| - 1]);
    }
  }

  /** The invariant holds in every state any run can reach. */
  lemma {:induction false} ReachableInv(t: Tracked)
    requires Reachable(t)
    ensures Inv(t)
  {
    var cr0, evs :| IsNew(cr0) && t == Run(Start(cr0), evs);
    StartInv(cr0);
    RunInv(Start(cr0), evs);
  }
}
