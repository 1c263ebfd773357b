/** The change-request life cycle: a constant transition table and one lookup. */
module StateMachine {
  import opened Common

  datatype Status =
    | Draft | Submitted | ReviewApproved | ReviewRejected
    | FinalApproved | FinalRejected | Applied

  datatype Action = Submit | ReviewApprove | ReviewReject | FinalApprove | FinalReject | Apply

  datatype Transition = Transition(from: Status, to: Status)

  function TransitionOf(action: Action): Transition {
    match action
    case Submit => Transition(Draft, Submitted)
    case ReviewApprove => Transition(Submitted, ReviewApproved)
    case ReviewReject => Transition(Submitted, ReviewRejected)
    case FinalApprove => Transition(ReviewApproved, FinalApproved)
    case FinalReject => Transition(ReviewApproved, FinalRejected)
    case Apply => Transition(FinalApproved, Applied)
  }

  const TERMINAL_STATUSES: set<Status> := {ReviewRejected, FinalRejected, Applied}

  datatype TransitionError = IllegalTransition(current: Status, action: Action)

  function GetNextStatus(current: Status, action: Action): Result<Status, TransitionError> {
    var t := TransitionOf(action);
    if t.from != current then Err(IllegalTransition(current, action)) else Ok(t.to)
  }

  datatype HistoryEntry = HistoryEntry(from: Status, to: Status, actorId: string)

  /** The history reads as one path of the state machine from DRAFT to `status`. */
  ghost predicate Chain(history: seq<HistoryEntry>, status: Status) {
    if history == [] then status == Draft
    else
      var last := history[|history| - 1];
      && last.to == status
      && (exists action :: TransitionOf(action) == Transition(last.from, last.to))
      && Chain(history[..|history| - 1], last.from)
  }

  /** Distance from DRAFT; every transition climbs by exactly one. */
  function Rank(s: Status): nat {
    match s
    case Draft => 0
    case Submitted => 1
    case ReviewApproved => 2
    case ReviewRejected => 2
    case FinalApproved => 3
    case FinalRejected => 3
    case Applied => 4
  }

  /** Appending a legal transition keeps the history a path. */
  lemma {:induction false} ChainExtends(history: seq<HistoryEntry>, status: Status, action: Action, actor: string)
    requires Chain(history, status)
    requires GetNextStatus(status, action).Ok?
    ensures var to := GetNextStatus(status, action).value;
            Chain(history + [HistoryEntry(status, to, actor)], to)
  {
  }

  /** The length of a path is the rank of where it ends, so it is at most four. */
  lemma {:induction false} ChainLength(history: seq<HistoryEntry>, status: Status)
    requires Chain(history, status)
    ensures |history| == Rank(status) <= 4
    decreases |history|
  {
    if history == [] {
    } else {
      ChainLength(history[..|history| - 1], history[|history| - 1].from);
    }
  }

  /** Entry by entry: it starts at DRAFT and every `from` is the `to` before it. */
  lemma {:induction false} ChainLinks(history: seq<HistoryEntry>, status: Status)
    requires Chain(history, status)
    ensures |history| > 0 ==> history[0].from == Draft && history[|history| - 1].to == status
    ensures forall i :: 0 < i < |history| ==> history[i].from == history[i - 1].to
    ensures forall i :: 0 <= i < |history| ==>
      exists action :: TransitionOf(action) == Transition(history[i].from, history[i].to)
    decreases |history|
  {
    if history == [] {
    } else {
      var init := history[..|history| - 1];
      ChainLinks(init, history[|history| - 1].from);
      assert forall i :: 0 <= i < |init| ==> history[i] == init[i];
    }
  }

  /** A status is terminal exactly when no action leaves it. */
  lemma {:induction false} TerminalMeansStuck(s: Status)
    ensures s in TERMINAL_STATUSES <==> forall action :: GetNextStatus(s, action).Err?
  {
    match s
    case Draft => assert GetNextStatus(s, Submit).Ok?;
    case Submitted => assert GetNextStatus(s, ReviewApprove).Ok?;
    case ReviewApproved => assert GetNextStatus(s, FinalApprove).Ok?;
    case FinalApproved => assert GetNextStatus(s, Apply).Ok?;
    case _ =>
  }

  /** A path that reached FINAL_APPROVED or beyond went through every approval stage. */
  lemma {:induction false} FinalApprovedPassedAllStages(history: seq<HistoryEntry>, status: Status)
    requires Chain(history, status)
    requires status == FinalApproved || status == Applied
    ensures |history| >= 3
    ensures history[0].to == Submitted && history[1].to == ReviewApproved && history[2].to == FinalApproved
  {
    ChainLength(history, status);
    ChainLinks(history, status);
  }
}
