/** Users, and the table of time-boxed delegations between them. */
module Delegation {
  import opened Common

  type UserId = string

  datatype Role = Developer | Reviewer | Approver | Admin

  /** Users by id. Ids are generated, so the empty string is never one of them. */
  type Directory = d: map<UserId, Role> | "" !in d witness map[]

  datatype Row = Row(id: string, delegatorId: UserId, delegateId: UserId, startsAt: int, endsAt: int)

  datatype DelegationError =
    | SelfDelegationForbidden | StartBeforeEnd | SameRoleOnly | NotFound | OwnerOrAdminOnly

  predicate ActiveAt(row: Row, now: int) {
    row.startsAt <= now < row.endsAt
  }

  predicate IsActiveDelegateFor(rows: seq<Row>, delegateId: UserId, delegatorId: UserId, now: int) {
    exists r :: r in rows && r.delegateId == delegateId && r.delegatorId == delegatorId && ActiveAt(r, now)
  }

  /** The people `delegateId` may stand in for at time `now`. */
  function ActiveDelegatorIds(rows: seq<Row>, delegateId: UserId, now: int): (ids: seq<UserId>)
    ensures forall p :: p in ids <==> IsActiveDelegateFor(rows, delegateId, p, now)
    ensures forall p :: p in ids <==>
      exists r :: r in rows && r.delegateId == delegateId && r.delegatorId == p && r.startsAt <= now < r.endsAt
  {
    if rows == [] then []
    else
      var rest := ActiveDelegatorIds(rows[1..], delegateId, now);
      if rows[0].delegateId == delegateId && ActiveAt(rows[0], now)
      then [rows[0].delegatorId] + rest
      else rest
  }

  /** Of the rows that have begun and not ended, both lists hold the same. */
  ghost predicate SameCurrent(rows: seq<Row>, rows': seq<Row>, now: int) {
    forall r: Row :: r.startsAt <= now < r.endsAt ==> (r in rows <==> r in rows')
  }

  /** Rows that have ended or not begun may come and go. */
  lemma {:induction false} OnlyCurrentRowsMatter(rows: seq<Row>, rows': seq<Row>, now: int, delegateId: UserId,
                                                 p: UserId)
    requires SameCurrent(rows, rows', now)
    ensures p in ActiveDelegatorIds(rows, delegateId, now) <==> p in ActiveDelegatorIds(rows', delegateId, now)
    ensures IsActiveDelegateFor(rows, delegateId, p, now) <==> IsActiveDelegateFor(rows', delegateId, p, now)
  {
  }

  /** What every row of the table satisfies: distinct people of one deciding role. */
  ghost predicate WellFormed(rows: seq<Row>, users: Directory) {
    forall r: Row :: r in rows ==>
      && r.delegatorId != r.delegateId
      && r.startsAt < r.endsAt
      && r.delegatorId in users && r.delegateId in users
      && users[r.delegatorId] == users[r.delegateId]
      && users[r.delegatorId] in {Reviewer, Approver}
  }

  /**
   * Short-circuiting everyone but reviewers and approvers to "no delegators"
   * loses nothing, and a delegate always has the role of the person replaced.
   */
  lemma {:induction false} DelegatesShareRole(rows: seq<Row>, users: Directory, delegateId: UserId, now: int)
    requires WellFormed(rows, users)
    ensures forall p :: p in ActiveDelegatorIds(rows, delegateId, now) ==>
      p != delegateId && delegateId in users && p in users && users[p] == users[delegateId] &&
      users[p] in {Reviewer, Approver}
  {
  }

  /** The delegation table and the two requests that change it. */
  class DelegationTable {
    var rows: seq<Row>

    ghost predicate Valid(users: Directory)
      reads this
    {
      WellFormed(rows, users) && forall i, j :: 0 <= i < j < |rows| ==> rows[i].id != rows[j].id
    }

    constructor ()
      ensures rows == []
    {
      rows := [];
    }

    /** Non-admins always delegate for themselves, whatever delegator the body names. */
    method Create(actorId: UserId, actorRole: Role, delegatorId: Option<UserId>, delegateId: UserId,
                  startsAt: int, endsAt: int, newId: string, users: Directory)
      returns (r: Result<Row, DelegationError>)
      requires Valid(users)
      requires forall row :: row in rows ==> row.id != newId
      modifies this
      ensures Valid(users)
      ensures r.Err? ==> rows == old(rows)
      ensures r.Ok? ==> rows == old(rows) + [r.value]
      ensures r.Ok? ==> r.value.delegateId == delegateId && r.value.startsAt == startsAt && r.value.endsAt == endsAt
      ensures r.Ok? && actorRole != Admin ==> r.value.delegatorId == actorId
      ensures r.Ok? && actorRole == Admin && delegatorId.Some? && delegatorId.value != "" ==>
        r.value.delegatorId == delegatorId.value
      ensures var who := if actorRole == Admin && delegatorId.Some? && delegatorId.value != ""
                         then delegatorId.value else actorId;
              r.Ok? <==> && who != delegateId && startsAt < endsAt && who in users && delegateId in users
                         && users[who] == users[delegateId] && users[who] in {Reviewer, Approver}
      ensures var who := if actorRole == Admin && delegatorId.Some? && delegatorId.value != ""
                         then delegatorId.value else actorId;
              r.Err? ==> r.error == if who == delegateId then SelfDelegationForbidden
                                    else if startsAt >= endsAt then StartBeforeEnd else SameRoleOnly
    {
      var who := if actorRole == Admin && delegatorId.Some? && delegatorId.value != ""
                 then delegatorId.value else actorId;
      if who == delegateId {
        return Err(SelfDelegationForbidden);
      }
      if !(startsAt < endsAt) {
        return Err(StartBeforeEnd);
      }
      if who !in users || delegateId !in users || users[who] != users[delegateId]
         || users[who] !in {Reviewer, Approver} {
        return Err(SameRoleOnly);
      }
      var row := Row(newId, who, delegateId, startsAt, endsAt);
      rows := rows + [row];
      r := Ok(row);
    }

    /** Removes exactly the named row, for its delegator or an admin only. */
    method Delete(id: string, actorId: UserId, actorRole: Role, ghost users: Directory)
      returns (r: Result<Row, DelegationError>)
      requires Valid(users)
      modifies this
      ensures Valid(users)
      ensures r.Err? ==> rows == old(rows)
      ensures r.Ok? ==> r.value in old(rows) && r.value.id == id
      ensures r.Ok? ==> actorRole == Admin || r.value.delegatorId == actorId
      ensures r.Ok? ==> forall row :: row in rows <==> row in old(rows) && row.id != id
      ensures r.Err? ==> forall row :: row in old(rows) && row.id == id ==>
        actorRole != Admin && row.delegatorId != actorId
      ensures r.Err? ==>
        r.error == if exists row :: row in old(rows) && row.id == id then OwnerOrAdminOnly else NotFound
    {
      var k := 0;
      while k < |rows| && rows[k].id != id
        invariant 0 <= k <= |rows|
        invariant forall j :: 0 <= j < k ==> rows[j].id != id
      {
        k := k + 1;
      }
      if k == |rows| {
        return Err(NotFound);
      }
      var row := rows[k];
      if actorRole != Admin && row.delegatorId != actorId {
        return Err(OwnerOrAdminOnly);
      }
      rows := rows[..k] + rows[k + 1..];
      r := Ok(row);
    }
  }
}
