/**
 * The admin actions that approve or reject a selection of leave requests
 * (core/admin.py). Each selected leave not yet in the target status gets, in this
 * order: on approval, an UPDATE of its balance row; an explicit LeaveLog row
 * attributed to the admin; its new status, saved through Model.save(), whose
 * pre_save receiver appends a second LeaveLog row for the same change, attributed
 * to whoever the current-user slot holds.
 *
 * The ORM calls of the approve action name fields the LeaveBalance model does not
 * have (`employee=` for `user`, `balance` for `remaining`); the model keys the
 * UPDATE on `user` and `leave_type` and updates `remaining`, as evidently meant.
 */
module Admin {
  import opened Wrappers
  import opened Models
  import opened Store
  import opened Signals

  datatype Action = Approve | Reject

  /** The status an action sets. */
  function Target(a: Action): string
  {
    match a
    case Approve => APPROVED
    case Reject => REJECTED
  }

  /** The three tables an admin action touches. */
  datatype Tables = Tables(leaves: map<LeaveId, LeaveRequest>, logs: seq<LeaveLog>, balances: map<BalanceKey, nat>)

  /**
   * The tables after an action, and whether it ran through the whole selection; it stops
   * early when the database refuses a balance UPDATE.
   */
  datatype Run = Run(tables: Tables, completed: bool)

  /** The selection an admin queryset yields: existing leaves, each at most once. */
  ghost predicate Selectable(leaves: map<LeaveId, LeaveRequest>, selection: seq<LeaveId>)
  {
    && (forall i :: 0 <= i < |selection| ==> selection[i] in leaves)
    && (forall i, j :: 0 <= i < j < |selection| ==> selection[i] != selection[j])
  }

  /** The LeaveBalance row a leave draws on; a leave without a type matches no row. */
  function BalanceKeyOf(leave: LeaveRequest): Option<BalanceKey>
  {
    match leave.leaveType
    case None => None
    case Some(t) => Some(BalanceKey(leave.employee, t))
  }

  /**
   * The new `remaining` as the approve action computes it:
   * F('remaining') - (end - start).days + 1 parses as (remaining - (end - start)) + 1.
   */
  function RemainingAfterApproval(remaining: int, start: Date, end: Date): (r: int)
    ensures r < remaining <==> start + 1 < end
    ensures r == remaining <==> end == start + 1
  {
    remaining - (end - start) + 1
  }

  /**
   * The balance UPDATE of the approve action. It changes at most the one row keyed by the
   * leave's (user, leave_type); with no such row it changes nothing and approval goes on.
   * None: the new value would be negative, which the PositiveIntegerField's check
   * constraint refuses with an IntegrityError that the action does not catch.
   */
  function ApprovalBalances(balances: map<BalanceKey, nat>, leave: LeaveRequest): (r: Option<map<BalanceKey, nat>>)
    ensures r.None? <==>
              BalanceKeyOf(leave).Some? && BalanceKeyOf(leave).value in balances
              && RemainingAfterApproval(balances[BalanceKeyOf(leave).value], leave.startDate, leave.endDate) < 0
    ensures BalanceKeyOf(leave).None? || BalanceKeyOf(leave).value !in balances ==> r == Some(balances)
    ensures r.Some? ==> r.value.Keys == balances.Keys
    ensures r.Some? ==> forall k :: k in balances && Some(k) != BalanceKeyOf(leave) ==> r.value[k] == balances[k]
    ensures r.Some? && BalanceKeyOf(leave).Some? && BalanceKeyOf(leave).value in balances ==>
              r.value[BalanceKeyOf(leave).value]
              == RemainingAfterApproval(balances[BalanceKeyOf(leave).value], leave.startDate, leave.endDate)
  {
    match BalanceKeyOf(leave)
    case None => Some(balances)
    case Some(k) =>
      if k !in balances then Some(balances)
      else
        var v := RemainingAfterApproval(balances[k], leave.startDate, leave.endDate);
        if v < 0 then None else Some(balances[k := v])
  }

  /**
   * One iteration of an action's loop over leave `id`, with `actor` the admin issuing it
   * and `observed` what the current-user slot holds. None: the balance UPDATE failed and
   * the action stops there, before logging or saving this leave.
   */
  function ActOn(t: Tables, id: LeaveId, a: Action, actor: UserId, observed: Option<UserId>): (r: Option<Tables>)
    ensures id !in t.leaves || t.leaves[id].status == Target(a) ==> r == Some(t)
    ensures r.None? <==>
              a == Approve && id in t.leaves && t.leaves[id].status != APPROVED
              && ApprovalBalances(t.balances, t.leaves[id]).None?
    ensures r.Some? && id in t.leaves && t.leaves[id].status != Target(a) ==>
              && r.value.leaves == t.leaves[id := t.leaves[id].(status := Target(a))]
              && (id != 0 ==>
                    r.value.logs == t.logs + [LeaveLog(id, Some(actor), t.leaves[id].status, Target(a)),
                                              LeaveLog(id, observed, t.leaves[id].status, Target(a))])
    ensures r.Some? ==> r.value.leaves.Keys == t.leaves.Keys && t.logs <= r.value.logs
    ensures r.Some? && a == Approve && id in t.leaves && t.leaves[id].status != APPROVED ==>
              ApprovalBalances(t.balances, t.leaves[id]) == Some(r.value.balances)
    ensures a == Reject ==> r.Some? && r.value.balances == t.balances
  {
    if id !in t.leaves then Some(t)
    else
      var leave := t.leaves[id];
      if leave.status == Target(a) then Some(t)
      else
        var balances := if a == Approve then ApprovalBalances(t.balances, leave) else Some(t.balances);
        if balances.None? then None
        else
          Some(Tables(t.leaves[id := leave.(status := Target(a))],
                      t.logs + [LeaveLog(id, Some(actor), leave.status, Target(a))]
                      + StatusChangeRows(t.leaves, Some(id), Target(a), observed),
                      balances.value))
  }

  /** The whole loop of an action over a selection, in selection order. */
  function ActOnAll(t: Tables, selection: seq<LeaveId>, a: Action, actor: UserId, observed: Option<UserId>): (r: Run)
    ensures r.tables.leaves.Keys == t.leaves.Keys && r.tables.balances.Keys == t.balances.Keys
    ensures t.logs <= r.tables.logs
    ensures !r.completed ==> a == Approve
    decreases |selection|
  {
    if selection == [] then Run(t, true)
    else
      match ActOn(t, selection[0], a, actor, observed)
      case None => Run(t, false)
      case Some(next) => ActOnAll(next, selection[1..], a, actor, observed)
  }

  /** How many selected leaves are not yet in the action's target status. */
  function Changing(leaves: map<LeaveId, LeaveRequest>, selection: seq<LeaveId>, a: Action): nat
  {
    if selection == [] then 0
    else
      (if selection[0] in leaves && leaves[selection[0]].status != Target(a) then 1 else 0)
      + Changing(leaves, selection[1..], a)
  }

  /**
   * approve_leaves: the loop over the selection. It returns false when the database
   * refused a balance UPDATE; the leaves handled before that keep their changes.
   */
  method ApproveLeaves(db: Db, slot: UserSlot, requestUser: UserId, selection: seq<LeaveId>) returns (completed: bool)
    requires db.Valid()
    requires Selectable(db.leaves, selection)
    modifies db`leaves, db`nextLeaveId, db`logs, db`balances
    ensures db.Valid() && db.nextLeaveId == old(db.nextLeaveId)
    ensures ActOnAll(Tables(old(db.leaves), old(db.logs), old(db.balances)), selection, Approve, requestUser, slot.value)
            == Run(Tables(db.leaves, db.logs, db.balances), completed)
    ensures db.leaves.Keys == old(db.leaves).Keys
    ensures completed ==> forall i :: 0 <= i < |selection| ==> db.leaves[selection[i]].status == APPROVED
    ensures forall id :: id in old(db.leaves) && id !in selection ==> db.leaves[id] == old(db.leaves)[id]
    ensures old(db.logs) <= db.logs && db.balances.Keys == old(db.balances).Keys
    ensures completed ==> |db.logs| == |old(db.logs)| + 2 * Changing(old(db.leaves), selection, Approve)
    ensures old(db.ChoicesRespected()) ==> db.ChoicesRespected()
  {
    ghost var start := Tables(db.leaves, db.logs, db.balances);
    completed := true;
    var i := 0;
    while i < |selection|
      invariant 0 <= i <= |selection|
      invariant db.Valid() && db.nextLeaveId == old(db.nextLeaveId)
      invariant db.leaves.Keys == old(db.leaves).Keys
      invariant ActOnAll(start, selection, Approve, requestUser, slot.value)
                == ActOnAll(Tables(db.leaves, db.logs, db.balances), selection[i..], Approve, requestUser, slot.value)
    {
      var id := selection[i];
      ghost var before := Tables(db.leaves, db.logs, db.balances);
      assert selection[i..][0] == id && selection[i..][1..] == selection[i + 1..];
      var leave := db.leaves[id];
      if leave.status != APPROVED {
        var balances := ApprovalBalances(db.balances, leave);
        if balances.None? {
          // IntegrityError: remaining would drop below zero; the action stops here.
          completed := false;
          break;
        }
        db.balances := balances.value;
        db.logs := db.logs + [LeaveLog(id, Some(requestUser), leave.status, APPROVED)];
        var _ := SaveLeave(db, slot, Some(id), leave.(status := APPROVED));
      }
      assert ActOn(before, id, Approve, requestUser, slot.value) == Some(Tables(db.leaves, db.logs, db.balances));
      i := i + 1;
    }
    ActOnAllLeaves(start, selection, Approve, requestUser, slot.value);
    ActOnAllLogs(start, selection, Approve, requestUser, slot.value);
  }

  /** reject_leaves: the same loop with no balance update; it always runs to the end. */
  method RejectLeaves(db: Db, slot: UserSlot, requestUser: UserId, selection: seq<LeaveId>)
    requires db.Valid()
    requires Selectable(db.leaves, selection)
    modifies db`leaves, db`nextLeaveId, db`logs
    ensures db.Valid() && db.nextLeaveId == old(db.nextLeaveId)
    ensures ActOnAll(Tables(old(db.leaves), old(db.logs), db.balances), selection, Reject, requestUser, slot.value)
            == Run(Tables(db.leaves, db.logs, db.balances), true)
    ensures db.leaves.Keys == old(db.leaves).Keys
    ensures forall i :: 0 <= i < |selection| ==> db.leaves[selection[i]].status == REJECTED
    ensures forall id :: id in old(db.leaves) && id !in selection ==> db.leaves[id] == old(db.leaves)[id]
    ensures old(db.logs) <= db.logs
    ensures |db.logs| == |old(db.logs)| + 2 * Changing(old(db.leaves), selection, Reject)
    ensures old(db.ChoicesRespected()) ==> db.ChoicesRespected()
  {
    ghost var start := Tables(db.leaves, db.logs, db.balances);
    RejectCompletes(start, selection, requestUser, slot.value);
    var i := 0;
    while i < |selection|
      invariant 0 <= i <= |selection|
      invariant db.Valid() && db.nextLeaveId == old(db.nextLeaveId)
      invariant db.leaves.Keys == old(db.leaves).Keys
      invariant ActOnAll(start, selection, Reject, requestUser, slot.value)
                == ActOnAll(Tables(db.leaves, db.logs, db.balances), selection[i..], Reject, requestUser, slot.value)
    {
      var id := selection[i];
      ghost var before := Tables(db.leaves, db.logs, db.balances);
      assert selection[i..][0] == id && selection[i..][1..] == selection[i + 1..];
      var leave := db.leaves[id];
      if leave.status != REJECTED {
        db.logs := db.logs + [LeaveLog(id, Some(requestUser), leave.status, REJECTED)];
        var _ := SaveLeave(db, slot, Some(id), leave.(status := REJECTED));
      }
      assert ActOn(before, id, Reject, requestUser, slot.value) == Some(Tables(db.leaves, db.logs, db.balances));
      i := i + 1;
    }
    ActOnAllLeaves(start, selection, Reject, requestUser, slot.value);
    ActOnAllLogs(start, selection, Reject, requestUser, slot.value);
  }

  /**
   * After an action, the leaves table has the same keys; a leave outside the selection is
   * untouched; a selected leave differs at most in its status, which becomes the target;
   * and when the action ran to the end, every selected leave has the target status.
   */
  lemma {:induction false} ActOnAllLeaves(t: Tables, selection: seq<LeaveId>, a: Action, actor: UserId,
                                          observed: Option<UserId>)
    requires forall i :: 0 <= i < |selection| ==> selection[i] in t.leaves
    ensures var r := ActOnAll(t, selection, a, actor, observed);
            && r.tables.leaves.Keys == t.leaves.Keys
            && (forall id :: id in t.leaves && id !in selection ==> r.tables.leaves[id] == t.leaves[id])
            && (forall id :: id in t.leaves ==>
                  r.tables.leaves[id] == t.leaves[id] || r.tables.leaves[id] == t.leaves[id].(status := Target(a)))
            && (r.completed ==> forall id :: id in selection ==> r.tables.leaves[id].status == Target(a))
    decreases |selection|
  {
    if selection != [] {
      var id := selection[0];
      var step := ActOn(t, id, a, actor, observed);
      if step.Some? {
        var next := step.value;
        assert forall i :: 0 <= i < |selection[1..]| ==> selection[1..][i] == selection[i + 1];
        ActOnAllLeaves(next, selection[1..], a, actor, observed);
        forall x | x in selection
          ensures x == id || x in selection[1..]
        {
          var k :| 0 <= k < |selection| && selection[k] == x;
          if k > 0 { assert selection[1..][k - 1] == x; }
        }
      }
    }
  }

  /**
   * An action over leaves that are all in its target status already changes nothing:
   * no status, no log row, no balance.
   */
  lemma {:induction false} ActOnAllAtTarget(t: Tables, selection: seq<LeaveId>, a: Action, actor: UserId,
                                            observed: Option<UserId>)
    requires forall i :: 0 <= i < |selection| ==> selection[i] in t.leaves && t.leaves[selection[i]].status == Target(a)
    ensures ActOnAll(t, selection, a, actor, observed) == Run(t, true)
    decreases |selection|
  {
    if selection != [] {
      assert ActOn(t, selection[0], a, actor, observed) == Some(t);
      ActOnAllAtTarget(t, selection[1..], a, actor, observed);
    }
  }

  /** Running an action a second time over the same selection changes nothing. */
  lemma ActOnAllIdempotent(t: Tables, selection: seq<LeaveId>, a: Action, actor: UserId, observed: Option<UserId>)
    requires forall i :: 0 <= i < |selection| ==> selection[i] in t.leaves
    requires ActOnAll(t, selection, a, actor, observed).completed
    ensures var r := ActOnAll(t, selection, a, actor, observed).tables;
            ActOnAll(r, selection, a, actor, observed) == Run(r, true)
  {
    ActOnAllLeaves(t, selection, a, actor, observed);
    var r := ActOnAll(t, selection, a, actor, observed).tables;
    ActOnAllAtTarget(r, selection, a, actor, observed);
  }

  /** Rejecting never touches a balance and always runs through the whole selection. */
  lemma {:induction false} RejectCompletes(t: Tables, selection: seq<LeaveId>, actor: UserId, observed: Option<UserId>)
    ensures var r := ActOnAll(t, selection, Reject, actor, observed);
            r.completed && r.tables.balances == t.balances
    decreases |selection|
  {
    if selection != [] {
      var step := ActOn(t, selection[0], Reject, actor, observed);
      assert step.Some? && step.value.balances == t.balances;
      RejectCompletes(step.value, selection[1..], actor, observed);
    }
  }

  /** Changing only depends on the selected leaves' statuses. */
  lemma {:induction false} ChangingAgrees(l1: map<LeaveId, LeaveRequest>, l2: map<LeaveId, LeaveRequest>,
                                          selection: seq<LeaveId>, a: Action)
    requires forall i :: 0 <= i < |selection| ==> selection[i] in l1 && selection[i] in l2
    requires forall i :: 0 <= i < |selection| ==> l1[selection[i]].status == l2[selection[i]].status
    ensures Changing(l1, selection, a) == Changing(l2, selection, a)
  {
    if selection != [] {
      ChangingAgrees(l1, l2, selection[1..], a);
    }
  }

  /**
   * The log table only grows, and when the action ran to the end it grew by exactly two
   * rows per selected leave that was not yet in the target status: the explicit row and
   * the one the pre_save receiver adds for the same change.
   */
  lemma {:induction false} ActOnAllLogs(t: Tables, selection: seq<LeaveId>, a: Action, actor: UserId,
                                        observed: Option<UserId>)
    requires Selectable(t.leaves, selection) && 0 !in t.leaves
    ensures var r := ActOnAll(t, selection, a, actor, observed);
            && t.logs <= r.tables.logs
            && (r.completed ==> |r.tables.logs| == |t.logs| + 2 * Changing(t.leaves, selection, a))
    decreases |selection|
  {
    if selection != [] {
      var id := selection[0];
      var step := ActOn(t, id, a, actor, observed);
      if step.Some? {
        var next := step.value;
        var rest := selection[1..];
        assert forall i :: 0 <= i < |rest| ==> rest[i] == selection[i + 1] && rest[i] != id;
        assert next.leaves.Keys == t.leaves.Keys;
        assert forall i :: 0 <= i < |rest| ==> next.leaves[rest[i]] == t.leaves[rest[i]];
        ChangingAgrees(next.leaves, t.leaves, rest, a);
        ActOnAllLogs(next, rest, a, actor, observed);
        if t.leaves[id].status != Target(a) {
          assert |next.logs| == |t.logs| + 2;
        }
      }
    }
  }

  /**
   * A balance row that no selected leave still to be changed draws on keeps its value:
   * leaves already in the target status are skipped before any UPDATE.
   */
  lemma {:induction false} ActOnAllBalances(t: Tables, selection: seq<LeaveId>, a: Action, k: BalanceKey,
                                            actor: UserId, observed: Option<UserId>)
    requires forall i :: 0 <= i < |selection| ==> selection[i] in t.leaves
    requires k in t.balances
    requires forall i :: 0 <= i < |selection| && t.leaves[selection[i]].status != Target(a) ==>
               BalanceKeyOf(t.leaves[selection[i]]) != Some(k)
    ensures ActOnAll(t, selection, a, actor, observed).tables.balances[k] == t.balances[k]
    decreases |selection|
  {
    if selection != [] {
      var id := selection[0];
      var step := ActOn(t, id, a, actor, observed);
      if step.Some? {
        var next := step.value;
        var rest := selection[1..];
        assert forall i :: 0 <= i < |rest| ==> rest[i] == selection[i + 1];
        assert forall x :: x in t.leaves ==>
                 next.leaves[x] == t.leaves[x] || next.leaves[x] == t.leaves[x].(status := Target(a));
        assert next.balances[k] == t.balances[k];
        ActOnAllBalances(next, rest, a, k, actor, observed);
      }
    }
  }

  /**
   * The value a completed approval leaves in a balance row: when exactly one selected
   * leave not yet APPROVED draws on row k, the row ends at that leave's update of its
   * old value, as the approve action computes it.
   */
  lemma {:induction false} ActOnAllDrawnRow(t: Tables, selection: seq<LeaveId>, j: nat, k: BalanceKey,
                                            actor: UserId, observed: Option<UserId>)
    requires Selectable(t.leaves, selection)
    requires j < |selection| && k in t.balances
    requires t.leaves[selection[j]].status != APPROVED && BalanceKeyOf(t.leaves[selection[j]]) == Some(k)
    requires forall i :: 0 <= i < |selection| && i != j && t.leaves[selection[i]].status != APPROVED ==>
               BalanceKeyOf(t.leaves[selection[i]]) != Some(k)
    ensures var r := ActOnAll(t, selection, Approve, actor, observed);
            r.completed ==>
              r.tables.balances[k]
              == RemainingAfterApproval(t.balances[k], t.leaves[selection[j]].startDate, t.leaves[selection[j]].endDate)
    decreases |selection|
  {
    var id := selection[0];
    var step := ActOn(t, id, Approve, actor, observed);
    if step.Some? {
      var next := step.value;
      var rest := selection[1..];
      assert forall i :: 0 <= i < |rest| ==> rest[i] == selection[i + 1] && rest[i] != id;
      assert forall i :: 0 <= i < |rest| ==> next.leaves[rest[i]] == t.leaves[rest[i]];
      if j == 0 {
        ActOnAllBalances(next, rest, Approve, k, actor, observed);
      } else {
        assert next.balances[k] == t.balances[k];
        ActOnAllDrawnRow(next, rest, j - 1, k, actor, observed);
      }
    }
  }

  /** The inclusive day count (end - start).days + 1, which the "+ 1" at core/admin.py:22 evidently aims at. */
  function InclusiveDays(start: Date, end: Date): int
  {
    end - start + 1
  }

  /** `remaining` after an approval deducted the inclusive day count. */
  function RemainingAfterInclusive(remaining: int, start: Date, end: Date): (r: int)
    ensures start <= end ==> r < remaining
    ensures r == RemainingAfterApproval(remaining, start, end) - 2
  {
    remaining - InclusiveDays(start, end)
  }

  /** A leave from day 10 to day 12 takes three days. */
  lemma InclusiveDaysExample()
    ensures InclusiveDays(10, 12) == 3 && RemainingAfterInclusive(5, 10, 12) == 2
  {
  }

  /** As written, approving a one-day leave raises its balance by one instead of lowering it. */
  lemma OneDayApprovalRaisesBalance(remaining: int, day: Date)
    ensures RemainingAfterApproval(remaining, day, day) == remaining + 1
    ensures RemainingAfterInclusive(remaining, day, day) == remaining - 1
  {
  }
}
