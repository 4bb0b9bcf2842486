/**
 * The audit trail of leave status changes (core/signals.py): the "current user"
 * slot that request handlers fill in, and the pre_save receiver that appends a
 * LeaveLog row whenever a stored leave's status changes.
 */
module Signals {
  import opened Wrappers
  import opened Models
  import opened Store

  /** The module-level `_user` slot; its thread-locality is not modelled. */
  class UserSlot {
    var value: Option<UserId>

    /** Nothing has been set yet, so the slot reads as None. */
    constructor ()
      ensures value == None
    {
      value := None;
    }

    method SetCurrentUser(user: UserId)
      modifies this
      ensures value == Some(user)
    {
      value := Some(user);
    }

    /** The last user set, or None when SetCurrentUser was never called. */
    method GetCurrentUser() returns (user: Option<UserId>)
      ensures user == value
    {
      user := value;
    }
  }

  /** A fresh slot reads as None; after two users were set, it reads as the later one. */
  method SlotRemembersLastUser(a: UserId, b: UserId) returns (initial: Option<UserId>, last: Option<UserId>)
    ensures initial == None && last == Some(b)
  {
    var slot := new UserSlot();
    initial := slot.GetCurrentUser();
    slot.SetCurrentUser(a);
    slot.SetCurrentUser(b);
    last := slot.GetCurrentUser();
  }

  /**
   * The rows the receiver appends when an instance carrying primary key `pk` and status
   * `incoming` is about to be saved over the table `stored`: none for an instance without
   * a (truthy) key, none when the stored row is missing, none when the status is the
   * stored one, and otherwise exactly one row from the stored status to the incoming one,
   * attributed to `actor`.
   */
  function StatusChangeRows(stored: map<LeaveId, LeaveRequest>, pk: Option<LeaveId>, incoming: string,
                            actor: Option<UserId>): (rows: seq<LeaveLog>)
    ensures |rows| <= 1
    ensures |rows| == 1 <==> pk.Some? && pk.value != 0 && pk.value in stored && stored[pk.value].status != incoming
    ensures |rows| == 1 ==> rows[0].leave == pk.value && rows[0].changedBy == actor
    ensures |rows| == 1 ==> rows[0].previousStatus == stored[pk.value].status && rows[0].newStatus == incoming
  {
    if pk.None? || pk.value == 0 then []   // a new leave, not an update
    else if pk.value !in stored then []    // LeaveRequest.DoesNotExist
    else if stored[pk.value].status == incoming then []
    else [LeaveLog(pk.value, actor, stored[pk.value].status, incoming)]
  }

  /** log_leave_status_change: only appends to the log table. */
  method LogLeaveStatusChange(db: Db, slot: UserSlot, pk: Option<LeaveId>, instance: LeaveRequest)
    modifies db`logs
    ensures db.logs == old(db.logs) + StatusChangeRows(db.leaves, pk, instance.status, slot.value)
  {
    if pk.None? || pk.value == 0 {
      return;
    }
    if pk.value !in db.leaves {
      return;
    }
    var stored := db.leaves[pk.value];
    if stored.status != instance.status {
      var actor := slot.GetCurrentUser();
      db.logs := db.logs + [LeaveLog(pk.value, actor, stored.status, instance.status)];
    }
  }

  /**
   * Model.save() for a LeaveRequest: the pre_save receiver runs first, then the row is
   * written, under its own key when it has one, under a fresh AutoField key otherwise.
   * Every caller in the application saves either a new leave or one it loaded.
   */
  method SaveLeave(db: Db, slot: UserSlot, pk: Option<LeaveId>, leave: LeaveRequest) returns (id: LeaveId)
    requires db.Valid()
    requires pk.Some? ==> pk.value in db.leaves
    modifies db`leaves, db`nextLeaveId, db`logs
    ensures db.Valid()
    ensures db.logs == old(db.logs) + StatusChangeRows(old(db.leaves), pk, leave.status, slot.value)
    ensures pk.Some? ==> id == pk.value && db.nextLeaveId == old(db.nextLeaveId)
    ensures pk.None? ==> id == old(db.nextLeaveId) && id !in old(db.leaves) && db.nextLeaveId == id + 1
    ensures db.leaves == old(db.leaves)[id := leave]
  {
    LogLeaveStatusChange(db, slot, pk, leave);
    if pk.Some? {
      id := pk.value;
    } else {
      id := db.nextLeaveId;
      db.nextLeaveId := db.nextLeaveId + 1;
    }
    db.leaves := db.leaves[id := leave];
  }
}
