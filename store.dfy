/**
 * The database the views and admin actions work against, as one object whose
 * fields are the tables. Rows are values (module Models); the methods elsewhere
 * reassign these fields.
 */
module Store {
  import opened Wrappers
  import opened Models

  class Db {
    /** LeaveRequest rows by primary key. */
    var leaves: map<LeaveId, LeaveRequest>
    /** The next primary key the LeaveRequest AutoField hands out. */
    var nextLeaveId: LeaveId
    /** LeaveLog rows, in insertion order; nothing here ever removes one. */
    var logs: seq<LeaveLog>
    /** LeaveBalance.remaining by (user, leave_type). */
    var balances: map<BalanceKey, nat>
    /** Attendance rows, in insertion order. */
    var attendance: seq<Attendance>
    /** Holiday rows, in table order. */
    var holidays: seq<Holiday>
    /** LeaveType rows by primary key. */
    var leaveTypes: map<LeaveTypeId, LeaveType>
    /** All registered users (User.objects.all()), in table order. */
    var users: seq<UserId>

    /**
     * The invariants the schema enforces: AutoField keys start at 1 and lie below the
     * next key to be handed out, holiday dates are unique, leave type names are unique.
     * (remaining >= 0 and annual_limit >= 0 hold by their nat types, and the balance key
     * is unique because the table is a map.)
     */
    ghost predicate Valid()
      reads this
    {
      && 1 <= nextLeaveId
      && (forall id :: id in leaves ==> 1 <= id < nextLeaveId)
      && HolidayDatesUnique(holidays)
      && LeaveTypeNamesUnique(leaveTypes)
    }

    /**
     * Every status column holds one of its declared choices. Not part of Valid:
     * the status-update view can store any string (see Views.UpdateLeaveStatus).
     */
    ghost predicate ChoicesRespected()
      reads this
    {
      && (forall id :: id in leaves ==> IsLeaveStatus(leaves[id].status))
      && (forall i :: 0 <= i < |attendance| ==> IsAttendanceStatus(attendance[i].status))
    }

    /** An empty store over the given reference data. */
    constructor (users: seq<UserId>, holidays: seq<Holiday>, leaveTypes: map<LeaveTypeId, LeaveType>,
                 balances: map<BalanceKey, nat>)
      requires HolidayDatesUnique(holidays) && LeaveTypeNamesUnique(leaveTypes)
      ensures Valid() && ChoicesRespected()
      ensures this.users == users && this.holidays == holidays
      ensures this.leaveTypes == leaveTypes && this.balances == balances
      ensures leaves == map[] && logs == [] && attendance == [] && nextLeaveId == 1
    {
      this.users := users;
      this.holidays := holidays;
      this.leaveTypes := leaveTypes;
      this.balances := balances;
      leaves := map[];
      nextLeaveId := 1;
      logs := [];
      attendance := [];
    }
  }
}
