/**
 * The tables of the leave and attendance application (core/models.py) as values.
 *
 * Dates are day numbers, so the difference of two dates is a number of days.
 * Status columns are CharFields with a list of choices; Django does not check
 * those choices when a row is saved, so the statuses are kept as strings and the
 * choice lists are predicates over them.
 */
module Models {
  import opened Wrappers

  type Date = int
  type UserId = nat
  type LeaveId = nat
  type LeaveTypeId = nat

  // Choices of LeaveRequest.status.
  const PENDING: string := "PENDING"
  const APPROVED: string := "APPROVED"
  const REJECTED: string := "REJECTED"

  // Choices of Attendance.status.
  const PRESENT: string := "PRESENT"
  const ABSENT: string := "ABSENT"

  /** The annual_limit a LeaveType gets when none is given. */
  const DEFAULT_ANNUAL_LIMIT: nat := 12

  /** LeaveRequest.STATUS: the three values a leave status is meant to take. */
  predicate IsLeaveStatus(s: string)
  {
    s == PENDING || s == APPROVED || s == REJECTED
  }

  /** Attendance.STATUS_CHOICES: the two values an attendance status is meant to take. */
  predicate IsAttendanceStatus(s: string)
  {
    s == PRESENT || s == ABSENT
  }

  /** A leave application. created_at is not modelled; leaveType is nullable (SET_NULL). */
  datatype LeaveRequest = LeaveRequest(
    employee: UserId,
    startDate: Date,
    endDate: Date,
    reason: string,
    status: string,
    leaveType: Option<LeaveTypeId>)

  /** One attendance mark; marked_at is not modelled. */
  datatype Attendance = Attendance(user: UserId, date: Date, status: string)

  datatype Holiday = Holiday(name: string, date: Date)

  /** An audit row for a status change; changed_by is nullable, changed_at is not modelled. */
  datatype LeaveLog = LeaveLog(leave: LeaveId, changedBy: Option<UserId>, previousStatus: string, newStatus: string)

  /** A kind of leave; annual_limit is a PositiveIntegerField, hence a nat. */
  datatype LeaveType = LeaveType(name: string, annualLimit: nat)

  /**
   * The unique_together key of LeaveBalance. The balances table is a map from this key
   * to `remaining` (a PositiveIntegerField), so the pair is unique by construction.
   */
  datatype BalanceKey = BalanceKey(user: UserId, leaveType: LeaveTypeId)

  /** A LeaveRequest as the model class builds it: status takes its default. */
  function NewLeaveRequest(employee: UserId, startDate: Date, endDate: Date, reason: string,
                           leaveType: Option<LeaveTypeId>): (r: LeaveRequest)
    ensures r.status == PENDING && IsLeaveStatus(r.status)
    ensures r.employee == employee && r.startDate == startDate && r.endDate == endDate
    ensures r.reason == reason && r.leaveType == leaveType
  {
    LeaveRequest(employee, startDate, endDate, reason, PENDING, leaveType)
  }

  /** A LeaveType built without an explicit annual_limit. */
  function NewLeaveType(name: string): (t: LeaveType)
    ensures t.name == name && t.annualLimit == DEFAULT_ANNUAL_LIMIT
  {
    LeaveType(name, DEFAULT_ANNUAL_LIMIT)
  }

  /** Holiday.date is unique=True. */
  ghost predicate HolidayDatesUnique(holidays: seq<Holiday>)
  {
    forall i, j :: 0 <= i < j < |holidays| ==> holidays[i].date != holidays[j].date
  }

  /** LeaveType.name is unique=True. */
  ghost predicate LeaveTypeNamesUnique(types: map<LeaveTypeId, LeaveType>)
  {
    forall a, b :: a in types && b in types && a != b ==> types[a].name != types[b].name
  }

  /** Whether some holiday falls on `date` (Holiday.objects.filter(date=date).exists()). */
  predicate IsHoliday(holidays: seq<Holiday>, date: Date)
  {
    exists i :: 0 <= i < |holidays| && holidays[i].date == date
  }
}
