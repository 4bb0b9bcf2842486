/**
 * The rules of the request handlers (core/views.py): applying for leave, marking
 * one's own attendance, changing a leave's status, the daily attendance summary and
 * the admin's manual attendance entry. Rendering, messages and redirects are not
 * modelled; each handler returns which way it went.
 *
 * "Today" is a parameter. The self-service attendance handler filters and creates
 * Attendance rows through `employee=` and `present=True`, names the Attendance model
 * does not have; the model keys the rows on `user` and stores status PRESENT, as
 * evidently meant.
 */
module Views {
  import opened Wrappers
  import opened Models
  import opened Store
  import opened Signals
  import opened Forms

  datatype ApplyOutcome =
    | Applied(id: LeaveId)
    | FormInvalid(errors: seq<LeaveFormError>)
    | LeaveTypeNotSelected
    | LeaveTypeUnknown

  /**
   * apply_leave on a POST: a valid form, then a leave type that was chosen and resolves,
   * then one new PENDING leave owned by the requester. `leaveType` is None when the
   * field is missing or empty.
   */
  method ApplyLeave(db: Db, slot: UserSlot, requester: UserId, start: Option<Date>, end: Option<Date>,
                    reason: Option<string>, leaveType: Option<LeaveTypeId>, today: Date) returns (r: ApplyOutcome)
    requires db.Valid()
    modifies db`leaves, db`nextLeaveId, db`logs
    ensures db.Valid() && db.logs == old(db.logs)
    ensures r.FormInvalid? <==> LeaveFormErrors(start, end, reason, today, db.holidays) != []
    ensures r.FormInvalid? ==> r.errors == LeaveFormErrors(start, end, reason, today, db.holidays)
    ensures r == LeaveTypeNotSelected <==> LeaveFormErrors(start, end, reason, today, db.holidays) == [] && leaveType.None?
    ensures r == LeaveTypeUnknown <==>
              LeaveFormErrors(start, end, reason, today, db.holidays) == [] && leaveType.Some?
              && leaveType.value !in db.leaveTypes
    ensures r.Applied? ==>
              && r.id !in old(db.leaves)
              && db.leaves == old(db.leaves)[r.id := NewLeaveRequest(requester, start.value, end.value, reason.value, leaveType)]
    ensures !r.Applied? ==> db.leaves == old(db.leaves) && db.nextLeaveId == old(db.nextLeaveId)
    ensures old(db.ChoicesRespected()) ==> db.ChoicesRespected()
  {
    var errors := LeaveFormErrors(start, end, reason, today, db.holidays);
    if errors != [] {
      return FormInvalid(errors);
    }
    if leaveType.None? {
      return LeaveTypeNotSelected;
    }
    if leaveType.value !in db.leaveTypes {
      return LeaveTypeUnknown;   // LeaveType.DoesNotExist
    }
    var leave := NewLeaveRequest(requester, start.value, end.value, reason.value, leaveType);
    var id := SaveLeave(db, slot, None, leave);
    return Applied(id);
  }

  datatype MarkOutcome = HolidayToday | AlreadyMarked | Marked

  /** Some attendance row exists for this user on this date, whatever its status. */
  predicate HasRecord(records: seq<Attendance>, user: UserId, date: Date)
  {
    exists i :: 0 <= i < |records| && records[i].user == user && records[i].date == date
  }

  /**
   * mark_attendance: nothing on a holiday; nothing when the user already has a row for
   * today; otherwise one PRESENT row. Afterwards, unless today is a holiday, the user
   * has a row for today, so a second call is a no-op.
   */
  method MarkAttendance(db: Db, user: UserId, today: Date) returns (r: MarkOutcome)
    modifies db`attendance
    ensures r == HolidayToday <==> IsHoliday(db.holidays, today)
    ensures r == AlreadyMarked <==> !IsHoliday(db.holidays, today) && HasRecord(old(db.attendance), user, today)
    ensures r == Marked ==> db.attendance == old(db.attendance) + [Attendance(user, today, PRESENT)]
    ensures r != Marked ==> db.attendance == old(db.attendance)
    ensures r != HolidayToday ==> HasRecord(db.attendance, user, today)
    ensures old(db.ChoicesRespected()) ==> db.ChoicesRespected()
  {
    if IsHoliday(db.holidays, today) {
      return HolidayToday;
    }
    if HasRecord(db.attendance, user, today) {
      return AlreadyMarked;
    }
    db.attendance := db.attendance + [Attendance(user, today, PRESENT)];
    assert db.attendance[|db.attendance| - 1] == Attendance(user, today, PRESENT);
    return Marked;
  }

  /** Marking twice on the same day leaves at most one new row and reports the second call as a repeat. */
  method MarkAttendanceTwice(db: Db, user: UserId, today: Date) returns (first: MarkOutcome, second: MarkOutcome)
    modifies db`attendance
    ensures second == (if first == HolidayToday then HolidayToday else AlreadyMarked)
    ensures |db.attendance| <= |old(db.attendance)| + 1
  {
    first := MarkAttendance(db, user, today);
    second := MarkAttendance(db, user, today);
  }

  /**
   * update_leave_status: a missing leave is a 404 before anything happens; otherwise the
   * requester becomes the current user and the leave is saved with the requested status,
   * so the receiver logs the change, attributed to the requester, exactly when the status
   * differs from the stored one. The status is whatever the URL carried.
   */
  method UpdateLeaveStatus(db: Db, slot: UserSlot, requester: UserId, pk: LeaveId, status: string) returns (found: bool)
    requires db.Valid()
    modifies db`leaves, db`nextLeaveId, db`logs, slot
    ensures db.Valid() && db.nextLeaveId == old(db.nextLeaveId)
    ensures found <==> pk in old(db.leaves)
    ensures !found ==> db.leaves == old(db.leaves) && db.logs == old(db.logs) && slot.value == old(slot.value)
    ensures found ==> slot.value == Some(requester)
    ensures found ==> db.leaves == old(db.leaves)[pk := old(db.leaves)[pk].(status := status)]
    ensures found && old(db.leaves)[pk].status == status ==> db.logs == old(db.logs)
    ensures found && old(db.leaves)[pk].status != status ==>
              db.logs == old(db.logs) + [LeaveLog(pk, Some(requester), old(db.leaves)[pk].status, status)]
    ensures old(db.ChoicesRespected()) && IsLeaveStatus(status) ==> db.ChoicesRespected()
  {
    if pk !in db.leaves {
      return false;   // get_object_or_404
    }
    var leave := db.leaves[pk];
    slot.SetCurrentUser(requester);
    var _ := SaveLeave(db, slot, Some(pk), leave.(status := status));
    return true;
  }

  datatype Summary = Summary(present: seq<UserId>, absent: seq<UserId>, isHoliday: bool)

  /** [a.user for a in records if a.status == wanted], over the rows of `date`, in table order. */
  function PresentUsers(records: seq<Attendance>, date: Date, wanted: string): (r: seq<UserId>)
    ensures |r| <= |records|
    ensures forall u :: u in r <==>
              exists i :: 0 <= i < |records| && records[i].date == date && records[i].status == wanted && records[i].user == u
  {
    if records == [] then []
    else
      var rest := PresentUsers(records[1..], date, wanted);
      assert forall i :: 0 <= i < |records[1..]| ==> records[1..][i] == records[i + 1];
      if records[0].date == date && records[0].status == wanted then [records[0].user] + rest else rest
  }

  /** [u for u in all_users if u not in present_users], in table order. */
  function AbsentUsers(users: seq<UserId>, present: seq<UserId>): (r: seq<UserId>)
    ensures |r| <= |users|
    ensures forall u :: u in r <==> u in users && u !in present
  {
    if users == [] then []
    else
      var rest := AbsentUsers(users[1..], present);
      if users[0] in present then rest else [users[0]] + rest
  }

  /**
   * attendance_summary as written: present are the users of the day's rows whose status
   * equals the literal 'Present'; absent are all other users.
   */
  function AttendanceSummary(users: seq<UserId>, records: seq<Attendance>, holidays: seq<Holiday>, date: Date)
    : (s: Summary)
    ensures forall u :: u in s.absent ==> u !in s.present
    ensures forall u :: u in s.absent <==> u in users && u !in s.present
    ensures forall u :: u in users ==> u in s.present || u in s.absent
    ensures forall u :: u in s.present <==>
              exists i :: 0 <= i < |records| && records[i].date == date && records[i].status == "Present" && records[i].user == u
    ensures s.isHoliday <==> IsHoliday(holidays, date)
  {
    var present := PresentUsers(records, date, "Present");
    Summary(present, AbsentUsers(users, present), IsHoliday(holidays, date))
  }

  /** attendance_summary as evidently meant: the comparison uses the stored value PRESENT. */
  function AttendanceSummaryIntended(users: seq<UserId>, records: seq<Attendance>, holidays: seq<Holiday>, date: Date)
    : (s: Summary)
    ensures forall u :: u in s.absent <==> u in users && u !in s.present
    ensures forall u :: u in users ==> u in s.present || u in s.absent
    ensures forall u :: u in s.present <==> HasPresentRecord(records, u, date)
    ensures s.isHoliday <==> IsHoliday(holidays, date)
  {
    var present := PresentUsers(records, date, PRESENT);
    Summary(present, AbsentUsers(users, present), IsHoliday(holidays, date))
  }

  /** The user has a PRESENT row on the date. */
  predicate HasPresentRecord(records: seq<Attendance>, user: UserId, date: Date)
  {
    exists i :: 0 <= i < |records| && records[i].user == user && records[i].date == date && records[i].status == PRESENT
  }

  lemma {:induction false} AbsentOfNobody(users: seq<UserId>)
    ensures AbsentUsers(users, []) == users
  {
    if users != [] {
      AbsentOfNobody(users[1..]);
    }
  }

  lemma {:induction false} NobodyWithStatus(records: seq<Attendance>, date: Date, wanted: string)
    requires forall i :: 0 <= i < |records| ==> records[i].status != wanted
    ensures PresentUsers(records, date, wanted) == []
  {
    if records != [] {
      NobodyWithStatus(records[1..], date, wanted);
    }
  }

  /**
   * With every stored status one of the declared choices, the summary as written reports
   * nobody present and every user absent, whatever was marked.
   */
  lemma SummaryAsWrittenFindsNobodyPresent(users: seq<UserId>, records: seq<Attendance>, holidays: seq<Holiday>,
                                           date: Date)
    requires forall i :: 0 <= i < |records| ==> IsAttendanceStatus(records[i].status)
    ensures AttendanceSummary(users, records, holidays, date).present == []
    ensures AttendanceSummary(users, records, holidays, date).absent == users
  {
    assert "Present"[1] != PRESENT[1] && "Present"[1] != ABSENT[1];
    NobodyWithStatus(records, date, "Present");
    AbsentOfNobody(users);
  }

  /** A user who marked attendance is listed absent by the summary as written, present by the intended one. */
  lemma SummaryMissesMarkedUser()
    ensures AttendanceSummary([7], [Attendance(7, 100, PRESENT)], [], 100) == Summary([], [7], false)
    ensures AttendanceSummaryIntended([7], [Attendance(7, 100, PRESENT)], [], 100) == Summary([7], [], false)
  {
    SummaryAsWrittenFindsNobodyPresent([7], [Attendance(7, 100, PRESENT)], [], 100);
    assert HasPresentRecord([Attendance(7, 100, PRESENT)], 7, 100);
    assert !IsHoliday([], 100);
  }

  datatype ManualOutcome = ManualFormInvalid(errors: seq<ManualFormError>) | HolidayBlocked | Saved

  /**
   * manual_attendance_entry on a POST: a valid form, then no holiday on the chosen date,
   * then one new row with the chosen status. Rows the user already has for that date stay.
   */
  method ManualAttendanceEntry(db: Db, user: Option<UserId>, date: Option<Date>, status: string) returns (r: ManualOutcome)
    modifies db`attendance
    ensures r.ManualFormInvalid? <==> ManualAttendanceErrors(db.users, user, date, status) != []
    ensures r.ManualFormInvalid? ==> r.errors == ManualAttendanceErrors(db.users, user, date, status)
    ensures r == HolidayBlocked <==>
              ManualAttendanceErrors(db.users, user, date, status) == [] && IsHoliday(db.holidays, date.value)
    ensures r == Saved ==> db.attendance == old(db.attendance) + [Attendance(user.value, date.value, status)]
    ensures r != Saved ==> db.attendance == old(db.attendance)
    ensures old(db.ChoicesRespected()) ==> db.ChoicesRespected()
  {
    var errors := ManualAttendanceErrors(db.users, user, date, status);
    if errors != [] {
      return ManualFormInvalid(errors);
    }
    if IsHoliday(db.holidays, date.value) {
      return HolidayBlocked;
    }
    db.attendance := db.attendance + [Attendance(user.value, date.value, status)];
    return Saved;
  }
}
