# Leave and attendance rules, modelled in Dafny

This project models the business core of a small HR application. Employees apply for
leave and mark their daily attendance. Administrators approve or reject leave, and every
status change of a stored leave is written to an audit log. The model works against an
in-memory store, `Store.Db`, whose fields are the tables:

- leave requests, keyed by id;
- an append-only sequence of LeaveLog rows;
- leave balances, keyed by (user, leave type);
- attendance rows;
- holidays;
- leave types;
- users.

Dates are day numbers, so `(end - start).days` is `end - start`. "Today" is a parameter.

Modules follow the source files:

- `Models` (core/models.py) holds the rows as datatypes, the status choices and the schema's uniqueness rules.
- `Store` is the database object. Its `Valid()` covers the AutoField keys, unique holiday dates and unique leave type names. `ChoicesRespected()` says every status column holds a declared choice.
- `Signals` (core/signals.py) holds the current-user slot (`UserSlot`) and the pre_save receiver. It also holds `SaveLeave`, which is `Model.save()` with that receiver connected.
- `Forms` (core/forms.py) validates the leave form (past start, inverted range, holiday clash with the holiday names) and defines the manual attendance form's field domains.
- `Admin` (core/admin.py) has the approve and reject actions. Each is a loop method proved against one specification function, `ActOnAll`. Lemmas on `ActOnAll` cover the target status, the frame, two log rows per change, idempotence, the balance rows an action leaves alone and the value it leaves in a row it draws on.
- `Views` (core/views.py) has the rules of `apply_leave`, `mark_attendance`, `update_leave_status`, `attendance_summary` and `manual_attendance_entry`.

Statuses are strings, as in the CharFields. Django does not check a field's choices when a
row is saved. `update_leave_status` stores whatever status the URL carries, so
`ChoicesRespected` is kept by every operation except that one, and by that one only when
the status is a declared choice.

Several ORM calls name fields the models do not have:

- `employee=` and `present=True` on Attendance (core/views.py:76, core/views.py:78);
- `employee=` and `balance` on LeaveBalance (core/admin.py:19, core/admin.py:22).

The model keys those rows on `user`, stores status `PRESENT` and updates `remaining`, as
the code evidently means. As written, these calls would raise a Django field error.

Three behaviours of the code are worth stating outright:

- The manual attendance entry inserts a row without deleting an existing row for the same user and day.
- The admin actions write two log rows per status change: their own explicit row and the receiver's row. The receiver's row is attributed to whatever the current-user slot holds, and the admin actions never set that slot.
- The holiday-clash error names the holidays, not their dates.

## Model

| member | source | states |
|---|---|---|
| `Models.NewLeaveRequest` | core/models.py:4-16 | a new leave is PENDING, a declared choice, and keeps its owner, dates, reason and nullable leave type |
| `Models.NewLeaveType` | core/models.py:54-56 | a leave type created without a limit gets annual_limit 12 |
| `Store.Db.constructor` | core/models.py:37-66 | an empty store over reference data with unique holiday dates and leave type names is valid and respects the status choices |
| `Signals.UserSlot.constructor` | core/signals.py:7-13 | a slot that was never set reads as None |
| `Signals.UserSlot.SetCurrentUser` | core/signals.py:9-10 | the slot holds the given user afterwards |
| `Signals.UserSlot.GetCurrentUser` | core/signals.py:12-13 | returns what the slot holds |
| `Signals.SlotRemembersLastUser` | core/signals.py:9-13 | a fresh slot reads None; after two sets it reads the later user |
| `Signals.StatusChangeRows` | core/signals.py:15-31 | at most one row; exactly one iff the key is truthy, the stored row exists and its status differs; that row goes from the stored status to the incoming one, attributed to the slot's user |
| `Signals.LogLeaveStatusChange` | core/signals.py:15-31 | only the log table changes, and it gains exactly the rows above |
| `Signals.SaveLeave` | core/signals.py:15-31 | the receiver runs before the write; a new leave gets a fresh key and no log row; an existing one is overwritten under its key; the store stays valid |
| `Forms.CleanStartDate` | core/forms.py:12-16 | refused iff the start is strictly before today, so a start of today passes |
| `Forms.HolidaysInRange` | core/forms.py:28 | exactly the holidays whose date lies in [start, end], both ends included |
| `Forms.Clean` | core/forms.py:18-33 | nothing is checked unless both dates are present; an end before the start is refused; an ordered range is refused iff a holiday lies in it, and the error names exactly the holidays in the range |
| `Forms.LeaveFormErrors` | core/forms.py:7-33 | the form is valid iff all fields are present, today <= start <= end and no holiday lies in the range; a past start yields only the past-date error from the date checks; a one-day leave passes the order check; every holiday in range is named |
| `Forms.Join` | core/forms.py:30 | the joined text is as long as all parts together plus one separator between each pair of neighbours |
| `Forms.JoinContainsEachPart` | core/forms.py:30 | each name occurs in the ", "-joined text |
| `Forms.Names` | core/forms.py:30 | one name per holiday, in the holidays' order |
| `Forms.Message` | core/forms.py:15-33 | each kind of error shows its own text (past start, end before start, required field), and the holiday-clash text contains every holiday name it lists |
| `Forms.ManualAttendanceErrors` | core/forms.py:35-42 | valid iff the user is registered, the date is given and the status is PRESENT or ABSENT |
| `Admin.ApprovalBalances` | core/admin.py:17-25 | only the row keyed by the leave's (user, type) changes, to (remaining - (end - start)) + 1; no matching row means no change and approval goes on; a negative result is refused by the database |
| `Admin.RemainingAfterApproval` | core/admin.py:22 | as written, the balance falls only for a leave whose end is two or more days after its start; a leave ending the next day leaves it unchanged |
| `Admin.ActOn` | core/admin.py:14-49 | a leave already in the target status, or missing, is skipped; otherwise it takes the target status and gains two log rows, the admin's and the receiver's; approving applies the balance update to the tables and fails only when that update is refused; rejecting never touches a balance |
| `Admin.ActOnAll` | core/admin.py:14-49 | an action keeps the set of leaves and of balance rows, only appends to the log, and only an approval can stop early |
| `Admin.ApproveLeaves` | core/admin.py:12-35 | the tables end as `ActOnAll` says; if it completes, every selected leave is APPROVED; unselected leaves are unchanged; the log only grows, by two rows per leave that was not yet APPROVED |
| `Admin.RejectLeaves` | core/admin.py:37-49 | the tables end as `ActOnAll` says; every selected leave is REJECTED; unselected leaves are unchanged; the log grows by two rows per leave that was not yet REJECTED |
| `Admin.ActOnAllLeaves` | core/admin.py:14-49 | keys are kept; unselected leaves are untouched; a selected leave changes at most its status, to the target; after a complete run every selected leave has the target status |
| `Admin.ActOnAllAtTarget` | core/admin.py:14-15 | over leaves already in the target status an action changes nothing: no log row, no balance change |
| `Admin.ActOnAllIdempotent` | core/admin.py:14-49 | running an action again over the same selection changes nothing |
| `Admin.RejectCompletes` | core/admin.py:39-49 | rejecting always runs to the end and never touches a balance |
| `Admin.ActOnAllLogs` | core/admin.py:28-49 | the log only grows, and a complete run adds exactly two rows per selected leave not yet in the target status |
| `Admin.ActOnAllBalances` | core/admin.py:14-23 | a balance row that no selected leave still to be changed draws on keeps its value |
| `Admin.ActOnAllDrawnRow` | core/admin.py:14-23 | after a completed approval, a balance row drawn on by exactly one selected leave not yet APPROVED holds that leave's update of its old value, (remaining - (end - start)) + 1 |
| `Admin.OneDayApprovalRaisesBalance` | core/admin.py:22 | as written, approving a one-day leave raises the balance by one, where the inclusive count lowers it by one |
| `Admin.RemainingAfterInclusive` | core/admin.py:22 | deducting the inclusive day count lowers the balance for any ordered range, and is two less than the as-written result |
| `Admin.InclusiveDaysExample` | core/admin.py:22 | a leave from day 10 to day 12 takes 3 days |
| `Views.ApplyLeave` | core/views.py:22-51 | nothing is saved on an invalid form, a missing leave type or an unknown one; otherwise exactly one new PENDING leave owned by the requester is stored, under a fresh key, with no log row |
| `Views.MarkAttendance` | core/views.py:68-83 | a holiday blocks it; an existing row for (user, today) makes it a no-op; otherwise exactly one PRESENT row is added; afterwards the user has a row for today |
| `Views.MarkAttendanceTwice` | core/views.py:76-81 | the second call on the same day reports a repeat, and at most one row is added |
| `Views.UpdateLeaveStatus` | core/views.py:100-106 | a missing leave changes nothing; otherwise the requester becomes the current user, the leave takes the requested status, and one log row attributed to the requester is added iff the status changed |
| `Views.PresentUsers` | core/views.py:120-122 | a user is listed iff some row of that date has the compared status |
| `Views.AbsentUsers` | core/views.py:123 | a user is listed iff registered and not present |
| `Views.AttendanceSummary` | core/views.py:115-132 | present and absent are disjoint; absent is every registered user not present; present is matched against the literal 'Present'; the holiday flag is exact |
| `Views.SummaryAsWrittenFindsNobodyPresent` | core/views.py:122-123 | while stored statuses are declared choices, the summary as written lists nobody present and every user absent |
| `Views.SummaryMissesMarkedUser` | core/views.py:122 | a user with a PRESENT row is listed absent as written and present as intended |
| `Views.AttendanceSummaryIntended` | core/views.py:122-123 | with the comparison against PRESENT, a user is present iff they have a PRESENT row that day; absent is everyone else |
| `Views.ManualAttendanceEntry` | core/views.py:133-143 | an invalid form or a holiday saves nothing; otherwise exactly one row is appended and the user's existing rows for that day stay |

## Left out

- HTML rendering, `messages`, redirects, `print` and the GET branches of the views: presentation only.
- PDF exports (core/views.py:167-199, core/admin.py:50-63): foreign library calls.
- Login, logout and role routing (core/views.py:147-166, core/views.py:200-202): framework concerns.
- The read-only listing views (`leave_history`, `attendance_history`, `admin_leave_list`, `leave_logs`): plain queries.
- core/urls.py (routing), core/tasks.py (a scheduled e-mail) and core/templatetags/custom_tags.py (a `getattr` wrapper) are not part of this model.
- The thread-locality of the current-user slot: a single slot stands for it.
- `created_at`, `marked_at` and `changed_at` timestamps, and the `ModelAdmin` registrations.
- `timezone.localdate()` and the parsing of the summary's `date` query parameter: the date is a parameter.
- Django's own field cleaning (required fields, date parsing, whitespace stripping): a field that does not survive it is `None`.
- A non-numeric leave type id in `apply_leave`: Django raises an uncaught error there. The model takes the id as a number, or None when missing or empty.
- The `max_length=10` of the status columns: status strings are not length-checked.
- Transactions: an admin action stopped by a refused balance update keeps the changes made before it, as under autocommit. A rollback under per-request transactions is not modelled.
- The field-name errors listed above: the model follows the evident intent, not the Django error those calls would raise.
- Admin.ActOnAllLogs: the exact row count is stated only for a run that completes. A run stopped by a refused balance update is only known to append.

## Findings

| source | as written | input that shows it | evidently intended | confidence | as-written member | corrected member |
|---|---|---|---|---|---|---|
| core/views.py:122 | compares `a.status == 'Present'`, while the stored choice value is `'PRESENT'` | user 7 marks attendance on day 100; the summary for day 100 lists user 7 as absent | compare against `'PRESENT'` | high; not executed | `Views.SummaryAsWrittenFindsNobodyPresent` | `Views.AttendanceSummaryIntended` |
| core/admin.py:22 | `F('balance') - (end - start).days + 1` parses as `(remaining - (end - start)) + 1` | approving a one-day leave (start == end) with remaining 5 stores 6 | deduct the inclusive day count: `remaining - ((end - start).days + 1)` | high; not executed | `Admin.OneDayApprovalRaisesBalance` | `Admin.RemainingAfterInclusive` |

The approve action model (`Admin.ApprovalBalances`) keeps the arithmetic as written,
because that is what the action stores. `Admin.RemainingAfterInclusive` is the reference
it is compared with.
