/**
 * Form validation (core/forms.py): the leave application form, whose start date
 * may not lie in the past, whose end may not precede its start and whose range may
 * not contain a holiday, and the manual attendance form's field domains.
 *
 * A form input is an Option: None stands for a value Django's own field cleaning
 * turned away (missing, blank, unparseable), Some for a value that got through it.
 */
module Forms {
  import opened Wrappers
  import opened Models

  datatype LeaveFormError =
    | Required(field: string)
    | StartInPast
    | EndBeforeStart
    | HolidayClash(names: seq<string>)

  /** The summed length of the parts. */
  function TotalLength(parts: seq<string>): nat
  {
    if parts == [] then 0 else |parts[0]| + TotalLength(parts[1..])
  }

  /** Python's str.join: the parts in order, with one separator between neighbours. */
  function Join(parts: seq<string>, sep: string): (r: string)
    ensures |r| == TotalLength(parts) + (if parts == [] then 0 else (|parts| - 1) * |sep|)
  {
    if |parts| == 0 then ""
    else if |parts| == 1 then parts[0]
    else parts[0] + sep + Join(parts[1..], sep)
  }

  /** The text before the joined names in the holiday-clash error. */
  const HOLIDAY_CLASH_PREFIX := "You cannot apply leave on holiday(s): "

  /**
   * The text a validation error shows: each kind of error has its own text, and the
   * holiday-clash text names every holiday it lists.
   */
  function Message(e: LeaveFormError): (r: string)
    ensures e.Required? <==> r == "This field is required."
    ensures e == StartInPast <==> r == "Cannot apply for leave in the past."
    ensures e == EndBeforeStart <==> r == "End date cannot be before start date."
    ensures e.HolidayClash? ==> forall i :: 0 <= i < |e.names| ==> Occurs(e.names[i], r)
  {
    match e
    case Required(_) => "This field is required."
    case StartInPast => "Cannot apply for leave in the past."
    case EndBeforeStart => "End date cannot be before start date."
    case HolidayClash(names) =>
      WrappedJoinContainsEach(names, ", ", HOLIDAY_CLASH_PREFIX, ".");
      HOLIDAY_CLASH_PREFIX + Join(names, ", ") + "."
  }

  /** Whether `part` is found in `s` at offset `k`. */
  predicate OccursAt(part: string, s: string, k: nat)
  {
    k + |part| <= |s| && s[k..k + |part|] == part
  }

  /** Whether `part` is found somewhere in `s`. */
  ghost predicate Occurs(part: string, s: string)
  {
    exists k: nat :: OccursAt(part, s, k)
  }

  /** Some holiday lies in the inclusive range [start, end]. */
  predicate HolidayBetween(holidays: seq<Holiday>, start: Date, end: Date)
  {
    exists i :: 0 <= i < |holidays| && start <= holidays[i].date <= end
  }

  /** LeaveForm.clean_start_date: a start strictly before today is refused. */
  function CleanStartDate(start: Date, today: Date): (r: Result<Date, LeaveFormError>)
    ensures r.Err? <==> start < today
    ensures r.Ok? ==> r.value == start
    ensures r.Err? ==> r.error == StartInPast
  {
    if start < today then Err(StartInPast) else Ok(start)
  }

  /** Holiday.objects.filter(date__range=(start, end)): inclusive at both ends, in table order. */
  function HolidaysInRange(holidays: seq<Holiday>, start: Date, end: Date): (r: seq<Holiday>)
    ensures forall h :: h in r <==> h in holidays && start <= h.date <= end
    ensures |r| <= |holidays|
  {
    if holidays == [] then []
    else
      var rest := HolidaysInRange(holidays[1..], start, end);
      if start <= holidays[0].date <= end then [holidays[0]] + rest else rest
  }

  /** [h.name for h in holidays] */
  function Names(holidays: seq<Holiday>): (r: seq<string>)
    ensures |r| == |holidays|
    ensures forall i :: 0 <= i < |r| ==> r[i] == holidays[i].name
  {
    seq(|holidays|, i requires 0 <= i < |holidays| => holidays[i].name)
  }

  /**
   * LeaveForm.clean over the cleaned start and end: only when both are present is the
   * order checked, and only when they are ordered is the range checked for holidays,
   * whose names the error lists.
   */
  function Clean(start: Option<Date>, end: Option<Date>, holidays: seq<Holiday>): (r: Option<LeaveFormError>)
    ensures r.None? <==>
              start.None? || end.None? || (start.value <= end.value && !HolidayBetween(holidays, start.value, end.value))
    ensures r == Some(EndBeforeStart) <==> start.Some? && end.Some? && end.value < start.value
    ensures r.Some? ==> r.value.EndBeforeStart? || r.value.HolidayClash?
    ensures r.Some? && r.value.HolidayClash? ==>
              forall i :: 0 <= i < |holidays| && start.value <= holidays[i].date <= end.value ==>
                holidays[i].name in r.value.names
    ensures r.Some? && r.value.HolidayClash? ==>
              forall n :: n in r.value.names ==>
                exists i :: 0 <= i < |holidays| && start.value <= holidays[i].date <= end.value && holidays[i].name == n
  {
    if start.Some? && end.Some? then
      if end.value < start.value then Some(EndBeforeStart)
      else
        var clash := HolidaysInRange(holidays, start.value, end.value);
        if clash != [] then
          assert clash[0] in clash;
          Some(HolidayClash(Names(clash)))
        else
          None
    else
      None
  }

  /**
   * All errors of a submitted LeaveForm, in the order Django raises them: field by field
   * (start_date with clean_start_date, end_date, reason), then clean(). A start refused
   * by clean_start_date is dropped from the cleaned data, so clean() then checks nothing.
   */
  function LeaveFormErrors(start: Option<Date>, end: Option<Date>, reason: Option<string>, today: Date,
                           holidays: seq<Holiday>): (errs: seq<LeaveFormError>)
    ensures errs == [] <==>
              && start.Some? && end.Some? && reason.Some?
              && today <= start.value <= end.value
              && !HolidayBetween(holidays, start.value, end.value)
    ensures start.Some? && start.value < today ==>
              StartInPast in errs && EndBeforeStart !in errs && forall e :: e in errs ==> !e.HolidayClash?
    ensures start == Some(today) ==> StartInPast !in errs
    ensures start.Some? && end.Some? && start.value == end.value ==> EndBeforeStart !in errs
    ensures start.Some? && end.Some? && today <= start.value && end.value < start.value ==> EndBeforeStart in errs
    ensures forall i :: 0 <= i < |holidays| && start.Some? && end.Some? && today <= start.value <= holidays[i].date <= end.value ==>
              exists e :: e in errs && e.HolidayClash? && holidays[i].name in e.names
  {
    var startErrs: seq<LeaveFormError> :=
      if start.None? then [Required("start_date")]
      else if CleanStartDate(start.value, today).Err? then [CleanStartDate(start.value, today).error]
      else [];
    var cleanedStart: Option<Date> :=
      if start.Some? && CleanStartDate(start.value, today).Ok? then Some(CleanStartDate(start.value, today).value)
      else None;
    var endErrs := if end.None? then [Required("end_date")] else [];
    var reasonErrs := if reason.None? then [Required("reason")] else [];
    var formErr := Clean(cleanedStart, end, holidays);
    var errs := startErrs + endErrs + reasonErrs + (if formErr.Some? then [formErr.value] else []);
    assert formErr.Some? ==> formErr.value in errs;
    errs
  }

  lemma {:induction false} JoinContainsEachPart(parts: seq<string>, sep: string, i: nat)
    requires i < |parts|
    ensures Occurs(parts[i], Join(parts, sep))
  {
    var s := Join(parts, sep);
    if |parts| == 1 {
      assert s[0..|parts[0]|] == parts[0];
      assert OccursAt(parts[i], s, 0);
    } else if i == 0 {
      assert s == parts[0] + (sep + Join(parts[1..], sep));
      assert s[0..|parts[0]|] == parts[0];
      assert OccursAt(parts[i], s, 0);
    } else {
      var rest := Join(parts[1..], sep);
      JoinContainsEachPart(parts[1..], sep, i - 1);
      var k: nat :| OccursAt(parts[1..][i - 1], rest, k);
      var off := |parts[0] + sep|;
      assert s == (parts[0] + sep) + rest;
      assert s[off + k..off + k + |parts[i]|] == rest[k..k + |parts[i]|];
      assert OccursAt(parts[i], s, off + k);
    }
  }

  /** A text found in `s` is still found once `s` is wrapped between a prefix and a suffix. */
  lemma OccursInside(part: string, s: string, prefix: string, suffix: string)
    requires Occurs(part, s)
    ensures Occurs(part, prefix + s + suffix)
  {
    var k: nat :| OccursAt(part, s, k);
    var m := prefix + s + suffix;
    assert m[|prefix| + k..|prefix| + k + |part|] == s[k..k + |part|];
    assert OccursAt(part, m, |prefix| + k);
  }

  /** Each part occurs in its parts joined by `sep` and wrapped between a prefix and a suffix. */
  lemma WrappedJoinContainsEach(parts: seq<string>, sep: string, prefix: string, suffix: string)
    ensures forall i :: 0 <= i < |parts| ==> Occurs(parts[i], prefix + Join(parts, sep) + suffix)
  {
    forall i | 0 <= i < |parts|
      ensures Occurs(parts[i], prefix + Join(parts, sep) + suffix)
    {
      JoinContainsEachPart(parts, sep, i);
      OccursInside(parts[i], Join(parts, sep), prefix, suffix);
    }
  }

  datatype ManualFormError = UserNotAChoice | DateRequired | StatusNotAChoice

  /**
   * ManualAttendanceForm: the user must be a registered user (ModelChoiceField), the date
   * must be given, and the status must be one of Attendance.STATUS_CHOICES (ChoiceField).
   */
  function ManualAttendanceErrors(users: seq<UserId>, user: Option<UserId>, date: Option<Date>, status: string)
    : (errs: seq<ManualFormError>)
    ensures errs == [] <==> user.Some? && user.value in users && date.Some? && IsAttendanceStatus(status)
    ensures StatusNotAChoice in errs <==> !IsAttendanceStatus(status)
  {
    (if user.None? || user.value !in users then [UserNotAChoice] else [])
    + (if date.None? then [DateRequired] else [])
    + (if IsAttendanceStatus(status) then [] else [StatusNotAChoice])
  }
}
