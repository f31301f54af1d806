/**
  `DueDateCalculator.calculateDueDate`: validate the submission, then walk a
  cursor through the Monday..Friday, 09:00..17:00 calendar until the budget of
  working minutes is used up.

  The turnaround is given as a whole number of minutes, the `turnaroundHours *
  60` the calculator starts its loop with. The thrown errors become the closed
  set `ErrorKind`.
 */
module DueDate {
  import opened Calendar
  import opened WorkingTime

  /** The three errors the calculator throws, in the order it checks them. */
  datatype ErrorKind = OutsideWorkingDays | OutsideWorkingHours | InvalidTurnaround

  /** Outcome of validation: the first failing check, if any. */
  datatype Check = Pass | Fail(kind: ErrorKind)

  /** Outcome of the whole calculation: a due instant or the error thrown. */
  datatype Outcome = Due(due: Instant) | Rejected(kind: ErrorKind)

  /**
    `validateSubmitDate`: the weekday is checked first, then the hour, then the
    turnaround; the first failing check decides the error. The hour check
    accepts 09:00..17:59 and never looks at the minutes.
   */
  function ValidateSubmitDate(submit: Instant, turnaroundMinutes: int): (r: Check)
    ensures r == Fail(OutsideWorkingDays) <==> GetDay(submit.day) == 0 || GetDay(submit.day) == 6
    ensures r == Fail(OutsideWorkingHours) <==>
              && GetDay(submit.day) != 0 && GetDay(submit.day) != 6
              && (submit.minuteOfDay < WorkStartMinute || (WorkingEndHour + 1) * 60 <= submit.minuteOfDay)
    ensures r == Fail(InvalidTurnaround) <==>
              && GetDay(submit.day) != 0 && GetDay(submit.day) != 6
              && WorkStartMinute <= submit.minuteOfDay < (WorkingEndHour + 1) * 60
              && turnaroundMinutes <= 0
    ensures r == Pass <==>
              && GetDay(submit.day) != 0 && GetDay(submit.day) != 6
              && WorkStartMinute <= submit.minuteOfDay < (WorkingEndHour + 1) * 60
              && turnaroundMinutes > 0
  {
    if !IsWorkingDay(submit.day) then Fail(OutsideWorkingDays)
    else if !IsWithinWorkingHours(submit) then Fail(OutsideWorkingHours)
    else if turnaroundMinutes <= 0 then Fail(InvalidTurnaround)
    else Pass
  }

  /**
    First component of the loop's termination measure. It is the budget, plus
    one more than the overshoot past 17:00 when the cursor sits at or after
    17:00: from there the loop moves to the next day without lowering the
    budget (at 17:00) or even raises it by the overshoot (after 17:00).
   */
  function Measure(c: Instant, left: int): nat
  {
    if left <= 0 then 0
    else if c.minuteOfDay >= WorkEndMinute then left + (c.minuteOfDay - WorkEndMinute) + 1
    else left
  }

  /**
    The `while (turnaroundMinutesLeft > 0)` loop, one iteration per call.
    On a working day: finish on the same day when the minutes left today cover
    the budget, otherwise charge the minutes left today (negative after 17:00)
    and move to 09:00 of the next day. On any other day: move to the next day
    and charge nothing.

    With a positive budget the result is a slot counted from the cursor: on a
    working day, its minute of day no later than 17:00, and after the cursor
    on its day or after 09:00 on a later day. Seconds and milliseconds survive only a same-day finish.
   */
  function Advance(c: Instant, left: int): (r: Instant)
    ensures left <= 0 ==> r == c
    ensures left > 0 ==> IsSlot(c, r)
    ensures left > 0 && r.day == c.day ==> r.millis == c.millis
    ensures r.day > c.day ==> r.millis == 0
    decreases Measure(c, left), DaysToWorkingDay(c.day)
  {
    if left <= 0 then c
    else if IsWorkingDay(c.day) then
      var minutesLeft := MinutesLeftCurrentDay(c);
      if minutesLeft >= left then AddMinutes(c, left)
      else Advance(SetToNextDay(c), left - minutesLeft)
    else
      DaysToWorkingDayStep(c.day);
      Advance(SetToNextDay(c), left)
  }

  /**
    The loop consumes exactly its budget: counted from the cursor, the result
    lies `left` working minutes later. After a 17:xx start the first day's
    count is negative, which is how the raised budget of the first iteration
    is paid back.
   */
  lemma {:induction false} AdvanceConsumesBudget(c: Instant, left: int)
    requires left > 0
    ensures c.day <= Advance(c, left).day
    ensures WorkingMinutesBetween(c, Advance(c, left)) == left
    decreases Measure(c, left), DaysToWorkingDay(c.day)
  {
    if IsWorkingDay(c.day) {
      var minutesLeft := MinutesLeftCurrentDay(c);
      if minutesLeft < left {
        var n := SetToNextDay(c);
        AdvanceConsumesBudget(n, left - minutesLeft);
      }
    } else {
      DaysToWorkingDayStep(c.day);
      AdvanceConsumesBudget(SetToNextDay(c), left);
    }
  }

  /**
    `calculateDueDate`. A rejection happens exactly when validation fails and
    carries the first failing check. Otherwise the due instant lies on a
    working day with its minute of day between 09:00 (exclusive) and 17:00
    (inclusive; seconds may still follow 17:00), no earlier
    than the submission's day, exactly the budget's worth of working minutes
    after the submission.
   */
  function CalculateDueDate(submit: Instant, turnaroundMinutes: int): (r: Outcome)
    ensures r.Rejected? <==> ValidateSubmitDate(submit, turnaroundMinutes).Fail?
    ensures r.Rejected? ==> ValidateSubmitDate(submit, turnaroundMinutes) == Fail(r.kind)
    ensures r.Due? ==> IsSlot(submit, r.due) && WorkStartMinute < r.due.minuteOfDay
    ensures r.Due? ==> WorkingMinutesBetween(submit, r.due) == turnaroundMinutes
  {
    match ValidateSubmitDate(submit, turnaroundMinutes)
    case Fail(kind) => Rejected(kind)
    case Pass =>
      AdvanceConsumesBudget(submit, turnaroundMinutes);
      Due(Advance(submit, turnaroundMinutes))
  }

  /**
    The same calculation written as the calculator's `while` loop over a copy of
    the submission; it computes exactly the recursive definition's outcome.
   */
  method CalculateDueDateLoop(submit: Instant, turnaroundMinutes: int) returns (r: Outcome)
    ensures r == CalculateDueDate(submit, turnaroundMinutes)
  {
    var check := ValidateSubmitDate(submit, turnaroundMinutes);
    if check.Fail? {
      return Rejected(check.kind);
    }
    var dueDate := submit;
    var minutesLeftTotal := turnaroundMinutes;
    while minutesLeftTotal > 0
      invariant Advance(dueDate, minutesLeftTotal) == Advance(submit, turnaroundMinutes)
      decreases Measure(dueDate, minutesLeftTotal), DaysToWorkingDay(dueDate.day)
    {
      if IsWorkingDay(dueDate.day) {
        var minutesLeftCurrentDay := MinutesLeftCurrentDay(dueDate);
        if minutesLeftCurrentDay >= minutesLeftTotal {
          dueDate := AddMinutes(dueDate, minutesLeftTotal);
          minutesLeftTotal := 0;
        } else {
          minutesLeftTotal := minutesLeftTotal - minutesLeftCurrentDay;
          dueDate := SetToNextDay(dueDate);
        }
      } else {
        DaysToWorkingDayStep(dueDate.day);
        dueDate := SetToNextDay(dueDate);
      }
    }
    r := Due(dueDate);
  }

  /**
    The due instant is the only slot at the budget's distance: any instant on a
    working day, with minute of day in (09:00, 17:00] on a later day and after
    the submission on its own day, that lies the same number of working minutes
    away falls on the same day and minute. The next working day's 09:00 is left
    out because it ties with 17:00 (`ClosingTiesWithNextOpening`).
   */
  lemma DueDateUnique(submit: Instant, turnaroundMinutes: int, t: Instant)
    requires CalculateDueDate(submit, turnaroundMinutes).Due?
    requires IsSlot(submit, t) && WorkingMinutesBetween(submit, t) == turnaroundMinutes
    ensures t.day == CalculateDueDate(submit, turnaroundMinutes).due.day
    ensures t.minuteOfDay == CalculateDueDate(submit, turnaroundMinutes).due.minuteOfDay
  {
    var d := CalculateDueDate(submit, turnaroundMinutes).due;
    SlotDeterminedByWorkingMinutes(submit, t, d);
  }

  /** A longer turnaround from the same submission gives a strictly later due time. */
  lemma DueDateMonotone(submit: Instant, shorter: int, longer: int)
    requires CalculateDueDate(submit, shorter).Due? && shorter < longer
    ensures CalculateDueDate(submit, longer).Due?
    ensures Before(CalculateDueDate(submit, shorter).due, CalculateDueDate(submit, longer).due)
  {
    var d1 := CalculateDueDate(submit, shorter).due;
    var d2 := CalculateDueDate(submit, longer).due;
    if !Before(d1, d2) {
      if Before(d2, d1) {
        SlotsOrderedByWorkingMinutes(submit, d2, d1);
      }
      assert false;
    }
  }

  /**
    A whole number of turnaround hours keeps the minute of the hour: every
    working day is a whole number of hours long, so the due time shows the
    submission's minutes.
   */
  lemma MinuteOfHourPreserved(submit: Instant, turnaroundHours: int)
    requires CalculateDueDate(submit, turnaroundHours * 60).Due?
    ensures Minutes(CalculateDueDate(submit, turnaroundHours * 60).due) == Minutes(submit)
  {
    var d := CalculateDueDate(submit, turnaroundHours * 60).due;
    WorkingMinutesAgreeModHour(submit, d);
    var gap := WorkingMinutesBetween(submit, d) - (d.minuteOfDay - submit.minuteOfDay);
    var q := gap / 60;
    assert gap == 60 * q;
    assert d.minuteOfDay == submit.minuteOfDay + 60 * (turnaroundHours - q);
    ShiftByHours(submit.minuteOfDay, turnaroundHours - q);
  }

  /** Moving a minute of day by whole hours keeps the minute of the hour. */
  lemma ShiftByHours(m: int, h: int)
    ensures (m + 60 * h) % 60 == m % 60
  {
  }
}
