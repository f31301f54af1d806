/**
  The calculator's test scenarios, on the local-time test file's dates, plus
  the boundary cases of the hour check.

  Days are counted from 1970-01-01; 2025-03-25 is day 20172, a Tuesday.
 */
module Scenarios {
  import opened Calendar
  import opened DueDate

  const Tue25Mar2025: int := 20172
  const Wed26Mar2025: int := 20173
  const Thu27Mar2025: int := 20174
  const Fri28Mar2025: int := 20175
  const Sat29Mar2025: int := 20176
  const Mon31Mar2025: int := 20178
  const Tue01Apr2025: int := 20179

  /** Wall-clock time `hh:mm:00.000` on `day`. */
  function At(day: int, hh: int, mm: int): Instant
    requires 0 <= hh < 24 && 0 <= mm < 60
  {
    Instant(day, hh * 60 + mm, 0)
  }

  /** The named days fall on the weekdays their names say. */
  lemma WeekdaysOfTestDates()
    ensures GetDay(Tue25Mar2025) == 2 && GetDay(Fri28Mar2025) == 5
    ensures GetDay(Sat29Mar2025) == 6 && GetDay(Mon31Mar2025) == 1
    ensures GetDay(Tue01Apr2025) == 2
  {
  }

  /** Friday 09:00 plus 8 hours is Friday 17:00. */
  lemma SameDayFillsWindow()
    ensures CalculateDueDate(At(Fri28Mar2025, 9, 0), 8 * 60) == Due(At(Fri28Mar2025, 17, 0))
  {
  }

  /** Tuesday 14:12 plus 16 hours is Thursday 14:12. */
  lemma TwoDaysKeepMinutes()
    ensures CalculateDueDate(At(Tue25Mar2025, 14, 12), 16 * 60) == Due(At(Thu27Mar2025, 14, 12))
  {
    assert IsWorkingDay(Tue25Mar2025) && IsWorkingDay(Wed26Mar2025) && IsWorkingDay(Thu27Mar2025);
    assert Advance(At(Tue25Mar2025, 14, 12), 960) == Advance(At(Wed26Mar2025, 9, 0), 792);
    assert Advance(At(Wed26Mar2025, 9, 0), 792) == Advance(At(Thu27Mar2025, 9, 0), 312);
    assert Advance(At(Thu27Mar2025, 9, 0), 312) == At(Thu27Mar2025, 14, 12);
  }

  /** Tuesday 12:15 plus 5 hours is Wednesday 09:15. */
  lemma CrossesOneBoundary()
    ensures CalculateDueDate(At(Tue25Mar2025, 12, 15), 5 * 60) == Due(At(Wed26Mar2025, 9, 15))
  {
  }

  /** Friday 15:00 plus 16 hours skips the weekend: Tuesday 15:00. */
  lemma SkipsWeekend()
    ensures CalculateDueDate(At(Fri28Mar2025, 15, 0), 16 * 60) == Due(At(Tue01Apr2025, 15, 0))
  {
  }

  /** A Saturday submission is rejected as outside working days. */
  lemma SaturdayRejected()
    ensures CalculateDueDate(At(Sat29Mar2025, 9, 0), 8 * 60) == Rejected(OutsideWorkingDays)
  {
  }

  /** A Friday 08:00 submission is rejected as outside working hours. */
  lemma EarlyMorningRejected()
    ensures CalculateDueDate(At(Fri28Mar2025, 8, 0), 8 * 60) == Rejected(OutsideWorkingHours)
  {
  }

  /** A turnaround of 0 or -8 hours is rejected. */
  lemma NonPositiveTurnaroundRejected()
    ensures CalculateDueDate(At(Fri28Mar2025, 9, 0), 0) == Rejected(InvalidTurnaround)
    ensures CalculateDueDate(At(Fri28Mar2025, 9, 0), -8 * 60) == Rejected(InvalidTurnaround)
  {
  }

  /** The weekday check comes first: a Saturday 08:00 submission with no turnaround is a weekday error. */
  lemma WeekdayCheckedFirst()
    ensures CalculateDueDate(At(Sat29Mar2025, 8, 0), 0) == Rejected(OutsideWorkingDays)
  {
  }

  /** The hour check comes before the turnaround check. */
  lemma HourCheckedBeforeTurnaround()
    ensures CalculateDueDate(At(Fri28Mar2025, 18, 0), 0) == Rejected(OutsideWorkingHours)
  {
  }

  /** 08:59 is rejected, 17:59 is accepted, 18:00 is rejected. */
  lemma HourCheckBoundaries()
    ensures CalculateDueDate(At(Fri28Mar2025, 8, 59), 60) == Rejected(OutsideWorkingHours)
    ensures CalculateDueDate(At(Fri28Mar2025, 17, 59), 60).Due?
    ensures CalculateDueDate(At(Fri28Mar2025, 18, 0), 60) == Rejected(OutsideWorkingHours)
  {
  }

  /**
    A 17:30 submission is accepted, and its half hour past closing is added to
    the budget: one hour from Thursday 17:30 is Friday 10:30, not 10:00.
   */
  lemma LateSubmissionInflatesBudget()
    ensures CalculateDueDate(At(Thu27Mar2025, 17, 30), 60) == Due(At(Fri28Mar2025, 10, 30))
  {
  }

  /**
    An exact fit finishes at closing time: one hour from Thursday 16:00 is
    Thursday 17:00, although Friday 09:00 is the same working minutes away.
   */
  lemma ExactFitEndsAtClosing()
    ensures CalculateDueDate(At(Thu27Mar2025, 16, 0), 60) == Due(At(Thu27Mar2025, 17, 0))
    ensures WorkingTime.WorkingMinutesBetween(At(Thu27Mar2025, 16, 0), At(Fri28Mar2025, 9, 0)) == 60
  {
  }

  /** A 17:00 submission charges nothing on its own day. */
  lemma ClosingTimeSubmission()
    ensures CalculateDueDate(At(Fri28Mar2025, 17, 0), 60) == Due(At(Mon31Mar2025, 10, 0))
  {
  }

  /**
    Seconds are carried on a same-day finish: one minute from 16:59:30 is
    17:00:30, half a minute past closing.
   */
  lemma SecondsCarriedSameDay()
    ensures CalculateDueDate(Instant(Fri28Mar2025, 16 * 60 + 59, 30000), 1)
            == Due(Instant(Fri28Mar2025, 17 * 60, 30000))
  {
  }
}
