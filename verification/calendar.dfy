/**
  The business calendar of the due-date calculator.

  A JavaScript `Date` is abstracted to an `Instant`: a day counter, the minute
  of that day, and the milliseconds inside that minute. Day 0 is 1970-01-01,
  which was a Thursday, so the `getDay` convention (0 = Sunday, 6 = Saturday)
  becomes `(day + 4) % 7`. Dafny's `%` is Euclidean, so days before the epoch
  get a weekday in 0..6 as well. Month lengths, time zones and daylight saving
  are not part of this model.
 */
module Calendar {

  type MinuteOfDay = m: int | 0 <= m < 1440
  type MilliOfMinute = ms: int | 0 <= ms < 60000

  /** A point in local time: calendar day, minute of that day, sub-minute part. */
  datatype Instant = Instant(day: int, minuteOfDay: MinuteOfDay, millis: MilliOfMinute)

  /** Weekdays the calculator treats as working days, in `getDay` numbering. */
  const WorkingDays: seq<int> := [1, 2, 3, 4, 5]
  const WorkingStartHour: int := 9
  const WorkingEndHour: int := 17

  /** Minute of day at which the working window opens (09:00) and closes (17:00). */
  const WorkStartMinute: int := WorkingStartHour * 60
  const WorkEndMinute: int := WorkingEndHour * 60
  /** Working minutes in one full working day. */
  const WorkDayMinutes: int := WorkEndMinute - WorkStartMinute

  /** Weekday of 1970-01-01 in `getDay` numbering (Thursday). */
  const EpochWeekday: int := 4

  /** `Date.getDay`: 0 is Sunday, 6 is Saturday. */
  function GetDay(day: int): (w: int)
    ensures 0 <= w < 7
  {
    (day + EpochWeekday) % 7
  }

  /** `Date.getHours`. */
  function Hours(c: Instant): int
  {
    c.minuteOfDay / 60
  }

  /** `Date.getMinutes`. */
  function Minutes(c: Instant): int
  {
    c.minuteOfDay % 60
  }

  /** The weekday advances by one, modulo the week, from one day to the next. */
  lemma GetDayNext(day: int)
    ensures GetDay(day + 1) == (GetDay(day) + 1) % 7
  {
  }

  /**
    `isWorkingDay`: the weekday is one of Monday..Friday, so a day is a working
    day exactly when it is neither a Sunday (0) nor a Saturday (6).
   */
  function IsWorkingDay(day: int): (r: bool)
    ensures r <==> GetDay(day) != 0 && GetDay(day) != 6
  {
    GetDay(day) in WorkingDays
  }

  /**
    `isWithinWorkingHours`: only the hour is inspected, and both ends are
    inclusive, so every minute from 09:00 to 17:59 is accepted.
   */
  function IsWithinWorkingHours(c: Instant): (r: bool)
    ensures r <==> WorkStartMinute <= c.minuteOfDay < (WorkingEndHour + 1) * 60
  {
    var hours := Hours(c);
    hours >= WorkingStartHour && hours <= WorkingEndHour
  }

  /**
    `getMinutesLeftCurrentDay`: minutes from the cursor to 17:00. It is zero at
    17:00 and negative from 17:01 on.
   */
  function MinutesLeftCurrentDay(c: Instant): (r: int)
    ensures r == WorkEndMinute - c.minuteOfDay
    ensures r == 0 <==> c.minuteOfDay == WorkEndMinute
    ensures r < 0 <==> c.minuteOfDay > WorkEndMinute
    ensures WorkStartMinute <= c.minuteOfDay ==> r <= WorkDayMinutes
  {
    WorkingEndHour * 60 - (Hours(c) * 60 + Minutes(c))
  }

  /**
    `setToNextDay`: the next calendar day at exactly 09:00:00.000, whatever the
    time of day was before.
   */
  function SetToNextDay(c: Instant): (r: Instant)
    ensures r.day == c.day + 1
    ensures Hours(r) == WorkingStartHour && Minutes(r) == 0 && r.millis == 0
    ensures GetDay(r.day) == (GetDay(c.day) + 1) % 7
  {
    GetDayNext(c.day);
    Instant(c.day + 1, WorkingStartHour * 60, 0)
  }

  /**
    `dueDate.setMinutes(dueDate.getMinutes() + n)` when the sum stays inside the
    same day: the hour is kept, the minutes grow by `n`, seconds and
    milliseconds are untouched.
   */
  function AddMinutes(c: Instant, n: nat): (r: Instant)
    requires c.minuteOfDay + n < 1440
    ensures r.day == c.day && r.millis == c.millis
    ensures r.minuteOfDay == c.minuteOfDay + n
  {
    Instant(c.day, Hours(c) * 60 + (Minutes(c) + n), c.millis)
  }

  /**
    How many calendar days the skip branch has to step over before it reaches a
    working day: never more than two (Saturday and Sunday).
   */
  function DaysToWorkingDay(day: int): (n: nat)
    ensures n <= 2
    ensures IsWorkingDay(day + n)
    ensures n > 0 <==> !IsWorkingDay(day)
    ensures n > 1 ==> !IsWorkingDay(day + 1)
  {
    GetDayNext(day);
    GetDayNext(day + 1);
    var w := GetDay(day);
    if w == 6 then 2 else if w == 0 then 1 else 0
  }

  /** Skipping one non-working day brings the next working day one day closer. */
  lemma DaysToWorkingDayStep(day: int)
    requires !IsWorkingDay(day)
    ensures DaysToWorkingDay(day + 1) == DaysToWorkingDay(day) - 1
  {
    GetDayNext(day);
  }
}
