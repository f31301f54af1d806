/**
  A reference count of working time, independent of the calculator's loop.

  `WorkingMinutesBetween(a, b)` counts the working minutes from `a` to an
  instant `b` on a working day: what is left of `a`'s day up to 17:00 (if
  `a`'s day is a working day), 480 minutes for every working day strictly in
  between, and the minutes from 09:00 to `b` on `b`'s day. The first term is
  deliberately signed: the calculator accepts submissions up to 17:59, and for
  those it counts the minutes past 17:00 as negative working time.
 */
module WorkingTime {
  import opened Calendar

  /** Working minutes a whole calendar day contributes. */
  function DayCredit(day: int): int
  {
    if IsWorkingDay(day) then WorkDayMinutes else 0
  }

  /** Working minutes of the whole days `lo`, `lo + 1`, ..., `hi - 1`. */
  function FullDays(lo: int, hi: int): (s: int)
    ensures s >= 0
    ensures lo <= hi ==> s <= WorkDayMinutes * (hi - lo)
    decreases hi - lo
  {
    if lo >= hi then 0 else DayCredit(lo) + FullDays(lo + 1, hi)
  }

  /** Whole days add up to a whole number of working days of 480 minutes. */
  lemma {:induction false} FullDaysWholeDays(lo: int, hi: int) returns (days: nat)
    ensures FullDays(lo, hi) == WorkDayMinutes * days
    decreases hi - lo
  {
    if lo >= hi {
      days := 0;
    } else {
      var rest := FullDaysWholeDays(lo + 1, hi);
      days := rest + (if IsWorkingDay(lo) then 1 else 0);
    }
  }

  /**
    Working minutes left on the first day, counted from `a` to 17:00: nothing on
    a non-working day, at most a full day from 09:00 on, and negative exactly
    when `a` is past 17:00 on a working day.
   */
  function FirstDayCredit(a: Instant): (r: int)
    ensures !IsWorkingDay(a.day) ==> r == 0
    ensures WorkStartMinute <= a.minuteOfDay ==> r <= WorkDayMinutes
    ensures r < 0 <==> IsWorkingDay(a.day) && a.minuteOfDay > WorkEndMinute
  {
    if IsWorkingDay(a.day) then WorkEndMinute - a.minuteOfDay else 0
  }

  /**
    Signed working minutes from `a` to `b`, for `b` on a working day. Across
    days, the count is at least the two partial days' minutes.
   */
  function WorkingMinutesBetween(a: Instant, b: Instant): (r: int)
    requires a.day <= b.day
    ensures a.day < b.day ==> FirstDayCredit(a) + (b.minuteOfDay - WorkStartMinute) <= r
  {
    if a.day == b.day then b.minuteOfDay - a.minuteOfDay
    else FirstDayCredit(a) + FullDays(a.day + 1, b.day) + (b.minuteOfDay - WorkStartMinute)
  }

  /** Across days, the count exceeds the two partial days by at most 480 per day in between. */
  lemma WorkingMinutesBetweenAtMost(a: Instant, b: Instant)
    requires a.day < b.day
    ensures WorkingMinutesBetween(a, b)
            <= FirstDayCredit(a) + WorkDayMinutes * (b.day - a.day - 1) + (b.minuteOfDay - WorkStartMinute)
  {
  }

  /** Strict order of instants by day, then minute of day (sub-minute ignored). */
  predicate Before(t1: Instant, t2: Instant)
  {
    t1.day < t2.day || (t1.day == t2.day && t1.minuteOfDay < t2.minuteOfDay)
  }

  /**
    The places a due date counted from `a` may rest: a working day no earlier
    than `a`'s, with minute of day at most 17:00 (seconds may follow), strictly after `a` on `a`'s own day and strictly
    after 09:00 on any later day.
   */
  predicate IsSlot(a: Instant, t: Instant)
  {
    && a.day <= t.day
    && IsWorkingDay(t.day)
    && t.minuteOfDay <= WorkEndMinute
    && (if t.day == a.day then a.minuteOfDay < t.minuteOfDay else WorkStartMinute < t.minuteOfDay)
  }

  /** Extending a run of whole days by its last day adds that day's credit. */
  lemma {:induction false} FullDaysSnoc(lo: int, hi: int)
    requires lo <= hi
    ensures FullDays(lo, hi + 1) == FullDays(lo, hi) + DayCredit(hi)
    decreases hi - lo
  {
    if lo < hi {
      FullDaysSnoc(lo + 1, hi);
    }
  }

  /** A longer run of whole days never holds fewer working minutes. */
  lemma {:induction false} FullDaysMonotone(lo: int, hi1: int, hi2: int)
    requires lo <= hi1 <= hi2
    ensures FullDays(lo, hi1) <= FullDays(lo, hi2)
    decreases hi2 - hi1
  {
    if hi1 < hi2 {
      FullDaysSnoc(lo, hi2 - 1);
      FullDaysMonotone(lo, hi1, hi2 - 1);
    }
  }

  /** Along the slots, the working-minute count is strictly increasing. */
  lemma SlotsOrderedByWorkingMinutes(a: Instant, t1: Instant, t2: Instant)
    requires IsSlot(a, t1) && IsSlot(a, t2) && Before(t1, t2)
    ensures WorkingMinutesBetween(a, t1) < WorkingMinutesBetween(a, t2)
  {
    if t1.day < t2.day && t1.day > a.day {
      FullDaysSnoc(a.day + 1, t1.day);
      FullDaysMonotone(a.day + 1, t1.day + 1, t2.day);
    }
  }

  /** Two slots at the same working-minute count are the same minute. */
  lemma SlotDeterminedByWorkingMinutes(a: Instant, t1: Instant, t2: Instant)
    requires IsSlot(a, t1) && IsSlot(a, t2)
    requires WorkingMinutesBetween(a, t1) == WorkingMinutesBetween(a, t2)
    ensures t1.day == t2.day && t1.minuteOfDay == t2.minuteOfDay
  {
    if Before(t1, t2) {
      SlotsOrderedByWorkingMinutes(a, t1, t2);
    } else if Before(t2, t1) {
      SlotsOrderedByWorkingMinutes(a, t2, t1);
    }
  }

  /**
    17:00 on a working day and 09:00 on the next working day are the same
    number of working minutes after any earlier start. This tie is why slots
    exclude 09:00 on later days, and why the loop's `>=` test, which finishes
    on the same day when the minutes left exactly cover the budget, picks 17:00.
   */
  lemma ClosingTiesWithNextOpening(a: Instant, t: Instant)
    requires a.day <= t.day && IsWorkingDay(t.day) && t.minuteOfDay == WorkEndMinute
    ensures var next := Instant(t.day + 1 + DaysToWorkingDay(t.day + 1), WorkStartMinute, 0);
            IsWorkingDay(next.day) && WorkingMinutesBetween(a, next) == WorkingMinutesBetween(a, t)
  {
    var lo := a.day + 1;
    var next := t.day + 1 + DaysToWorkingDay(t.day + 1);
    SkipToWorkingDayAddsNothing(lo, t.day + 1);
    assert FullDays(lo, next) == FullDays(lo, t.day + 1);
    if a.day < t.day {
      FullDaysSnoc(lo, t.day);
    }
  }

  /** The non-working days skipped before the next working day add no working minutes. */
  lemma SkipToWorkingDayAddsNothing(lo: int, d: int)
    requires lo <= d
    ensures FullDays(lo, d + DaysToWorkingDay(d)) == FullDays(lo, d)
  {
    var k := DaysToWorkingDay(d);
    if k > 0 {
      FullDaysSnoc(lo, d);
      assert DayCredit(d) == 0;
    }
    if k > 1 {
      FullDaysSnoc(lo, d + 1);
      assert DayCredit(d + 1) == 0;
    }
  }

  /**
    Counted from a working day, the working minutes and the wall-clock minute
    difference agree modulo an hour: every full working day is 8 hours, and the
    first and last partial days together span `b - a` minutes minus 8 hours.
   */
  lemma WorkingMinutesAgreeModHour(a: Instant, b: Instant)
    requires a.day <= b.day && IsWorkingDay(a.day)
    ensures (WorkingMinutesBetween(a, b) - (b.minuteOfDay - a.minuteOfDay)) % 60 == 0
  {
    if a.day < b.day {
      var k := FullDaysWholeDays(a.day + 1, b.day);
      var gap := WorkingMinutesBetween(a, b) - (b.minuteOfDay - a.minuteOfDay);
      assert gap == 60 * (8 * k + 8);
      WholeHours(8 * k + 8);
    }
  }

  /** A whole number of hours is a multiple of 60 minutes. */
  lemma WholeHours(h: int)
    ensures (60 * h) % 60 == 0
  {
  }
}
