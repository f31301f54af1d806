# Due-date calculator, modelled in Dafny

This project models `DueDateCalculator.calculateDueDate` from an issue
tracker. The method takes the instant a problem was reported and a turnaround
in working hours. It returns the instant the problem is due. The working
calendar is Monday to Friday, 09:00 to 17:00, with no holidays. The method
first validates its inputs, checking the weekday, then the hour, then the
turnaround. It then walks a cursor forward through the calendar, charging
minutes against a budget of `turnaroundHours * 60`.

The repository holds two copies of the class, `src/DueDateCalculator.ts`
and `src/dueDateCalculator.ts`. Their code is identical and only comments
and parameter names differ, so one model covers both (the line map is under
"Second copy" below).

Files:

- `calendar.dfy` (module `Calendar`): the `Instant` abstraction of a `Date`
  and the calendar helpers `isWorkingDay`, `isWithinWorkingHours`,
  `getMinutesLeftCurrentDay`, `setToNextDay` and the same-day `setMinutes`.
- `working_time.dfy` (module `WorkingTime`): a reference count of the
  working minutes between two instants. It does not depend on the loop.
- `due_date.dfy` (module `DueDate`): validation, the loop as a recursive
  function with its termination measure, `calculateDueDate` itself, the same
  loop written as a `while` loop, and the theorems tying the result to the
  reference count.
- `scenarios.dfy` (module `Scenarios`): the test scenarios and the boundary
  cases of the hour check.

## Abstraction

- An `Instant` is a day counter, a minute of the day (0..1439) and the
  milliseconds within the minute (0..59999). Day 0 is 1970-01-01, a
  Thursday, so `getDay()` (0 = Sunday) is `(day + 4) % 7`. `getHours()` and
  `getMinutes()` are `minuteOfDay / 60` and `minuteOfDay % 60`.
- The turnaround is a whole number of minutes. It stands for the budget
  `turnaroundHours * 60` of line 35. The check `turnaroundHours <= 0` is the
  same test on the minutes.
- Each thrown `Error` becomes one value of the closed enum `ErrorKind`.
- The input `Date` is never mutated. `Instant` is an immutable value, and
  the loop works on its own variable, just as line 33 copies the date.

## Behaviour followed as the code has it

- The hour check accepts any hour from 9 to 17, both inclusive, and it never
  reads the minutes. So 08:59 is rejected, 17:59 is accepted and 18:00 is
  rejected. A design that accepts exactly 17:00:00 and nothing later would
  reject 17:01..17:59. The model follows the code.
- For a submission from 17:01 to 17:59, the minutes left on the day are
  negative. The first iteration therefore raises the budget by the minutes
  past 17:00. Example: one hour from Thursday 17:30 is due Friday 10:30
  (`Scenarios.LateSubmissionInflatesBudget`). The termination measure counts
  this case: it is the budget, plus one more than the minutes past 17:00
  when the cursor is at or after 17:00, and then the days to the next
  working day. The reference count `WorkingMinutesBetween` is signed, so the
  result is still exactly the budget's worth of working minutes away.
- A same-day finish keeps the submission's seconds. The due time can
  therefore be 17:00:30 (`Scenarios.SecondsCarriedSameDay`). The minute of
  the day never exceeds 17:00.
- The code has no check for an invalid `Date` and none for a NaN
  turnaround. So there is no "invalid input" error kind.

## Model

| member | source | states |
|---|---|---|
| Calendar.GetDay | src/DueDateCalculator.ts:66 | `getDay()` from the day counter through the 1970-01-01 Thursday offset, always a weekday number 0..6 |
| Calendar.IsWorkingDay | src/DueDateCalculator.ts:65-68 | a day is a working day exactly when its `getDay` is neither Sunday (0) nor Saturday (6) |
| Calendar.IsWithinWorkingHours | src/DueDateCalculator.ts:76-79 | accepted exactly when the minute of day is in 09:00..17:59; the minutes never matter, only the hour |
| Calendar.MinutesLeftCurrentDay | src/DueDateCalculator.ts:105-107 | minutes left are 17:00 minus the minute of day: zero exactly at 17:00, negative exactly after 17:00, at most 480 from 09:00 on |
| Calendar.SetToNextDay | src/DueDateCalculator.ts:113-116 | the next calendar day, its weekday one further round the week, at 09:00 with zero milliseconds |
| Calendar.AddMinutes | src/DueDateCalculator.ts:44 | adding the remaining minutes within the day keeps the day and the sub-minute part and moves the minute of day forward by exactly that amount |
| Calendar.DaysToWorkingDay | src/DueDateCalculator.ts:51-54 | the skip branch reaches a working day within at most two calendar days, and every day it skips is a non-working day |
| Calendar.DaysToWorkingDayStep | src/dueDateCalculator.ts:51-54 | each skipped non-working day brings the next working day one day closer, which is what bounds the skip branch |
| WorkingTime.FullDays | src/DueDateCalculator.ts:8-11 | whole days count 8 working hours when Monday..Friday and nothing otherwise: the total is non-negative and at most 480 per day |
| WorkingTime.FullDaysWholeDays | src/DueDateCalculator.ts:8-11 | the whole days' total is exactly 480 minutes times a number of working days |
| WorkingTime.FirstDayCredit | src/DueDateCalculator.ts:105-107 | the first day's working minutes: none on a non-working day, at most 480 from 09:00 on, and negative exactly when the start is past 17:00 on a working day, like the negative minutes left |
| WorkingTime.WorkingMinutesBetween | src/DueDateCalculator.ts:11-13 | the reference count of working minutes: across days it is at least the two partial days' minutes |
| WorkingTime.WorkingMinutesBetweenAtMost | src/DueDateCalculator.ts:11-13 | across days the count exceeds the two partial days' minutes by at most 480 per day strictly in between |
| WorkingTime.SlotsOrderedByWorkingMinutes | src/DueDateCalculator.ts:8-13 | among instants on working days with minute of day in (09:00, 17:00] on a later day and after the start on its own day, a later one is strictly more working minutes after the start |
| WorkingTime.SlotDeterminedByWorkingMinutes | src/DueDateCalculator.ts:8-13 | two such instants the same number of working minutes after the start are the same day and minute |
| WorkingTime.ClosingTiesWithNextOpening | src/DueDateCalculator.ts:43 | 17:00 on a working day and 09:00 on the next working day are the same working minutes after any earlier start, the tie the `>=` test resolves in favour of 17:00 |
| WorkingTime.SkipToWorkingDayAddsNothing | src/DueDateCalculator.ts:51-54 | the non-working days the skip branch steps over before the next working day add no working minutes to the whole days' total |
| WorkingTime.WorkingMinutesAgreeModHour | src/DueDateCalculator.ts:11-13 | from a working day, the working-minute count and the wall-clock minute difference differ by a whole number of hours |
| DueDate.ValidateSubmitDate | src/DueDateCalculator.ts:86-98 | weekend first, then an hour outside 09:00..17:59, then a turnaround <= 0; each error happens exactly when the earlier checks pass and its own fails, and validation passes exactly when all three pass |
| DueDate.Advance | src/DueDateCalculator.ts:38-55 | with a positive budget the loop ends on a working day with minute of day at or before 17:00, after the cursor on its own day and after 09:00 on a later day; sub-minute parts survive only a same-day finish; with no budget the cursor is returned unchanged |
| DueDate.AdvanceConsumesBudget | src/DueDateCalculator.ts:41-54 | the loop charges exactly its budget: the result is never on an earlier day and lies exactly `left` working minutes after the cursor, the first day counted negative after 17:00 |
| DueDate.CalculateDueDate | src/DueDateCalculator.ts:28-58 | rejection exactly when validation fails, with the first failing check's error; otherwise a due instant on a working day with minute of day in (09:00, 17:00], no earlier than the submission, exactly the turnaround's working minutes after it |
| DueDate.CalculateDueDateLoop | src/DueDateCalculator.ts:33-57 | the `while` loop over a copy of the submission computes the same outcome as the recursive definition |
| DueDate.DueDateUnique | src/DueDateCalculator.ts:38-55 | any instant on a working day with minute of day in (09:00, 17:00] on a later day and after the submission on its own day, lying the turnaround's working minutes away, is the due date's day and minute |
| DueDate.DueDateMonotone | src/DueDateCalculator.ts:28-58 | a longer turnaround from the same submission is also accepted and gives a strictly later due date |
| DueDate.MinuteOfHourPreserved | src/DueDateCalculator.ts:34-48 | a whole number of turnaround hours leaves the minute of the hour unchanged (14:12 stays :12) |
| Scenarios.WeekdaysOfTestDates | test/dueDateCalculator.test.ts:11-46 | the test dates 2025-03-25, 03-28 and 03-29 and the expected 04-01 fall on Tuesday, Friday, Saturday and Tuesday; 2025-03-31, used by the closing-time case, is a Monday |
| Scenarios.SameDayFillsWindow | test/dueDateCalculator.test.ts:10-16 | Friday 09:00 plus 8 hours is Friday 17:00 |
| Scenarios.TwoDaysKeepMinutes | test/dueDateCalculator.test.ts:18-25 | Tuesday 14:12 plus 16 hours is Thursday 14:12 |
| Scenarios.CrossesOneBoundary | test/dueDateCalculator.test.ts:27-34 | Tuesday 12:15 plus 5 hours is Wednesday 09:15 |
| Scenarios.SkipsWeekend | test/dueDateCalculator.test.ts:36-43 | Friday 15:00 plus 16 hours is the following Tuesday 15:00 |
| Scenarios.SaturdayRejected | test/dueDateCalculator.test.ts:45-51 | a Saturday 09:00 submission is rejected as outside working days |
| Scenarios.EarlyMorningRejected | test/dueDateCalculator.test.ts:53-59 | a Friday 08:00 submission is rejected as outside working hours |
| Scenarios.NonPositiveTurnaroundRejected | test/dueDateCalculator.test.ts:61-75 | turnarounds of 0 and -8 hours are rejected as invalid turnarounds |
| Scenarios.WeekdayCheckedFirst | src/dueDateCalculator.ts:88-90 | a Saturday 08:00 submission with zero turnaround fails all three checks and reports the weekday error |
| Scenarios.HourCheckedBeforeTurnaround | src/dueDateCalculator.ts:92-98 | a Friday 18:00 submission with zero turnaround reports the hour error, not the turnaround error |
| Scenarios.HourCheckBoundaries | src/dueDateCalculator.ts:77-80 | 08:59 is rejected, 17:59 is accepted, 18:00 is rejected |
| Scenarios.LateSubmissionInflatesBudget | src/dueDateCalculator.ts:46-48 | one hour from Thursday 17:30 is Friday 10:30: the half hour past closing is added to the budget |
| Scenarios.ExactFitEndsAtClosing | src/DueDateCalculator.ts:42-45 | one hour from Thursday 16:00 is due Thursday 17:00, although Friday 09:00 is the same 60 working minutes away |
| Scenarios.ClosingTimeSubmission | src/dueDateCalculator.ts:101-103 | a Friday 17:00 submission has no minutes left that day, so one hour is due Monday 10:00 |
| Scenarios.SecondsCarriedSameDay | src/DueDateCalculator.ts:44 | one minute from 16:59:30 is 17:00:30: the same-day step keeps the seconds |

## Second copy

`src/dueDateCalculator.ts` differs from `src/DueDateCalculator.ts` only in
comments and parameter names. Every member above models both files at these
lines:

| operation | src/DueDateCalculator.ts | src/dueDateCalculator.ts |
|---|---|---|
| calculateDueDate | 28-58 | 28-58 |
| isWorkingDay | 65-68 | 66-69 |
| isWithinWorkingHours | 76-79 | 77-80 |
| validateSubmitDate | 86-98 | 87-99 |
| getMinutesLeftCurrentDay | 105-107 | 101-103 |
| setToNextDay | 113-116 | 105-108 |

## Left out

- The real JavaScript calendar is not modelled: month lengths, time zones,
  daylight saving, and local versus UTC getters. A date is a day counter
  with a fixed weekday rule. The UTC-getter test file
  `test/DueDateCalculator.test.ts` depends on the host's time zone, so its
  scenarios are taken from the local-time file instead.
- Fractional turnaround hours are not modelled. Neither is floating-point
  arithmetic in `turnaroundHours * 60`, nor the truncation `setMinutes`
  applies to a non-integer argument. The budget is a whole number of minutes.
- A NaN turnaround and an invalid `Date` are not modelled. The code has no
  check for either. NaN passes `turnaroundHours <= 0`, the loop never runs,
  and a copy of the submission comes back. For an invalid `Date`, `getDay()`
  is NaN and `[1, 2, 3, 4, 5].includes(NaN)` is false (lines 66-67), so the
  code throws the outside-working-days error of line 88; it does not return
  a copy. The UTC test file expects
  messages for these cases ("must be a valid Date object", "valid number
  greater than 0") that neither source file produces.
- Non-termination of the source is not modelled. The model's loop always
  ends only because the budget is an unbounded integer and the day counter
  has no limit. In the source, an `Infinity` turnaround passes the check
  `turnaroundHours <= 0` (src/DueDateCalculator.ts:95), the budget stays
  `Infinity` through line 48, and the loop at line 38 never exits. A finite
  turnaround of roughly 5.7e8 hours carries the cursor past the `Date` range
  of 8.64e15 ms. `setDate` then yields an invalid `Date` whose `getDay()` is
  NaN, and every pass takes the skip branch at lines 51-54, forever. The
  termination measure holds for the abstraction only.
- Exact error message strings are not modelled. They are replaced by
  `ErrorKind`.
- Calendar.AddMinutes: models `setMinutes` only when the sum stays within
  the day. The loop calls it only when the minute of day stays at or below
  17:00, so rolling over into the next day never occurs.
- The Jest test setup and the module export plumbing are not modelled.
