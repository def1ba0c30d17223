# NodaTime: `LocalDate` and `Period` arithmetic

A model of how NodaTime adds a `Period` to a `LocalDate`, subtracts one from
it, and computes the period between two dates. The calendar is the proleptic
Gregorian (ISO) calendar, and the representable years are −9998 to 9999.
The behaviour modelled is the behaviour that
`src/NodaTime.Test/LocalDateTest.PeriodArithmetic.cs` fixes. Everything is a
pure value, so the model is datatypes, functions and lemmas.

Modules, in dependency order:

- `Outcomes` holds `Option` and `Result`, plus an `Error` with one variant
  per exception the API throws:
  - `ArgumentNullException` becomes `MissingArgument`;
  - `ArgumentException` becomes `InvalidArgument`;
  - `OverflowException` becomes `Overflow`;
  - the exception the `LocalDate` constructor throws for a triple that is
    not a calendar date in range becomes `InvalidDate`.

  A `null` period becomes `None`.
- `Gregorian` holds leap years, month lengths and the year range. It also
  has a closed-form count of days before a year. That count uses floor
  division, so it is right for negative years too.
- `LocalDates` holds the date value and its validated constructor. It also
  defines the chronological order, the month index `12 * year + month - 1`,
  and a day number that orders dates exactly as the calendar does.
- `Periods` is a period of seven signed unit counts: years, months, weeks,
  days, hours, minutes and seconds. It has the single-unit factories,
  field-wise `+` and negation, and structural equality.
- `DateArithmetic` holds `PlusYears`, `PlusMonths` and `PlusDays`, and
  `Add`/`Subtract` with their instance forms `PlusPeriod` and
  `MinusPeriod` (`date.Plus(period)` and `date.Minus(period)`).
  - `PlusMonths` works on the month index with floor division, clamps the
    day to the length of the month it reaches, and fails with `Overflow`
    outside the year range.
  - `Add` applies years, then months, then `7 * weeks + days` days. The
    year step and the month step each clamp the day, as `PlusYears`
    followed by `PlusMonths` do. A single clamp from the original day would
    differ only when the year step moves 29 February into a common year
    and months follow: 2012-02-29 + (1 year + 1 month) is 2013-03-28 here,
    and a single clamp would give 2013-03-29 instead
    (`YearThenMonthClampsTwice`).
  - `Subtract` adds the negated period.
- `PeriodBetween` holds `end - start`, the greedy decomposition into whole
  years, then whole months, then days. It is taken in the direction of
  travel, so `start + (end - start) == end` for every pair of valid dates
  (`BetweenRoundTrip`). Taking the forward span from `end` to `start`
  and negating it would break the round trip: 31 March back to
  28 February is −1 month here, while negating the forward "1 month
  3 days" would land on 25 February (`NegatedForwardMissesStart`). It
  fails even where no month step back clamps: 1 March back to 30 January
  is −1 month −2 days, while the negated forward "1 month 1 day" lands on
  31 January (`NegationMissesWithoutBackwardClamp`). For 29 September
  back to 19 June the two rules happen to agree
  (`BetweenBackwardMonthsAndDays`). A period with more days than the next month step leaves is given back
  renormalised: 3 months 40 days comes back as 4 months 10 days
  (`UnnormalisedPeriodIsRenormalised`).
- `PeriodArithmeticTests` holds the concrete assertions of the test file,
  each stated as a lemma. It also holds a few concrete examples of the
  model's own, marked "model example" in the table below; the test file
  does not contain them.

## Model

| member | source | states |
|---|---|---|
| LocalDates.Create | src/NodaTime.Test/LocalDateTest.PeriodArithmetic.cs:116 | a (year, month, day) triple becomes a date exactly when it is a calendar date within years −9998..9999, and the date carries those fields; any other triple is `InvalidDate` |
| LocalDates.DayNumberOrder | src/NodaTime.Test/LocalDateTest.PeriodArithmetic.cs:13-19 | one date is before another exactly when its day number is smaller, and two dates are equal exactly when their day numbers are |
| LocalDates.WithinRange | src/NodaTime.Test/LocalDateTest.PeriodArithmetic.cs:104-118 | every valid date lies between −9998-01-01 and 9999-12-31, both in calendar order and on the day line |
| LocalDates.MonthIndexOrder | src/NodaTime.Test/LocalDateTest.PeriodArithmetic.cs:104-118 | equal month indices mean the same year and month; a smaller month index means an earlier date; an earlier date never has a larger month index |
| LocalDates.NextDay | src/NodaTime.Test/LocalDateTest.PeriodArithmetic.cs:13-19 | the day after any date but the last is a valid date one further on the day line |
| LocalDates.PrevDay | src/NodaTime.Test/LocalDateTest.PeriodArithmetic.cs:38-45 | the day before any date but the first is a valid date one earlier on the day line |
| Gregorian.DaysBeforeYearStep | src/NodaTime.Test/LocalDateTest.PeriodArithmetic.cs:13-19 | consecutive year starts are exactly one year's length apart, leap years included, for negative years too |
| Gregorian.DaysBeforeYearMonotone | src/NodaTime.Test/LocalDateTest.PeriodArithmetic.cs:92-102 | every later year starts after the whole of an earlier year (the proof is by induction on the distance between the years) |
| Periods.Decompose | src/NodaTime.Test/LocalDateTest.PeriodArithmetic.cs:16 | every period is the sum of its single-unit factory periods |
| Periods.PlusLaws | src/NodaTime.Test/LocalDateTest.PeriodArithmetic.cs:16 | period `+` is commutative and associative with `Zero` as identity; negation is its inverse, is an involution and distributes over `+` |
| Periods.NegatePreservesTimeComponent | src/NodaTime.Test/LocalDateTest.PeriodArithmetic.cs:73-80 | a period has a time unit exactly when its negation does |
| Periods.StructuralEquality | src/NodaTime.Test/LocalDateTest.PeriodArithmetic.cs:99 | `FromMonths(m) + FromDays(d)` keeps both counts as given, equals no single-unit period and has no time unit; `FromHours(n)` has a time unit exactly when n ≠ 0 |
| DateArithmetic.PlusYears | src/NodaTime.Test/LocalDateTest.PeriodArithmetic.cs:13-19 | succeeds exactly when the target year is representable; the result keeps the month, with the day clamped to that month's length in the target year; otherwise `Overflow` |
| DateArithmetic.PlusMonths | src/NodaTime.Test/LocalDateTest.PeriodArithmetic.cs:104-118 | succeeds exactly when the target month index lies between those of the first and last dates; otherwise `Overflow`. The result is valid, on the target month index, with the day clamped to that month's length |
| DateArithmetic.PlusDays | src/NodaTime.Test/LocalDateTest.PeriodArithmetic.cs:13-19 | succeeds exactly when the target day number is representable; the result is valid and n days further on the day line; otherwise `Overflow` |
| DateArithmetic.Add | src/NodaTime.Test/LocalDateTest.PeriodArithmetic.cs:30-36 | gives `MissingArgument` exactly for an absent period and `InvalidArgument` exactly for a period with a time unit; otherwise a valid date or `Overflow` |
| DateArithmetic.Subtract | src/NodaTime.Test/LocalDateTest.PeriodArithmetic.cs:56-62 | the same argument checks as `Add`, with the same error cases |
| DateArithmetic.AddDateUnits | src/NodaTime.Test/LocalDateTest.PeriodArithmetic.cs:13-19 | a date-only period gives a valid date or fails with `Overflow`, never another error |
| DateArithmetic.PlusYearsIsTwelveMonths | src/NodaTime.Test/LocalDateTest.PeriodArithmetic.cs:104-118 | moving by n years is moving by 12·n months: the same overflow and the same clamped day |
| DateArithmetic.PlusMonthsZero | src/NodaTime.Test/LocalDateTest.PeriodArithmetic.cs:22-28 | zero months leave every valid date unchanged |
| DateArithmetic.PlusMonthsInverse | src/NodaTime.Test/LocalDateTest.PeriodArithmetic.cs:38-45 | moving back the same months undoes a move that did not clamp the day |
| DateArithmetic.PlusMonthsLandsOn | src/NodaTime.Test/LocalDateTest.PeriodArithmetic.cs:22-28 | the result of `PlusMonths` is the one valid date on the target month that carries the clamped day |
| DateArithmetic.PlusMonthsMonotone | src/NodaTime.Test/LocalDateTest.PeriodArithmetic.cs:92-102 | more months give a strictly later date |
| DateArithmetic.PlusMonthsClampBounds | src/NodaTime.Test/LocalDateTest.PeriodArithmetic.cs:22-28 | clamping only shortens the day, and a day of 28 or less is never changed |
| DateArithmetic.PlusDaysInverse | src/NodaTime.Test/LocalDateTest.PeriodArithmetic.cs:38-45 | moving back the same days returns to the start |
| DateArithmetic.PlusDaysAdditive | src/NodaTime.Test/LocalDateTest.PeriodArithmetic.cs:13-19 | two day steps in a row are one step by their sum |
| DateArithmetic.AddAppliesUnitsInOrder | src/NodaTime.Test/LocalDateTest.PeriodArithmetic.cs:13-19 | a successful `Add` has no time unit and passes through a date 12·years + months along the month index. That date's day is the original day clamped first to the original month in the target year and then to the month reached, so never below min(day, 28). The result is 7·weeks + days further on the day line |
| DateArithmetic.AddYearStepOverflow | src/NodaTime.Test/LocalDateTest.PeriodArithmetic.cs:13-19 | a date period whose year step leaves years −9998..9999 gives `Overflow`, whatever its months and days would do |
| DateArithmetic.AddMonthStepOverflow | src/NodaTime.Test/LocalDateTest.PeriodArithmetic.cs:104-118 | a date period whose years and months together leave the representable months gives `Overflow`, whatever its days would do |
| DateArithmetic.AddMonthsThenDays | src/NodaTime.Test/LocalDateTest.PeriodArithmetic.cs:13-19 | without years, `Add` is the month step followed by the day step |
| DateArithmetic.DayPeriodRoundTrip | src/NodaTime.Test/LocalDateTest.PeriodArithmetic.cs:38-45 | a period of weeks and days moves 7·weeks + days along the day line, and subtracting it returns to the start |
| DateArithmetic.MonthPeriodRoundTrip | src/NodaTime.Test/LocalDateTest.PeriodArithmetic.cs:38-54 | subtracting n months undoes adding them when the day was not clamped |
| PeriodBetween.ReachesMeaning | src/NodaTime.Test/LocalDateTest.PeriodArithmetic.cs:92-102 | `Reaches` holds exactly when the month step succeeds and does not pass the end date in the direction of travel |
| PeriodBetween.ReachesInterval | src/NodaTime.Test/LocalDateTest.PeriodArithmetic.cs:92-102 | the month counts that do not pass the end form an interval from zero |
| PeriodBetween.MonthsBetween | src/NodaTime.Test/LocalDateTest.PeriodArithmetic.cs:99-101 | the largest month count towards the end that does not pass it: the next one fails or passes it. It has the sign of the direction and is zero for equal dates |
| PeriodBetween.YearsBetween | src/NodaTime.Test/LocalDateTest.PeriodArithmetic.cs:99-101 | the largest whole-year count towards the end that does not pass it: one more year fails or passes it. It has the sign of the direction |
| PeriodBetween.YearStep | src/NodaTime.Test/LocalDateTest.PeriodArithmetic.cs:99-101 | the greedy year step succeeds and stays between start and end |
| PeriodBetween.MonthStep | src/NodaTime.Test/LocalDateTest.PeriodArithmetic.cs:99-101 | the greedy month step succeeds, keeps the direction's sign and does not pass the end |
| PeriodBetween.Between | src/NodaTime.Test/LocalDateTest.PeriodArithmetic.cs:99-101 | `end - start` has no weeks and no time unit; every field is ≥ 0 going forward and ≤ 0 going back |
| PeriodBetween.DaysStepLandsOn | src/NodaTime.Test/LocalDateTest.PeriodArithmetic.cs:96 | moving by the difference of day numbers lands exactly on the target |
| PeriodBetween.MonthsThenDaysLandOn | src/NodaTime.Test/LocalDateTest.PeriodArithmetic.cs:13-19 | a year-free period lands where its clamped month step and then its day step lead |
| PeriodBetween.BetweenRoundTrip | src/NodaTime.Test/LocalDateTest.PeriodArithmetic.cs:96-101 | `start + (end - start) == end` for every pair of valid dates, in either direction |
| PeriodBetween.YearsBetweenUnique | src/NodaTime.Test/LocalDateTest.PeriodArithmetic.cs:99-101 | going forward, any year count that reaches the end while one more year does not is the one `YearsBetween` gives |
| PeriodBetween.MonthsBetweenUnique | src/NodaTime.Test/LocalDateTest.PeriodArithmetic.cs:99-101 | going forward, any month count that reaches the end while one more month does not is the one `MonthsBetween` gives |
| PeriodBetween.YearsBetweenUniqueBackward | src/NodaTime.Test/LocalDateTest.PeriodArithmetic.cs:99-101 | going back, any non-positive year count that reaches the end while one more year back does not is the one `YearsBetween` gives |
| PeriodBetween.MonthsBetweenUniqueBackward | src/NodaTime.Test/LocalDateTest.PeriodArithmetic.cs:99-101 | going back, any non-positive month count that reaches the end while one more month back does not is the one `MonthsBetween` gives |
| PeriodBetween.YearsBetweenIsGreedy | src/NodaTime.Test/LocalDateTest.PeriodArithmetic.cs:99-101 | `PlusYears` by the greedy year count succeeds and does not pass the end in the direction of travel; one more year in that direction fails or passes it |
| PeriodBetween.MonthsBetweenIsGreedy | src/NodaTime.Test/LocalDateTest.PeriodArithmetic.cs:99-101 | from any date on the way to the end, `PlusMonths` by the greedy month count succeeds and does not pass the end; one more month in the direction of travel fails or passes it |
| PeriodBetween.BetweenYearsAreGreedy | src/NodaTime.Test/LocalDateTest.PeriodArithmetic.cs:99-101 | the years of `end - start`, applied with `PlusYears`, do not pass `end`; one more year in the direction of travel fails or passes it |
| PeriodBetween.BetweenMonthsAreGreedy | src/NodaTime.Test/LocalDateTest.PeriodArithmetic.cs:99-101 | from the date those years reach, the months of `end - start`, applied with `PlusMonths`, do not pass `end`; one more month in the direction of travel fails or passes it |
| PeriodBetween.AddStepsInOrder | src/NodaTime.Test/LocalDateTest.PeriodArithmetic.cs:96 | a forward addition of non-negative units has no time unit; each step succeeds and passes through dates in calendar order |
| PeriodBetween.AddStepsInOrderBackward | src/NodaTime.Test/LocalDateTest.PeriodArithmetic.cs:96 | a backward addition of non-positive units has no time unit; each step succeeds and passes through dates in reverse calendar order, strictly at every non-zero unit |
| PeriodBetween.BetweenRecoversGreedyPeriod | src/NodaTime.Test/LocalDateTest.PeriodArithmetic.cs:92-102 | if a non-negative week-free period is in greedy form (one more year or month would pass the end), `(start + p) - start == p` |
| PeriodBetween.BetweenRecoversBackwardGreedyPeriod | src/NodaTime.Test/LocalDateTest.PeriodArithmetic.cs:92-102 | if a non-positive week-free period is in greedy form (one more year or month back would pass the end), `(start + p) - start == p` |
| PeriodArithmeticTests.AdditionWithPeriod | src/NodaTime.Test/LocalDateTest.PeriodArithmetic.cs:13-19 | 2010-06-19 + (3 months + 10 days) is 2010-09-29 |
| PeriodArithmeticTests.AdditionWithFactoryPeriod | src/NodaTime.Test/LocalDateTest.PeriodArithmetic.cs:13-19 | 2010-06-19 + (`FromMonths(3)` + `FromDays(10)`) is 2010-09-29, with the period built from the factories as the test builds it |
| PeriodArithmeticTests.AdditionTruncatesOnShortMonth | src/NodaTime.Test/LocalDateTest.PeriodArithmetic.cs:21-28 | 2010-01-30 + `FromMonths(1)` is 2010-02-28 |
| PeriodArithmeticTests.AdditionWithNullPeriod | src/NodaTime.Test/LocalDateTest.PeriodArithmetic.cs:30-36 | adding an absent period is `MissingArgument` |
| PeriodArithmeticTests.SubtractionWithPeriod | src/NodaTime.Test/LocalDateTest.PeriodArithmetic.cs:38-45 | 2010-09-29 − (3 months + 10 days) is 2010-06-19 |
| PeriodArithmeticTests.SubtractionWithFactoryPeriod | src/NodaTime.Test/LocalDateTest.PeriodArithmetic.cs:38-45 | 2010-09-29 − (`FromMonths(3)` + `FromDays(10)`) is 2010-06-19, with the period built from the factories |
| PeriodArithmeticTests.SubtractionTruncatesOnShortMonth | src/NodaTime.Test/LocalDateTest.PeriodArithmetic.cs:47-54 | 2010-03-30 − `FromMonths(1)` is 2010-02-28 |
| PeriodArithmeticTests.SubtractionWithNullPeriod | src/NodaTime.Test/LocalDateTest.PeriodArithmetic.cs:56-62 | subtracting an absent period is `MissingArgument` |
| PeriodArithmeticTests.PeriodWithTimeIsRejected | src/NodaTime.Test/LocalDateTest.PeriodArithmetic.cs:64-80 | adding or subtracting a one-hour period is `InvalidArgument` |
| PeriodArithmeticTests.NamedFormsAgree | src/NodaTime.Test/LocalDateTest.PeriodArithmetic.cs:82-98 | the operators, `LocalDate.Add`/`LocalDate.Subtract` and `Plus`/`Minus` agree for every date and period |
| PeriodArithmeticTests.PeriodBetweenRecoversAddedPeriod | src/NodaTime.Test/LocalDateTest.PeriodArithmetic.cs:91-102 | 2010-09-29 − 2010-06-19 is exactly 3 months + 10 days, field for field |
| PeriodArithmeticTests.PlusMonthsOverflow | src/NodaTime.Test/LocalDateTest.PeriodArithmetic.cs:104-118 | each of the nine boundary cases is a valid date, and `PlusMonths` on it is `Overflow` |
| PeriodArithmeticTests.UnnormalisedPeriodAddition | src/NodaTime.Test/LocalDateTest.PeriodArithmetic.cs:13-19 | 2010-06-19 + (3 months + 40 days) is 2010-10-29 (model example, not in the test file) |
| PeriodArithmeticTests.UnnormalisedPeriodIsRenormalised | src/NodaTime.Test/LocalDateTest.PeriodArithmetic.cs:92-102 | 2010-10-29 − 2010-06-19 is 4 months + 10 days, not the 3 months + 40 days that also reaches it (model example, not in the test file) |
| PeriodArithmeticTests.BetweenForwardMonthAndDays | src/NodaTime.Test/LocalDateTest.PeriodArithmetic.cs:92-102 | 2010-03-31 − 2010-02-28 is 1 month + 3 days (model example, not in the test file) |
| PeriodArithmeticTests.BetweenBackwardOneMonth | src/NodaTime.Test/LocalDateTest.PeriodArithmetic.cs:92-102 | 2010-02-28 − 2010-03-31 is −1 month, not the negated forward period (model example, not in the test file) |
| PeriodArithmeticTests.NegatedForwardMissesStart | src/NodaTime.Test/LocalDateTest.PeriodArithmetic.cs:92-102 | 2010-03-31 + −(1 month + 3 days) is 2010-02-25, so negating the forward period would not give back 2010-02-28 (model example, not in the test file) |
| PeriodArithmeticTests.BetweenBackwardMonthsAndDays | src/NodaTime.Test/LocalDateTest.PeriodArithmetic.cs:92-102 | 2010-06-19 − 2010-09-29 is −3 months −10 days, which in this example is the negated forward period (model example, not in the test file) |
| PeriodArithmeticTests.BetweenForwardAcrossFebruary | src/NodaTime.Test/LocalDateTest.PeriodArithmetic.cs:92-102 | 2010-03-01 − 2010-01-30 is 1 month + 1 day (model example, not in the test file) |
| PeriodArithmeticTests.BetweenBackwardAcrossFebruary | src/NodaTime.Test/LocalDateTest.PeriodArithmetic.cs:92-102 | 2010-01-30 − 2010-03-01 is −1 month −2 days (model example, not in the test file) |
| PeriodArithmeticTests.NegationMissesWithoutBackwardClamp | src/NodaTime.Test/LocalDateTest.PeriodArithmetic.cs:92-102 | 2010-03-01 − 1 month is 2010-02-01 without clamping, yet 2010-03-01 + −(1 month + 1 day) is 2010-01-31, not 2010-01-30 (model example, not in the test file) |
| PeriodArithmeticTests.YearThenMonthClampsTwice | src/NodaTime.Test/LocalDateTest.PeriodArithmetic.cs:13-19 | 2012-02-29 + (1 year + 1 month) is 2013-03-28, while 13 months in one step give 2013-03-29 (model example, not in the test file) |
| PeriodArithmeticTests.YearStepOverflowsBeforeMonthsReturn | src/NodaTime.Test/LocalDateTest.PeriodArithmetic.cs:104-118 | 9999-06-15 + (1 year − 12 months) is `Overflow` at the year step, although the net move is zero (model example, not in the test file) |

## Left out

- `src/NodaTime/LocalDate.cs`, `src/NodaTime/Period.cs`, `PeriodBuilder` and the calendar's year-month-day calculator are not part of this model. Their behaviour is modelled from the documented API and the tests' expectations.
- `Periods.Plus` and `Periods.Negate`: no fixed-width overflow of the unit counts. The counts are unbounded integers, because no tested behaviour reaches the bounds.
- `Periods.HasTimeComponent`: milliseconds, ticks and nanoseconds are not modelled. Only hours, minutes and seconds stand for the time units, which is enough for the one-hour rejection the tests check.
- `DateArithmetic.AddDateUnits` clamps the day at the year step and again at the month step. It does not clamp once from the original day, which would give 2013-03-29 for 2012-02-29 + (1 year + 1 month) instead of 2013-03-28 (`YearThenMonthClampsTwice`).
- `DateArithmetic.PlusDays` steps one day at a time and does not go through an epoch-day count. Its contract ties the result to the day line, so the result is the same.
- `PeriodBetween.Between` always uses years, months and days. Choosing units through a `PeriodUnits` argument, weeks included, is not modelled.
- Calendar systems other than ISO are left out. The calendar is a fixed module, not a value carried by each date.
- Time of day is left out: `LocalDateTime`, `LocalTime` and arithmetic on hours, minutes and seconds.
- Text formatting and parsing are left out (`ToString` in the tests only forces evaluation).
- The NUnit test runner is left out. A thrown exception is modelled as an `Err` result.
