/** `end - start`: the period between two dates, as the greedy decomposition
    into years, then months, then days, taken in the direction of travel, so
    that adding it to `start` gives back `end`. */
module PeriodBetween {
  import opened Outcomes
  import opened Gregorian
  import opened LocalDates
  import opened Periods
  import opened DateArithmetic

  /** Moving `start` by `n` months stays within the representable range and
      does not pass `end`: it lands at or before `end` when travelling
      forward, at or after it when travelling back.  Stated on the month
      index; `ReachesMeaning` ties it to `PlusMonths`. */
  predicate Reaches(start: LocalDate, n: int, end: LocalDate)
    requires Valid(start) && Valid(end)
  {
    var target := MonthIndex(start) + n;
    var day := Min(start.day, DaysInMonth(end.year, end.month));
    && MonthIndex(MinDate) <= target <= MonthIndex(MaxDate)
    && if SameOrBefore(start, end)
       then target < MonthIndex(end) || (target == MonthIndex(end) && day <= end.day)
       else target > MonthIndex(end) || (target == MonthIndex(end) && day >= end.day)
  }

  lemma ReachesMeaning(start: LocalDate, n: int, end: LocalDate)
    requires Valid(start) && Valid(end)
    ensures Reaches(start, n, end) <==>
      && PlusMonths(start, n).Ok?
      && if SameOrBefore(start, end)
         then SameOrBefore(PlusMonths(start, n).value, end)
         else SameOrBefore(end, PlusMonths(start, n).value)
  {
    var r := PlusMonths(start, n);
    if r.Ok? {
      MonthIndexOrder(r.value, end);
      MonthIndexOrder(end, r.value);
      if MonthIndex(r.value) == MonthIndex(end) {
        assert r.value.year == end.year && r.value.month == end.month;
      }
    }
  }

  /** The months that do not pass `end` form an interval around zero. */
  lemma ReachesInterval(start: LocalDate, end: LocalDate, a: int, b: int)
    requires Valid(start) && Valid(end) && Reaches(start, a, end)
    requires SameOrBefore(start, end) ==> 0 <= b <= a
    requires Before(end, start) ==> a <= b <= 0
    ensures Reaches(start, b, end)
  {
    MonthIndexOrder(start, end);
    MonthIndexOrder(end, start);
  }

  /** The largest number of months, counted towards `end`, that does not pass it. */
  function MonthsBetween(start: LocalDate, end: LocalDate): (n: int)
    requires Valid(start) && Valid(end)
    ensures SameOrBefore(start, end) ==> n >= 0 && Reaches(start, n, end) && !Reaches(start, n + 1, end)
    ensures Before(end, start) ==> n <= 0 && Reaches(start, n, end) && !Reaches(start, n - 1, end)
    ensures start == end ==> n == 0
  {
    MonthIndexOrder(start, end);
    MonthIndexOrder(end, start);
    var k := MonthIndex(end) - MonthIndex(start);
    var day := Min(start.day, DaysInMonth(end.year, end.month));
    if SameOrBefore(start, end) then
      if day > end.day then k - 1 else k
    else
      if day < end.day then k + 1 else k
  }

  /** Rounding a month count towards zero to whole years stays between zero
      and the count, and the next whole year lies beyond the count. */
  lemma WholeYearsArithmetic(t: int)
    ensures t >= 0 ==> 0 <= 12 * (t / 12) <= t && t + 1 <= 12 * (t / 12) + 12
    ensures t <= 0 ==> t <= -12 * ((-t) / 12) <= 0 && -12 * ((-t) / 12) - 12 <= t - 1
  {
  }

  /** The largest number of whole years, counted towards `end`, that does not
      pass it: the greedy month count rounded towards zero to whole years. */
  function YearsBetween(start: LocalDate, end: LocalDate): (n: int)
    requires Valid(start) && Valid(end)
    ensures SameOrBefore(start, end) ==> n >= 0 && Reaches(start, 12 * n, end) && !Reaches(start, 12 * n + 12, end)
    ensures Before(end, start) ==> n <= 0 && Reaches(start, 12 * n, end) && !Reaches(start, 12 * n - 12, end)
  {
    var t := MonthsBetween(start, end);
    WholeYearsArithmetic(t);
    MonthIndexOrder(start, end);
    MonthIndexOrder(end, start);
    if t >= 0 then t / 12 else -((-t) / 12)
  }

  /** The greedy whole-year step succeeds and lands between `start` and `end`. */
  lemma YearStep(start: LocalDate, end: LocalDate)
    requires Valid(start) && Valid(end)
    ensures PlusYears(start, YearsBetween(start, end)).Ok?
    ensures SameOrBefore(start, end) ==> SameOrBefore(PlusYears(start, YearsBetween(start, end)).value, end)
    ensures Before(end, start) ==> SameOrBefore(end, PlusYears(start, YearsBetween(start, end)).value)
  {
    var years := YearsBetween(start, end);
    ReachesMeaning(start, 12 * years, end);
    PlusYearsIsTwelveMonths(start, years);
  }

  /** The greedy month step from a date on the way to `end` succeeds, keeps
      the direction of travel, and does not pass `end`. */
  lemma MonthStep(mid: LocalDate, end: LocalDate)
    requires Valid(mid) && Valid(end)
    ensures PlusMonths(mid, MonthsBetween(mid, end)).Ok?
    ensures SameOrBefore(mid, end) ==>
      MonthsBetween(mid, end) >= 0 && SameOrBefore(PlusMonths(mid, MonthsBetween(mid, end)).value, end)
    ensures SameOrBefore(end, mid) ==>
      MonthsBetween(mid, end) <= 0 && SameOrBefore(end, PlusMonths(mid, MonthsBetween(mid, end)).value)
  {
    var months := MonthsBetween(mid, end);
    ReachesMeaning(mid, months, end);
    if mid == end {
      PlusMonthsZero(end);
    }
  }

  /** `end - start`, `LocalDate.Subtract(end, start)` and `end.Minus(start)`:
      years, then months, then days, all with the sign of the direction of
      travel, and never weeks or time units. */
  function Between(start: LocalDate, end: LocalDate): (p: Period)
    requires Valid(start) && Valid(end)
    ensures !HasTimeComponent(p) && p.weeks == 0
    ensures SameOrBefore(start, end) ==> p.years >= 0 && p.months >= 0 && p.days >= 0
    ensures Before(end, start) ==> p.years <= 0 && p.months <= 0 && p.days <= 0
  {
    var years := YearsBetween(start, end);
    YearStep(start, end);
    var afterYears := PlusYears(start, years).value;
    var months := MonthsBetween(afterYears, end);
    MonthStep(afterYears, end);
    var afterMonths := PlusMonths(afterYears, months).value;
    DayNumberOrder(afterMonths, end);
    Period(years, months, 0, DayNumber(end) - DayNumber(afterMonths), 0, 0, 0)
  }

  /** Moving by the difference of day numbers lands exactly on the target. */
  lemma DaysStepLandsOn(d: LocalDate, end: LocalDate)
    requires Valid(d) && Valid(end)
    ensures PlusDays(d, DayNumber(end) - DayNumber(d)) == Ok(end)
  {
    WithinRange(end);
    DayNumberOrder(PlusDays(d, DayNumber(end) - DayNumber(d)).value, end);
  }

  /** A period without years lands where its month step and then its day
      step lead. */
  lemma MonthsThenDaysLandOn(d: LocalDate, p: Period, mid: LocalDate, e: LocalDate)
    requires Valid(d) && Valid(e) && !HasTimeComponent(p) && p.years == 0
    requires Valid(mid) && MonthIndex(mid) == MonthIndex(d) + p.months
    requires mid.day == Min(d.day, DaysInMonth(mid.year, mid.month))
    requires DayNumber(e) - DayNumber(mid) == 7 * p.weeks + p.days
    ensures Add(d, Some(p)) == Ok(e)
  {
    PlusMonthsLandsOn(d, p.months, mid);
    AddMonthsThenDays(d, p, mid);
    DaysStepLandsOn(mid, e);
  }

  /** The decomposition is exact: adding the period between two dates to the
      first gives the second, in either direction. */
  lemma BetweenRoundTrip(start: LocalDate, end: LocalDate)
    requires Valid(start) && Valid(end)
    ensures Add(start, Some(Between(start, end))) == Ok(end)
  {
    BetweenParts(start, end);
    var p := Between(start, end);
    var afterYears := PlusYears(start, p.years).value;
    var afterMonths := PlusMonths(afterYears, p.months).value;
    AddLandsOn(start, p, afterYears, afterMonths);
    DaysStepLandsOn(afterMonths, end);
  }

  /** Only one whole-year count is greedy. */
  lemma YearsBetweenUnique(start: LocalDate, end: LocalDate, years: int)
    requires Valid(start) && Valid(end) && SameOrBefore(start, end)
    requires years >= 0 && Reaches(start, 12 * years, end) && !Reaches(start, 12 * years + 12, end)
    ensures YearsBetween(start, end) == years
  {
    var y := YearsBetween(start, end);
    if y < years {
      ReachesInterval(start, end, 12 * years, 12 * y + 12);
    } else if y > years {
      ReachesInterval(start, end, 12 * y, 12 * years + 12);
    }
  }

  /** Only one month count is greedy. */
  lemma MonthsBetweenUnique(start: LocalDate, end: LocalDate, months: int)
    requires Valid(start) && Valid(end) && SameOrBefore(start, end)
    requires months >= 0 && Reaches(start, months, end) && !Reaches(start, months + 1, end)
    ensures MonthsBetween(start, end) == months
  {
    var m := MonthsBetween(start, end);
    if m < months {
      ReachesInterval(start, end, months, m + 1);
    } else if m > months {
      ReachesInterval(start, end, m, months + 1);
    }
  }

  /** A forward addition of non-negative units passes through dates in order. */
  lemma AddStepsInOrder(start: LocalDate, p: Period, end: LocalDate)
    requires Valid(start) && Add(start, Some(p)) == Ok(end)
    requires p.weeks == 0 && p.years >= 0 && p.months >= 0 && p.days >= 0
    ensures !HasTimeComponent(p)
    ensures PlusYears(start, p.years).Ok?
    ensures PlusMonths(PlusYears(start, p.years).value, p.months).Ok?
    ensures PlusDays(PlusMonths(PlusYears(start, p.years).value, p.months).value, p.days) == Ok(end)
    ensures SameOrBefore(start, PlusYears(start, p.years).value)
    ensures SameOrBefore(PlusYears(start, p.years).value, PlusMonths(PlusYears(start, p.years).value, p.months).value)
    ensures SameOrBefore(PlusMonths(PlusYears(start, p.years).value, p.months).value, end)
  {
    PlusYearsIsTwelveMonths(start, p.years);
    var afterYears := PlusYears(start, p.years).value;
    var afterMonths := PlusMonths(afterYears, p.months).value;
    DayNumberOrder(afterMonths, end);
    PlusMonthsZero(start);
    if p.years > 0 {
      PlusMonthsMonotone(start, 0, 12 * p.years);
    }
    PlusMonthsZero(afterYears);
    if p.months > 0 {
      PlusMonthsMonotone(afterYears, 0, p.months);
    }
  }

  /** `Between` is built from the greedy year count, the greedy month count
      from the date it reaches, and the remaining days. */
  lemma BetweenParts(start: LocalDate, end: LocalDate)
    requires Valid(start) && Valid(end)
    ensures PlusYears(start, YearsBetween(start, end)).Ok?
    ensures
      var afterYears := PlusYears(start, YearsBetween(start, end)).value;
      && PlusMonths(afterYears, MonthsBetween(afterYears, end)).Ok?
      && var afterMonths := PlusMonths(afterYears, MonthsBetween(afterYears, end)).value;
         Between(start, end) == Period(
           YearsBetween(start, end), MonthsBetween(afterYears, end), 0,
           DayNumber(end) - DayNumber(afterMonths), 0, 0, 0)
  {
    YearStep(start, end);
    MonthStep(PlusYears(start, YearsBetween(start, end)).value, end);
  }

  /** `Between` equals any date-only, week-free period made of its three parts. */
  lemma BetweenFromParts(start: LocalDate, end: LocalDate, p: Period)
    requires Valid(start) && Valid(end) && !HasTimeComponent(p) && p.weeks == 0
    requires YearsBetween(start, end) == p.years && PlusYears(start, p.years).Ok?
    requires MonthsBetween(PlusYears(start, p.years).value, end) == p.months
    requires PlusMonths(PlusYears(start, p.years).value, p.months).Ok?
    requires DayNumber(end) - DayNumber(PlusMonths(PlusYears(start, p.years).value, p.months).value) == p.days
    ensures Between(start, end) == p
  {
    BetweenParts(start, end);
  }

  /** A step from `start` that succeeds and does not pass `end`, in the
      direction of travel from `start` to `end`. */
  predicate NotPast(start: LocalDate, end: LocalDate, r: Result<LocalDate>) {
    && r.Ok?
    && if SameOrBefore(start, end) then SameOrBefore(r.value, end) else SameOrBefore(end, r.value)
  }

  /** Stepping back from `end` by one month, if that succeeds, lands strictly before it. */
  lemma MonthBackIsBefore(end: LocalDate)
    requires Valid(end) && PlusMonths(end, -1).Ok?
    ensures !SameOrBefore(end, PlusMonths(end, -1).value)
  {
    PlusMonthsZero(end);
    PlusMonthsMonotone(end, -1, 0);
  }

  /** The direction of travel from `start` to `end`, as a unit step. */
  function Toward(start: LocalDate, end: LocalDate): (step: int)
    ensures step == 1 || step == -1
  {
    if SameOrBefore(start, end) then 1 else -1
  }

  /** The greedy year count does not pass `end`, and one more year would. */
  lemma YearsBetweenIsGreedy(start: LocalDate, end: LocalDate)
    requires Valid(start) && Valid(end)
    ensures NotPast(start, end, PlusYears(start, YearsBetween(start, end)))
    ensures !NotPast(start, end, PlusYears(start, YearsBetween(start, end) + Toward(start, end)))
  {
    var years := YearsBetween(start, end);
    PlusYearsIsTwelveMonths(start, years);
    ReachesMeaning(start, 12 * years, end);
    if SameOrBefore(start, end) {
      PlusYearsIsTwelveMonths(start, years + 1);
      ReachesMeaning(start, 12 * years + 12, end);
    } else {
      PlusYearsIsTwelveMonths(start, years - 1);
      ReachesMeaning(start, 12 * years - 12, end);
    }
  }

  /** From a date on the way from `start` to `end`, the greedy month count
      does not pass `end`, and one more month would. */
  lemma MonthsBetweenIsGreedy(start: LocalDate, mid: LocalDate, end: LocalDate)
    requires Valid(start) && Valid(mid) && Valid(end) && NotPast(start, end, Ok(mid))
    ensures NotPast(start, end, PlusMonths(mid, MonthsBetween(mid, end)))
    ensures !NotPast(start, end, PlusMonths(mid, MonthsBetween(mid, end) + Toward(start, end)))
  {
    var months := MonthsBetween(mid, end);
    if SameOrBefore(start, end) {
      ReachesMeaning(mid, months, end);
      ReachesMeaning(mid, months + 1, end);
    } else if mid == end {
      PlusMonthsZero(end);
      if PlusMonths(end, -1).Ok? {
        MonthBackIsBefore(end);
      }
    } else {
      ReachesMeaning(mid, months, end);
      ReachesMeaning(mid, months - 1, end);
    }
  }

  /** `end - start` is the greedy decomposition, stated through the steps of
      `Add` alone.  Its years do not pass `end`, and one more year in the
      direction of travel would. */
  lemma BetweenYearsAreGreedy(start: LocalDate, end: LocalDate)
    requires Valid(start) && Valid(end)
    ensures NotPast(start, end, PlusYears(start, Between(start, end).years))
    ensures !NotPast(start, end, PlusYears(start, Between(start, end).years + Toward(start, end)))
  {
    BetweenParts(start, end);
    YearsBetweenIsGreedy(start, end);
  }

  /** From the date its years reach, the months of `end - start` do not pass
      `end`, and one more month in the direction of travel would (what is
      left is the days, by `BetweenRoundTrip`). */
  lemma BetweenMonthsAreGreedy(start: LocalDate, end: LocalDate)
    requires Valid(start) && Valid(end)
    ensures PlusYears(start, Between(start, end).years).Ok?
    ensures
      var afterYears := PlusYears(start, Between(start, end).years).value;
      && NotPast(start, end, PlusMonths(afterYears, Between(start, end).months))
      && !NotPast(start, end, PlusMonths(afterYears, Between(start, end).months + Toward(start, end)))
  {
    BetweenParts(start, end);
    YearStep(start, end);
    MonthsBetweenIsGreedy(start, PlusYears(start, YearsBetween(start, end)).value, end);
  }

  /** A period already in greedy form (whole years first, then whole months,
      then days, none of which could be larger without passing the date
      reached) is exactly what `Between` recovers from that date. */
  lemma BetweenRecoversGreedyPeriod(start: LocalDate, p: Period, end: LocalDate)
    requires Valid(start) && Add(start, Some(p)) == Ok(end)
    requires p.weeks == 0 && p.years >= 0 && p.months >= 0 && p.days >= 0
    requires PlusYears(start, p.years).Ok?
    requires !Reaches(start, 12 * p.years + 12, end)
    requires !Reaches(PlusYears(start, p.years).value, p.months + 1, end)
    ensures Between(start, end) == p
  {
    AddStepsInOrder(start, p, end);
    PlusYearsIsTwelveMonths(start, p.years);
    var afterYears := PlusYears(start, p.years).value;
    var afterMonths := PlusMonths(afterYears, p.months).value;
    assert SameOrBefore(start, end);
    assert SameOrBefore(afterYears, end);
    ReachesMeaning(start, 12 * p.years, end);
    YearsBetweenUnique(start, end, p.years);
    ReachesMeaning(afterYears, p.months, end);
    MonthsBetweenUnique(afterYears, end, p.months);
    BetweenFromParts(start, end, p);
  }

  /** Going back, only one whole-year count is greedy. */
  lemma YearsBetweenUniqueBackward(start: LocalDate, end: LocalDate, years: int)
    requires Valid(start) && Valid(end) && Before(end, start)
    requires years <= 0 && Reaches(start, 12 * years, end) && !Reaches(start, 12 * years - 12, end)
    ensures YearsBetween(start, end) == years
  {
    var y := YearsBetween(start, end);
    if y < years {
      ReachesInterval(start, end, 12 * y, 12 * years - 12);
    } else if y > years {
      ReachesInterval(start, end, 12 * years, 12 * y - 12);
    }
  }

  /** Going back, only one month count is greedy. */
  lemma MonthsBetweenUniqueBackward(start: LocalDate, end: LocalDate, months: int)
    requires Valid(start) && Valid(end) && Before(end, start)
    requires months <= 0 && Reaches(start, months, end) && !Reaches(start, months - 1, end)
    ensures MonthsBetween(start, end) == months
  {
    var m := MonthsBetween(start, end);
    if m < months {
      ReachesInterval(start, end, m, months - 1);
    } else if m > months {
      ReachesInterval(start, end, months, m - 1);
    }
  }

  /** A backward addition of non-positive units passes through dates in
      reverse calendar order, strictly so at every unit that is not zero. */
  lemma AddStepsInOrderBackward(start: LocalDate, p: Period, end: LocalDate)
    requires Valid(start) && Add(start, Some(p)) == Ok(end)
    requires p.weeks == 0 && p.years <= 0 && p.months <= 0 && p.days <= 0
    ensures !HasTimeComponent(p)
    ensures PlusYears(start, p.years).Ok?
    ensures PlusMonths(PlusYears(start, p.years).value, p.months).Ok?
    ensures PlusDays(PlusMonths(PlusYears(start, p.years).value, p.months).value, p.days) == Ok(end)
    ensures SameOrBefore(PlusYears(start, p.years).value, start)
    ensures SameOrBefore(PlusMonths(PlusYears(start, p.years).value, p.months).value, PlusYears(start, p.years).value)
    ensures SameOrBefore(end, PlusMonths(PlusYears(start, p.years).value, p.months).value)
    ensures p.years < 0 ==> Before(PlusYears(start, p.years).value, start)
    ensures p.months < 0 ==> Before(PlusMonths(PlusYears(start, p.years).value, p.months).value, PlusYears(start, p.years).value)
    ensures p.days < 0 ==> Before(end, PlusMonths(PlusYears(start, p.years).value, p.months).value)
    ensures p.years < 0 || p.months < 0 || p.days < 0 ==> Before(end, start)
  {
    PlusYearsIsTwelveMonths(start, p.years);
    var afterYears := PlusYears(start, p.years).value;
    var afterMonths := PlusMonths(afterYears, p.months).value;
    PlusMonthsZero(start);
    if p.years < 0 {
      PlusMonthsMonotone(start, 12 * p.years, 0);
    }
    PlusMonthsZero(afterYears);
    if p.months < 0 {
      PlusMonthsMonotone(afterYears, p.months, 0);
    }
    DayNumberOrder(end, afterMonths);
    DayNumberOrder(afterMonths, afterYears);
    DayNumberOrder(afterYears, start);
    DayNumberOrder(end, start);
  }

  /** The backward counterpart: a non-positive period in greedy form (one
      more year or month back would pass the end) is exactly what `Between`
      recovers from that date. */
  lemma BetweenRecoversBackwardGreedyPeriod(start: LocalDate, p: Period, end: LocalDate)
    requires Valid(start) && Add(start, Some(p)) == Ok(end)
    requires p.weeks == 0 && p.years <= 0 && p.months <= 0 && p.days <= 0
    requires PlusYears(start, p.years).Ok?
    requires !Reaches(start, 12 * p.years - 12, end)
    requires !Reaches(PlusYears(start, p.years).value, p.months - 1, end)
    ensures Between(start, end) == p
  {
    AddStepsInOrderBackward(start, p, end);
    PlusYearsIsTwelveMonths(start, p.years);
    var afterYears := PlusYears(start, p.years).value;
    var afterMonths := PlusMonths(afterYears, p.months).value;
    if p.years == 0 && p.months == 0 && p.days == 0 {
      PlusMonthsZero(start);
      DayNumberOrder(end, start);
      assert end == start && afterMonths == start;
    } else {
      ReachesMeaning(start, 12 * p.years, end);
      YearsBetweenUniqueBackward(start, end, p.years);
      DayNumberOrder(afterMonths, end);
      DayNumberOrder(end, afterMonths);
      if afterYears != end {
        ReachesMeaning(afterYears, p.months, end);
        MonthsBetweenUniqueBackward(afterYears, end, p.months);
      }
    }
    BetweenFromParts(start, end, p);
  }
}
