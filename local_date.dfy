/** An immutable calendar date in the proleptic Gregorian calendar, its
    validated construction, its ordering and its position on a day line. */
module LocalDates {
  import opened Outcomes
  import opened Gregorian

  datatype LocalDate = LocalDate(year: int, month: int, day: int)

  predicate Valid(d: LocalDate) {
    IsValidDate(d.year, d.month, d.day)
  }

  /** The first and last representable dates. */
  const MinDate: LocalDate := LocalDate(MinYear, 1, 1)
  const MaxDate: LocalDate := LocalDate(MaxYear, 12, 31)

  /** `new LocalDate(year, month, day)`: only calendar-valid triples become dates. */
  function Create(year: int, month: int, day: int): (r: Result<LocalDate>)
    ensures r.Ok? <==> IsValidDate(year, month, day)
    ensures r.Ok? ==> Valid(r.value) && r.value.year == year && r.value.month == month && r.value.day == day
    ensures r.Err? ==> r.error == InvalidDate
  {
    if IsValidDate(year, month, day) then Ok(LocalDate(year, month, day)) else Err(InvalidDate)
  }

  /** Chronological order: by year, then month, then day. */
  predicate Before(a: LocalDate, b: LocalDate) {
    || a.year < b.year
    || (a.year == b.year && a.month < b.month)
    || (a.year == b.year && a.month == b.month && a.day < b.day)
  }

  predicate SameOrBefore(a: LocalDate, b: LocalDate) {
    a == b || Before(a, b)
  }

  /** Months elapsed since January of year 0; the month arithmetic works on this index. */
  function MonthIndex(d: LocalDate): int {
    d.year * 12 + d.month - 1
  }

  /** Days since 1 January of year 1 (negative before it). */
  function DayNumber(d: LocalDate): int
    requires Valid(d)
  {
    DaysBeforeYear(d.year) + DaysBeforeMonth(d.year, d.month) + d.day - 1
  }

  /** A valid date's day number lies within its own year. */
  lemma DayNumberWithinYear(d: LocalDate)
    requires Valid(d)
    ensures DaysBeforeYear(d.year) <= DayNumber(d) < DaysBeforeYear(d.year) + DaysInYear(d.year)
  {
    MonthWithinYear(d.year, d.month);
  }

  /** Within one month, day numbers differ by the difference of the days. */
  lemma SameMonthDayNumbers(a: LocalDate, b: LocalDate)
    requires Valid(a) && Valid(b) && a.year == b.year && a.month == b.month
    ensures DayNumber(b) - DayNumber(a) == b.day - a.day
  {
  }

  /** The day number orders valid dates exactly as the calendar does. */
  lemma DayNumberOrder(a: LocalDate, b: LocalDate)
    requires Valid(a) && Valid(b)
    ensures Before(a, b) <==> DayNumber(a) < DayNumber(b)
    ensures a == b <==> DayNumber(a) == DayNumber(b)
  {
    if a.year != b.year {
      var (p, q) := if a.year < b.year then (a, b) else (b, a);
      DayNumberWithinYear(p);
      DayNumberWithinYear(q);
      DaysBeforeYearMonotone(p.year, q.year);
    } else if a.month != b.month {
      var (p, q) := if a.month < b.month then (a, b) else (b, a);
      DaysBeforeMonthMonotone(a.year, p.month, q.month);
    }
  }

  /** Every valid date lies between the first and last representable dates. */
  lemma WithinRange(d: LocalDate)
    requires Valid(d)
    ensures SameOrBefore(MinDate, d) && SameOrBefore(d, MaxDate)
    ensures DayNumber(MinDate) <= DayNumber(d) <= DayNumber(MaxDate)
  {
    DayNumberOrder(MinDate, d);
    DayNumberOrder(d, MaxDate);
  }

  /** Two valid dates in the same month of the month index are in the same
      year and month, and the month index orders dates by month. */
  lemma MonthIndexOrder(a: LocalDate, b: LocalDate)
    requires Valid(a) && Valid(b)
    ensures MonthIndex(a) == MonthIndex(b) <==> a.year == b.year && a.month == b.month
    ensures MonthIndex(a) < MonthIndex(b) ==> Before(a, b)
    ensures Before(a, b) ==> MonthIndex(a) <= MonthIndex(b)
  {
  }

  /** The following day; the last representable date has none. */
  function NextDay(d: LocalDate): (r: LocalDate)
    requires Valid(d) && d != MaxDate
    ensures Valid(r) && DayNumber(r) == DayNumber(d) + 1
  {
    if d.day < DaysInMonth(d.year, d.month) then LocalDate(d.year, d.month, d.day + 1)
    else if d.month < 12 then
      MonthsTileYear(d.year, d.month);
      LocalDate(d.year, d.month + 1, 1)
    else
      MonthsTileYear(d.year, d.month);
      DaysBeforeYearStep(d.year);
      LocalDate(d.year + 1, 1, 1)
  }

  /** The preceding day; the first representable date has none. */
  function PrevDay(d: LocalDate): (r: LocalDate)
    requires Valid(d) && d != MinDate
    ensures Valid(r) && DayNumber(r) + 1 == DayNumber(d)
  {
    if d.day > 1 then LocalDate(d.year, d.month, d.day - 1)
    else if d.month > 1 then
      MonthsTileYear(d.year, d.month - 1);
      LocalDate(d.year, d.month - 1, DaysInMonth(d.year, d.month - 1))
    else
      MonthsTileYear(d.year - 1, 12);
      DaysBeforeYearStep(d.year - 1);
      LocalDate(d.year - 1, 12, 31)
  }
}
