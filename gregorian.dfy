/** The calendar facts the date arithmetic consumes, for the proleptic
    Gregorian calendar of ISO 8601 (year 0 is 1 BCE): leap years, month
    lengths, the representable years and a count of days used to step a
    date by whole days. */
module Gregorian {

  /** The earliest and latest representable years. */
  const MinYear: int := -9998
  const MaxYear: int := 9999

  /** Divisible by 4, except centuries not divisible by 400.  Dafny's `%`
      never yields a negative remainder, but only the test for zero matters
      here, and that agrees with a truncating remainder. */
  predicate IsLeapYear(year: int) {
    year % 4 == 0 && (year % 100 != 0 || year % 400 == 0)
  }

  function DaysInYear(year: int): int {
    if IsLeapYear(year) then 366 else 365
  }

  function DaysInMonth(year: int, month: int): int
    requires 1 <= month <= 12
  {
    if month == 2 then (if IsLeapYear(year) then 29 else 28)
    else if month == 4 || month == 6 || month == 9 || month == 11 then 30
    else 31
  }

  predicate IsValidDate(year: int, month: int, day: int) {
    && MinYear <= year <= MaxYear
    && 1 <= month <= 12
    && 1 <= day <= DaysInMonth(year, month)
  }

  /** Days of `year` that lie in the months before `month`. */
  function DaysBeforeMonth(year: int, month: int): int
    requires 1 <= month <= 12
  {
    var leap := if month > 2 && IsLeapYear(year) then 1 else 0;
    leap + (
      if month == 1 then 0 else if month == 2 then 31 else if month == 3 then 59
      else if month == 4 then 90 else if month == 5 then 120 else if month == 6 then 151
      else if month == 7 then 181 else if month == 8 then 212 else if month == 9 then 243
      else if month == 10 then 273 else if month == 11 then 304 else 334)
  }

  /** Days from 1 January of year 1 to 1 January of `year` (negative before
      year 1).  Dafny's `/` by a positive constant is floor division, which is
      what counting leap years before a negative year needs. */
  function DaysBeforeYear(year: int): int {
    var y := year - 1;
    365 * y + y / 4 - y / 100 + y / 400
  }

  /** Each month ends where the next one starts, and December ends the year. */
  lemma MonthsTileYear(year: int, month: int)
    requires 1 <= month <= 12
    ensures month < 12 ==> DaysBeforeMonth(year, month + 1) == DaysBeforeMonth(year, month) + DaysInMonth(year, month)
    ensures month == 12 ==> DaysBeforeMonth(year, month) + DaysInMonth(year, month) == DaysInYear(year)
  {
  }

  /** A month starts no earlier than the months before it end, and ends within its year. */
  lemma DaysBeforeMonthMonotone(year: int, m1: int, m2: int)
    requires 1 <= m1 < m2 <= 12
    ensures DaysBeforeMonth(year, m1) + DaysInMonth(year, m1) <= DaysBeforeMonth(year, m2)
  {
  }

  lemma MonthWithinYear(year: int, month: int)
    requires 1 <= month <= 12
    ensures 0 <= DaysBeforeMonth(year, month)
    ensures DaysBeforeMonth(year, month) + DaysInMonth(year, month) <= DaysInYear(year)
  {
  }

  /** The count of multiples of `c` in (x - 1, x] is one exactly when `c` divides `x`. */
  lemma MultiplesStep(x: int)
    ensures x / 4 - (x - 1) / 4 == (if x % 4 == 0 then 1 else 0)
    ensures x / 100 - (x - 1) / 100 == (if x % 100 == 0 then 1 else 0)
    ensures x / 400 - (x - 1) / 400 == (if x % 400 == 0 then 1 else 0)
  {
  }

  lemma MultipleOfFour(m: int)
    ensures (4 * m) % 4 == 0
  {
  }

  lemma MultipleOfHundred(m: int)
    ensures (100 * m) % 100 == 0
  {
  }

  /** A multiple of 400 is a multiple of 100, and that a multiple of 4. */
  lemma CenturyDivisors(x: int)
    ensures x % 400 == 0 ==> x % 100 == 0
    ensures x % 100 == 0 ==> x % 4 == 0
  {
    if x % 100 == 0 {
      var q := x / 100;
      assert x == 4 * (25 * q);
      MultipleOfFour(25 * q);
    }
    if x % 400 == 0 {
      var k := x / 400;
      assert x == 100 * (4 * k);
      MultipleOfHundred(4 * k);
    }
  }

  /** Consecutive year starts are exactly one year's length apart: the closed
      form counts leap years correctly, for negative years too. */
  lemma DaysBeforeYearStep(year: int)
    ensures DaysBeforeYear(year + 1) == DaysBeforeYear(year) + DaysInYear(year)
  {
    MultiplesStep(year);
    CenturyDivisors(year);
  }

  lemma {:induction false} DaysBeforeYearMonotone(y1: int, y2: int)
    requires y1 < y2
    ensures DaysBeforeYear(y1) + DaysInYear(y1) <= DaysBeforeYear(y2)
    decreases y2 - y1
  {
    DaysBeforeYearStep(y1);
    if y1 + 1 < y2 {
      DaysBeforeYearMonotone(y1 + 1, y2);
    }
  }
}
