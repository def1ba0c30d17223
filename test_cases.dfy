/** The exact values the date-period arithmetic tests pin down, each stated
    as a lemma over the model, and a few concrete examples of the model's
    own that show how its rules play out (unnormalised periods, backward
    spans, the two clamping steps). */
module PeriodArithmeticTests {
  import opened Outcomes
  import opened Gregorian
  import opened LocalDates
  import opened Periods
  import opened DateArithmetic
  import opened PeriodBetween

  /** The dates the tests use. */
  const Jan1: LocalDate := LocalDate(2010, 1, 1)
  const Jan30: LocalDate := LocalDate(2010, 1, 30)
  const Jan31: LocalDate := LocalDate(2010, 1, 31)
  const Feb1: LocalDate := LocalDate(2010, 2, 1)
  const Feb25: LocalDate := LocalDate(2010, 2, 25)
  const Feb28: LocalDate := LocalDate(2010, 2, 28)
  const Mar1: LocalDate := LocalDate(2010, 3, 1)
  const Mar28: LocalDate := LocalDate(2010, 3, 28)
  const Mar30: LocalDate := LocalDate(2010, 3, 30)
  const Mar31: LocalDate := LocalDate(2010, 3, 31)
  const June19: LocalDate := LocalDate(2010, 6, 19)
  const June29: LocalDate := LocalDate(2010, 6, 29)
  const Sept19: LocalDate := LocalDate(2010, 9, 19)
  const Sept29: LocalDate := LocalDate(2010, 9, 29)
  const Oct19: LocalDate := LocalDate(2010, 10, 19)
  const Oct29: LocalDate := LocalDate(2010, 10, 29)

  /** Dates for the model's own example of the year step clamping before the
      month step does. */
  const LeapDay2012: LocalDate := LocalDate(2012, 2, 29)
  const Feb28In2013: LocalDate := LocalDate(2013, 2, 28)
  const Mar28In2013: LocalDate := LocalDate(2013, 3, 28)
  const Mar29In2013: LocalDate := LocalDate(2013, 3, 29)

  /** A date in the last representable year. */
  const MidLastYear: LocalDate := LocalDate(9999, 6, 15)

  /** The periods the tests use, `Period.FromMonths(1)`, `Period.FromMonths(3)
      + Period.FromDays(10)` and the like, written out field by field
      (`Periods.StructuralEquality` gives each such sum these fields). */
  const OneMonth: Period := Period(0, 1, 0, 0, 0, 0, 0)
  const ThreeMonthsTenDays: Period := Period(0, 3, 0, 10, 0, 0, 0)
  const ThreeMonthsFortyDays: Period := Period(0, 3, 0, 40, 0, 0, 0)
  const FourMonthsTenDays: Period := Period(0, 4, 0, 10, 0, 0, 0)
  const OneMonthThreeDays: Period := Period(0, 1, 0, 3, 0, 0, 0)
  const OneYearOneMonth: Period := Period(1, 1, 0, 0, 0, 0, 0)
  const BackThreeMonthsTenDays: Period := Period(0, -3, 0, -10, 0, 0, 0)
  const YearForwardTwelveMonthsBack: Period := Period(1, -12, 0, 0, 0, 0, 0)
  const OneMonthOneDay: Period := Period(0, 1, 0, 1, 0, 0, 0)
  const BackOneMonthTwoDays: Period := Period(0, -1, 0, -2, 0, 0, 0)

  /** 2010-06-19 + (3 months + 10 days) == 2010-09-29: months first, then days. */
  lemma AdditionWithPeriod()
    ensures Add(June19, Some(ThreeMonthsTenDays)) == Ok(Sept29)
  {
    SameMonthDayNumbers(Sept19, Sept29);
    MonthsThenDaysLandOn(June19, ThreeMonthsTenDays, Sept19, Sept29);
  }

  /** The same addition with the period built as the tests build it,
      `Period.FromMonths(3) + Period.FromDays(10)`.  The counts are parameters
      because with literal arguments throughout, the verifier unfolds `Add`
      and `PlusDays` without bound. */
  lemma AdditionWithFactoryPeriod(months: int, days: int)
    requires months == 3 && days == 10
    ensures Add(June19, Some(Plus(FromMonths(months), FromDays(days)))) == Ok(Sept29)
  {
    StructuralEquality(months, days, 0);
    AdditionWithPeriod();
  }

  /** 2010-01-30 + 1 month == 2010-02-28: the day is clamped, not rejected. */
  lemma AdditionTruncatesOnShortMonth()
    ensures Add(Jan30, Some(FromMonths(1))) == Ok(Feb28)
  {
    assert FromMonths(1) == OneMonth;
    MonthsThenDaysLandOn(Jan30, OneMonth, Feb28, Feb28);
  }

  lemma AdditionWithNullPeriod()
    ensures Add(Jan1, None) == Err(MissingArgument)
  {
  }

  /** 2010-09-29 - (3 months + 10 days) == 2010-06-19. */
  lemma SubtractionWithPeriod()
    ensures Subtract(Sept29, Some(ThreeMonthsTenDays)) == Ok(June19)
  {
    var back := Negate(ThreeMonthsTenDays);
    assert back == Period(0, -3, 0, -10, 0, 0, 0);
    SameMonthDayNumbers(June29, June19);
    MonthsThenDaysLandOn(Sept29, back, June29, June19);
  }

  /** The same subtraction with the period built as the tests build it; the
      counts are parameters for the same reason as above. */
  lemma SubtractionWithFactoryPeriod(months: int, days: int)
    requires months == 3 && days == 10
    ensures Subtract(Sept29, Some(Plus(FromMonths(months), FromDays(days)))) == Ok(June19)
  {
    StructuralEquality(months, days, 0);
    SubtractionWithPeriod();
  }

  /** 2010-03-30 - 1 month == 2010-02-28: clamped under subtraction too. */
  lemma SubtractionTruncatesOnShortMonth()
    ensures Subtract(Mar30, Some(FromMonths(1))) == Ok(Feb28)
  {
    assert FromMonths(1) == OneMonth;
    var back := Negate(OneMonth);
    assert back == Period(0, -1, 0, 0, 0, 0, 0);
    MonthsThenDaysLandOn(Mar30, back, Feb28, Feb28);
  }

  lemma SubtractionWithNullPeriod()
    ensures Subtract(Jan1, None) == Err(MissingArgument)
  {
  }

  /** A one-hour period is refused by both `Add` and `Subtract`. */
  lemma PeriodWithTimeIsRejected()
    ensures Add(Jan1, Some(FromHours(1))) == Err(InvalidArgument)
    ensures Subtract(Jan1, Some(FromHours(1))) == Err(InvalidArgument)
  {
  }

  /** The operator and the named forms agree for every date and period; the
      model defines the named forms as aliases of the operators, so this
      holds by definition. */
  lemma NamedFormsAgree(d: LocalDate, p: Option<Period>)
    requires Valid(d)
    ensures PlusPeriod(d, p) == Add(d, p)
    ensures MinusPeriod(d, p) == Subtract(d, p)
  {
  }

  /** With 2010-09-29 = 2010-06-19 + (3 months + 10 days), the period
      between the two dates is that very period, field for field. */
  lemma PeriodBetweenRecoversAddedPeriod()
    ensures Between(June19, Sept29) == ThreeMonthsTenDays
  {
    AdditionWithPeriod();
    assert PlusYears(June19, 0) == Ok(June19);
    assert !Reaches(June19, 12, Sept29);
    assert !Reaches(June19, 4, Sept29);
    BetweenRecoversGreedyPeriod(June19, ThreeMonthsTenDays, Sept29);
  }

  /** `PlusMonths` overflows, rather than saturating or wrapping, on each of
      the boundary cases, including the negative years that need floor
      division of the month index. */
  lemma PlusMonthsOverflow(year: int, month: int, day: int, months: int)
    requires (year, month, day, months) in {
      (9999, 12, 31, 1), (9999, 12, 1, 1), (9999, 11, 30, 2), (9999, 11, 1, 2),
      (9998, 12, 31, 13), (9998, 12, 1, 13), (-9998, 1, 1, -1), (-9998, 2, 1, -2),
      (-9997, 1, 1, -13)}
    ensures Create(year, month, day).Ok?
    ensures PlusMonths(Create(year, month, day).value, months) == Err(Overflow)
  {
  }

  /** 2010-06-19 + (3 months + 40 days) == 2010-10-29: the days run on past
      the end of the month that the months reach. */
  lemma UnnormalisedPeriodAddition()
    ensures Add(June19, Some(ThreeMonthsFortyDays)) == Ok(Oct29)
  {
    MonthsThenDaysLandOn(June19, ThreeMonthsFortyDays, Sept19, Oct29);
  }

  /** More days than the next month step leaves are not given back
      structurally: `Between` renormalises 3 months 40 days into 4 months 10 days. */
  lemma UnnormalisedPeriodIsRenormalised()
    ensures Between(June19, Oct29) == FourMonthsTenDays
  {
    SameMonthDayNumbers(Oct19, Oct29);
    MonthsThenDaysLandOn(June19, FourMonthsTenDays, Oct19, Oct29);
    assert PlusYears(June19, 0) == Ok(June19);
    assert !Reaches(June19, 12, Oct29);
    assert !Reaches(June19, 5, Oct29);
    BetweenRecoversGreedyPeriod(June19, FourMonthsTenDays, Oct29);
  }

  /** From 28 February to 31 March is one month and three days. */
  lemma BetweenForwardMonthAndDays()
    ensures Between(Feb28, Mar31) == OneMonthThreeDays
  {
    SameMonthDayNumbers(Mar28, Mar31);
    MonthsThenDaysLandOn(Feb28, OneMonthThreeDays, Mar28, Mar31);
    assert PlusYears(Feb28, 0) == Ok(Feb28);
    assert !Reaches(Feb28, 12, Mar31);
    assert !Reaches(Feb28, 2, Mar31);
    BetweenRecoversGreedyPeriod(Feb28, OneMonthThreeDays, Mar31);
  }

  /** Back from 31 March to 28 February is minus one month: the month step
      clamps onto the end date, so no days are left. */
  lemma BetweenBackwardOneMonth()
    ensures Between(Mar31, Feb28) == FromMonths(-1)
  {
    assert MonthsBetween(Mar31, Feb28) == -1;
    assert YearsBetween(Mar31, Feb28) == 0;
    assert PlusYears(Mar31, 0) == Ok(Mar31);
    PlusMonthsLandsOn(Mar31, -1, Feb28);
    BetweenFromParts(Mar31, Feb28, FromMonths(-1));
  }

  /** Going backwards, `Between` is not the negation of the forward period:
      negating the forward 1 month 3 days and adding it to 31 March lands on
      25 February, not on 28 February. */
  lemma NegatedForwardMissesStart()
    ensures Add(Mar31, Some(Negate(OneMonthThreeDays))) == Ok(Feb25)
  {
    var back := Negate(OneMonthThreeDays);
    assert back == Period(0, -1, 0, -3, 0, 0, 0);
    SameMonthDayNumbers(Feb28, Feb25);
    MonthsThenDaysLandOn(Mar31, back, Feb28, Feb25);
  }

  /** Years and months are two clamping steps, not one: 2012-02-29 + (1 year
      + 1 month) first clamps to 2013-02-28 and stays on the 28th in March,
      while 13 months in one step keep the 29th. */
  lemma YearThenMonthClampsTwice()
    ensures Add(LeapDay2012, Some(OneYearOneMonth)) == Ok(Mar28In2013)
    ensures PlusMonths(LeapDay2012, 13) == Ok(Mar29In2013)
  {
    assert PlusYears(LeapDay2012, 1) == Ok(Feb28In2013);
    PlusMonthsLandsOn(Feb28In2013, 1, Mar28In2013);
    AddLandsOn(LeapDay2012, OneYearOneMonth, Feb28In2013, Mar28In2013);
    assert PlusDays(Mar28In2013, 0) == Ok(Mar28In2013);
    PlusMonthsLandsOn(LeapDay2012, 13, Mar29In2013);
  }

  /** Back from 2010-09-29 to 2010-06-19 is minus 3 months minus 10 days,
      which in this example is the negated forward period. */
  lemma BetweenBackwardMonthsAndDays()
    ensures Between(Sept29, June19) == BackThreeMonthsTenDays
  {
    SameMonthDayNumbers(June29, June19);
    MonthsThenDaysLandOn(Sept29, BackThreeMonthsTenDays, June29, June19);
    assert PlusYears(Sept29, 0) == Ok(Sept29);
    assert !Reaches(Sept29, -12, June19);
    assert !Reaches(Sept29, -4, June19);
    BetweenRecoversBackwardGreedyPeriod(Sept29, BackThreeMonthsTenDays, June19);
  }

  /** From 2010-01-30 to 2010-03-01 is 1 month 1 day: the month step clamps
      onto 28 February, and one day is left. */
  lemma BetweenForwardAcrossFebruary()
    ensures Between(Jan30, Mar1) == OneMonthOneDay
  {
    MonthsThenDaysLandOn(Jan30, OneMonthOneDay, Feb28, Mar1);
    assert PlusYears(Jan30, 0) == Ok(Jan30);
    assert !Reaches(Jan30, 12, Mar1);
    assert !Reaches(Jan30, 2, Mar1);
    BetweenRecoversGreedyPeriod(Jan30, OneMonthOneDay, Mar1);
  }

  /** Back from 2010-03-01 to 2010-01-30 is minus 1 month minus 2 days: the
      month step back lands on 1 February without clamping, and two days are
      left. */
  lemma BetweenBackwardAcrossFebruary()
    ensures Between(Mar1, Jan30) == BackOneMonthTwoDays
  {
    MonthsThenDaysLandOn(Mar1, BackOneMonthTwoDays, Feb1, Jan30);
    assert PlusYears(Mar1, 0) == Ok(Mar1);
    assert !Reaches(Mar1, -12, Jan30);
    assert !Reaches(Mar1, -2, Jan30);
    BetweenRecoversBackwardGreedyPeriod(Mar1, BackOneMonthTwoDays, Jan30);
  }

  /** Negating the forward 1 month 1 day and adding it to 2010-03-01 lands on
      2010-01-31, not on 2010-01-30, although neither month step back clamps:
      the negated forward period misses the start even without clamping on
      the way back. */
  lemma NegationMissesWithoutBackwardClamp()
    ensures PlusMonths(Mar1, -1) == Ok(Feb1)
    ensures Add(Mar1, Some(Negate(OneMonthOneDay))) == Ok(Jan31)
  {
    PlusMonthsLandsOn(Mar1, -1, Feb1);
    var back := Negate(OneMonthOneDay);
    assert back == Period(0, -1, 0, -1, 0, 0, 0);
    MonthsThenDaysLandOn(Mar1, back, Feb1, Jan31);
  }

  /** Each step checks the range on its own: 9999-06-15 + (1 year - 12 months)
      overflows at the year step, although the whole move would come back to
      the same date. */
  lemma YearStepOverflowsBeforeMonthsReturn()
    ensures Add(MidLastYear, Some(YearForwardTwelveMonthsBack)) == Err(Overflow)
  {
    AddYearStepOverflow(MidLastYear, YearForwardTwelveMonthsBack);
  }
}
