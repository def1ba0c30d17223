/** Adding a period to a date and subtracting it: years, then months with the
    day clamped to the target month's length, then weeks and days as one
    offset on the day line; every step fails with `Overflow` outside the
    representable years. */
module DateArithmetic {
  import opened Outcomes
  import opened Gregorian
  import opened LocalDates
  import opened Periods

  function Min(a: int, b: int): int {
    if a <= b then a else b
  }

  /** `LocalDate.PlusYears`: same month, day clamped (29 February in a common year becomes the 28th). */
  function PlusYears(d: LocalDate, n: int): (r: Result<LocalDate>)
    requires Valid(d)
    ensures r.Ok? <==> MinYear <= d.year + n <= MaxYear
    ensures r.Err? ==> r.error == Overflow
    ensures r.Ok? ==> Valid(r.value) && r.value.year == d.year + n && r.value.month == d.month
    ensures r.Ok? ==> r.value.day == Min(d.day, DaysInMonth(d.year + n, d.month))
  {
    var year := d.year + n;
    if year < MinYear || year > MaxYear then Err(Overflow)
    else Ok(LocalDate(year, d.month, Min(d.day, DaysInMonth(year, d.month))))
  }

  /** `LocalDate.PlusMonths`: moves `n` months along the month index and clamps
      the day to the length of the month reached; fails exactly when that
      month lies outside the representable range. */
  function PlusMonths(d: LocalDate, n: int): (r: Result<LocalDate>)
    requires Valid(d)
    ensures r.Ok? <==> MonthIndex(MinDate) <= MonthIndex(d) + n <= MonthIndex(MaxDate)
    ensures r.Err? ==> r.error == Overflow
    ensures r.Ok? ==> Valid(r.value) && MonthIndex(r.value) == MonthIndex(d) + n
    ensures r.Ok? ==> r.value.day == Min(d.day, DaysInMonth(r.value.year, r.value.month))
  {
    var total := MonthIndex(d) + n;
    var year := total / 12;
    var month := total % 12 + 1;
    if year < MinYear || year > MaxYear then Err(Overflow)
    else Ok(LocalDate(year, month, Min(d.day, DaysInMonth(year, month))))
  }

  /** `LocalDate.PlusDays`, one day at a time: lands `n` days further on the
      day line, and fails exactly when that day is not representable. */
  function PlusDays(d: LocalDate, n: int): (r: Result<LocalDate>)
    requires Valid(d)
    ensures r.Ok? <==> DayNumber(MinDate) <= DayNumber(d) + n <= DayNumber(MaxDate)
    ensures r.Err? ==> r.error == Overflow
    ensures r.Ok? ==> Valid(r.value) && DayNumber(r.value) == DayNumber(d) + n
    decreases if n < 0 then -n else n
  {
    WithinRange(d);
    if n == 0 then Ok(d)
    else if n > 0 then
      if d == MaxDate then Err(Overflow) else PlusDays(NextDay(d), n - 1)
    else
      if d == MinDate then Err(Overflow) else PlusDays(PrevDay(d), n + 1)
  }

  /** The date units of a period applied in their fixed order. */
  function AddDateUnits(d: LocalDate, p: Period): (r: Result<LocalDate>)
    requires Valid(d)
    ensures r.Ok? ==> Valid(r.value)
    ensures r.Err? ==> r.error == Overflow
  {
    match PlusYears(d, p.years)
    case Err(e) => Err(e)
    case Ok(afterYears) =>
      match PlusMonths(afterYears, p.months)
      case Err(e) => Err(e)
      case Ok(afterMonths) => PlusDays(afterMonths, p.weeks * 7 + p.days)
  }

  /** `date + period`, `LocalDate.Add(date, period)`: an absent period is a
      missing argument, a period with a time unit an invalid one, and
      otherwise the date units are applied in order. */
  function Add(d: LocalDate, p: Option<Period>): (r: Result<LocalDate>)
    requires Valid(d)
    ensures p.None? <==> r == Err(MissingArgument)
    ensures p.Some? && HasTimeComponent(p.value) <==> r == Err(InvalidArgument)
    ensures r.Ok? ==> Valid(r.value)
    ensures r.Err? ==> r.error in {MissingArgument, InvalidArgument, Overflow}
  {
    match p
    case None => Err(MissingArgument)
    case Some(q) =>
      if HasTimeComponent(q) then Err(InvalidArgument) else AddDateUnits(d, q)
  }

  /** `date - period`, `LocalDate.Subtract(date, period)`: adding the negated
      period, with the same argument checks. */
  function Subtract(d: LocalDate, p: Option<Period>): (r: Result<LocalDate>)
    requires Valid(d)
    ensures p.None? <==> r == Err(MissingArgument)
    ensures p.Some? && HasTimeComponent(p.value) <==> r == Err(InvalidArgument)
    ensures r.Ok? ==> Valid(r.value)
    ensures r.Err? ==> r.error in {MissingArgument, InvalidArgument, Overflow}
  {
    match p
    case None => Add(d, None)
    case Some(q) =>
      NegatePreservesTimeComponent(q);
      Add(d, Some(Negate(q)))
  }

  /** The instance forms `date.Plus(period)` and `date.Minus(period)`. */
  function PlusPeriod(d: LocalDate, p: Option<Period>): Result<LocalDate>
    requires Valid(d)
  {
    Add(d, p)
  }

  function MinusPeriod(d: LocalDate, p: Option<Period>): Result<LocalDate>
    requires Valid(d)
  {
    Subtract(d, p)
  }

  /** Moving by whole years is moving by twelve months: the same overflow
      condition and the same clamped day. */
  lemma PlusYearsIsTwelveMonths(d: LocalDate, n: int)
    requires Valid(d)
    ensures PlusYears(d, n) == PlusMonths(d, 12 * n)
  {
    var r := PlusMonths(d, 12 * n);
    if r.Ok? {
      MonthIndexOrder(r.value, LocalDate(d.year + n, d.month, 1));
    }
  }

  /** Zero months change nothing: a valid day never needs clamping in its own month. */
  lemma PlusMonthsZero(d: LocalDate)
    requires Valid(d)
    ensures PlusMonths(d, 0) == Ok(d)
  {
    WithinRange(d);
    MonthIndexOrder(d, MinDate);
    MonthIndexOrder(d, MaxDate);
    MonthIndexOrder(d, PlusMonths(d, 0).value);
  }

  /** Going back the same number of months undoes a move that did not clamp the day. */
  lemma PlusMonthsInverse(d: LocalDate, n: int, e: LocalDate)
    requires Valid(d) && PlusMonths(d, n) == Ok(e) && e.day == d.day
    ensures PlusMonths(e, -n) == Ok(d)
  {
    WithinRange(d);
    MonthIndexOrder(d, MinDate);
    MonthIndexOrder(d, MaxDate);
    MonthIndexOrder(d, PlusMonths(e, -n).value);
  }

  /** The contract of `PlusMonths` pins its result down: the one valid date on
      the target month carrying the clamped day. */
  lemma PlusMonthsLandsOn(d: LocalDate, n: int, e: LocalDate)
    requires Valid(d) && Valid(e) && MonthIndex(e) == MonthIndex(d) + n
    requires e.day == Min(d.day, DaysInMonth(e.year, e.month))
    ensures PlusMonths(d, n) == Ok(e)
  {
    WithinRange(e);
    MonthIndexOrder(e, MinDate);
    MonthIndexOrder(e, MaxDate);
    MonthIndexOrder(e, PlusMonths(d, n).value);
  }

  /** More months never give an earlier date: the result moves strictly with `n`. */
  lemma PlusMonthsMonotone(d: LocalDate, a: int, b: int)
    requires Valid(d) && a < b && PlusMonths(d, a).Ok? && PlusMonths(d, b).Ok?
    ensures Before(PlusMonths(d, a).value, PlusMonths(d, b).value)
  {
    MonthIndexOrder(PlusMonths(d, a).value, PlusMonths(d, b).value);
  }

  /** Clamping only ever shortens the day, and never below the 28th. */
  lemma PlusMonthsClampBounds(d: LocalDate, n: int)
    requires Valid(d) && PlusMonths(d, n).Ok?
    ensures PlusMonths(d, n).value.day <= d.day
    ensures d.day <= 28 ==> PlusMonths(d, n).value.day == d.day
  {
  }

  /** Day steps compose and undo each other. */
  lemma PlusDaysInverse(d: LocalDate, n: int, e: LocalDate)
    requires Valid(d) && PlusDays(d, n) == Ok(e)
    ensures PlusDays(e, -n) == Ok(d)
  {
    WithinRange(d);
    DayNumberOrder(d, PlusDays(e, -n).value);
  }

  lemma PlusDaysAdditive(d: LocalDate, a: int, b: int, e: LocalDate)
    requires Valid(d) && PlusDays(d, a).Ok? && PlusDays(PlusDays(d, a).value, b) == Ok(e)
    ensures PlusDays(d, a + b) == Ok(e)
  {
    DayNumberOrder(e, PlusDays(d, a + b).value);
  }

  /** What a successful addition means: the months land `12 * years + months`
      along the month index, and the weeks and days then move along the day
      line.  The day is clamped twice, once to the original month in the
      target year and once more to the month reached, which leaves it no
      less than `min(day, 28)`. */
  lemma AddAppliesUnitsInOrder(d: LocalDate, p: Period, e: LocalDate)
    requires Valid(d) && Add(d, Some(p)) == Ok(e)
    ensures !HasTimeComponent(p)
    ensures exists mid: LocalDate ::
      && Valid(mid)
      && MonthIndex(mid) == MonthIndex(d) + 12 * p.years + p.months
      && mid.day == Min(Min(d.day, DaysInMonth(d.year + p.years, d.month)), DaysInMonth(mid.year, mid.month))
      && Min(d.day, 28) <= mid.day <= d.day
      && DayNumber(e) == DayNumber(mid) + 7 * p.weeks + p.days
  {
    var afterYears := PlusYears(d, p.years).value;
    PlusYearsIsTwelveMonths(d, p.years);
    var mid := PlusMonths(afterYears, p.months).value;
    assert MonthIndex(mid) == MonthIndex(d) + 12 * p.years + p.months;
  }

  /** A date period lands where its year step, then its month step, then its
      day step lead. */
  lemma AddLandsOn(d: LocalDate, p: Period, afterYears: LocalDate, afterMonths: LocalDate)
    requires Valid(d) && !HasTimeComponent(p)
    requires PlusYears(d, p.years) == Ok(afterYears)
    requires PlusMonths(afterYears, p.months) == Ok(afterMonths)
    ensures Add(d, Some(p)) == PlusDays(afterMonths, 7 * p.weeks + p.days)
  {
  }

  /** A date period whose year step leaves the representable years overflows,
      whatever its months and days would do afterwards. */
  lemma AddYearStepOverflow(d: LocalDate, p: Period)
    requires Valid(d) && !HasTimeComponent(p)
    requires !(MinYear <= d.year + p.years <= MaxYear)
    ensures Add(d, Some(p)) == Err(Overflow)
  {
  }

  /** A date period whose years and months together leave the representable
      months overflows, whatever its days would do afterwards. */
  lemma AddMonthStepOverflow(d: LocalDate, p: Period)
    requires Valid(d) && !HasTimeComponent(p)
    requires !(MonthIndex(MinDate) <= MonthIndex(d) + 12 * p.years + p.months <= MonthIndex(MaxDate))
    ensures Add(d, Some(p)) == Err(Overflow)
  {
    if PlusYears(d, p.years).Ok? {
      PlusYearsIsTwelveMonths(d, p.years);
    }
  }

  /** Without years, a date period applies its months first and then its
      weeks and days; adding the months first is what decides the clamping. */
  lemma AddMonthsThenDays(d: LocalDate, p: Period, mid: LocalDate)
    requires Valid(d) && !HasTimeComponent(p) && p.years == 0
    requires PlusMonths(d, p.months) == Ok(mid)
    ensures Add(d, Some(p)) == PlusDays(mid, 7 * p.weeks + p.days)
  {
    PlusYearsIsTwelveMonths(d, 0);
    PlusMonthsZero(d);
  }

  /** A period of weeks and days only moves along the day line, and
      subtracting it brings the date back. */
  lemma DayPeriodRoundTrip(d: LocalDate, p: Period, e: LocalDate)
    requires Valid(d) && p.years == 0 && p.months == 0
    requires Add(d, Some(p)) == Ok(e)
    ensures DayNumber(e) == DayNumber(d) + 7 * p.weeks + p.days
    ensures Subtract(e, Some(p)) == Ok(d)
  {
    var n := 7 * p.weeks + p.days;
    PlusMonthsZero(d);
    AddMonthsThenDays(d, p, d);
    PlusDaysInverse(d, n, e);
    var back := Negate(p);
    NegatePreservesTimeComponent(p);
    assert back.years == 0 && back.months == 0 && 7 * back.weeks + back.days == -n;
    PlusMonthsZero(e);
    AddMonthsThenDays(e, back, e);
  }

  /** Subtracting months undoes adding them when the day was not clamped. */
  lemma MonthPeriodRoundTrip(d: LocalDate, n: int, e: LocalDate)
    requires Valid(d) && Add(d, Some(FromMonths(n))) == Ok(e) && e.day == d.day
    ensures Subtract(e, Some(FromMonths(n))) == Ok(d)
  {
    PlusYearsIsTwelveMonths(d, 0);
    PlusMonthsZero(d);
    var m := PlusMonths(d, n).value;
    assert PlusDays(m, 0) == Ok(m);
    PlusMonthsInverse(d, n, e);
    PlusYearsIsTwelveMonths(e, 0);
    PlusMonthsZero(e);
    assert PlusDays(d, 0) == Ok(d);
  }
}
