/** A calendar period: signed counts of named units that are never converted
    into one another, combined field by field. */
module Periods {

  datatype Period = Period(
    years: int, months: int, weeks: int, days: int,
    hours: int, minutes: int, seconds: int)

  const Zero: Period := Period(0, 0, 0, 0, 0, 0, 0)

  /** Single-unit factories `Period.FromYears`, `Period.FromMonths`, ... */
  function FromYears(n: int): Period { Zero.(years := n) }
  function FromMonths(n: int): Period { Zero.(months := n) }
  function FromWeeks(n: int): Period { Zero.(weeks := n) }
  function FromDays(n: int): Period { Zero.(days := n) }
  function FromHours(n: int): Period { Zero.(hours := n) }
  function FromMinutes(n: int): Period { Zero.(minutes := n) }
  function FromSeconds(n: int): Period { Zero.(seconds := n) }

  /** `Period + Period`: the field-wise sum. */
  function Plus(a: Period, b: Period): Period {
    Period(
      a.years + b.years, a.months + b.months, a.weeks + b.weeks, a.days + b.days,
      a.hours + b.hours, a.minutes + b.minutes, a.seconds + b.seconds)
  }

  /** `-Period`: every field negated. */
  function Negate(p: Period): Period {
    Period(-p.years, -p.months, -p.weeks, -p.days, -p.hours, -p.minutes, -p.seconds)
  }

  /** A period that a date cannot absorb: some time-of-day unit is nonzero. */
  predicate HasTimeComponent(p: Period) {
    p.hours != 0 || p.minutes != 0 || p.seconds != 0
  }

  /** Every period is the sum of its single-unit parts, so the factories and
      `Plus` build every period, and each unit keeps its own count. */
  lemma Decompose(p: Period)
    ensures p == Plus(Plus(Plus(Plus(Plus(Plus(
      FromYears(p.years), FromMonths(p.months)), FromWeeks(p.weeks)), FromDays(p.days)),
      FromHours(p.hours)), FromMinutes(p.minutes)), FromSeconds(p.seconds))
  {
  }

  /** Addition is commutative and associative, has `Zero` as identity, and
      `Negate` gives the inverse. */
  lemma PlusLaws(a: Period, b: Period, c: Period)
    ensures Plus(a, b) == Plus(b, a)
    ensures Plus(Plus(a, b), c) == Plus(a, Plus(b, c))
    ensures Plus(a, Zero) == a
    ensures Plus(a, Negate(a)) == Zero
    ensures Negate(Negate(a)) == a
    ensures Negate(Plus(a, b)) == Plus(Negate(a), Negate(b))
  {
  }

  /** Negation keeps the date units apart from the time units: a period
      carries a time unit exactly when its negation does. */
  lemma NegatePreservesTimeComponent(p: Period)
    ensures HasTimeComponent(Negate(p)) <==> HasTimeComponent(p)
  {
  }

  /** Equality is structural: 3 months and 10 days is neither 100 days nor
      any other single-unit period, and a one-hour period is a time period. */
  lemma StructuralEquality(m: int, d: int, n: int)
    requires m != 0 && d != 0
    ensures Plus(FromMonths(m), FromDays(d)) != FromDays(n)
    ensures Plus(FromMonths(m), FromDays(d)) != FromMonths(n)
    ensures Plus(FromMonths(m), FromDays(d)) == Period(0, m, 0, d, 0, 0, 0)
    ensures HasTimeComponent(FromHours(n)) <==> n != 0
    ensures !HasTimeComponent(Plus(FromMonths(m), FromDays(d)))
  {
  }
}
