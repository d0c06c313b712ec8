/** ISO calendar dates as `LocalDate` has them: a year and a day within it. Only the parts
    the loan rules use are modelled: adding days, comparing, and the days between two dates. */
module Calendar {
  /** A date: its year and its day of the year, 1-based. */
  datatype Date = Date(year: int, dayOfYear: int)

  /** The Gregorian leap-year rule. */
  predicate IsLeap(year: int) {
    year % 4 == 0 && (year % 100 != 0 || year % 400 == 0)
  }

  function DaysInYear(year: int): (n: int)
    ensures n == 365 || n == 366
  {
    if IsLeap(year) then 366 else 365
  }

  /** A day that exists in its year. */
  predicate Valid(d: Date) {
    1 <= d.dayOfYear <= DaysInYear(d.year)
  }

  /** `a.isAfter(b)`: `a` comes strictly later in the calendar. */
  predicate IsAfter(a: Date, b: Date) {
    a.year > b.year || (a.year == b.year && a.dayOfYear > b.dayOfYear)
  }

  /** `d.plusDays(n)`, stepping into the following years as often as needed. */
  function PlusDays(d: Date, n: nat): (r: Date)
    requires Valid(d)
    ensures Valid(r)
    ensures r.year >= d.year
    decreases n
  {
    if d.dayOfYear + n <= DaysInYear(d.year) then Date(d.year, d.dayOfYear + n)
    else PlusDays(Date(d.year + 1, 1), n - (DaysInYear(d.year) - d.dayOfYear + 1))
  }

  /** The number of days from `a` to a date `b` no earlier than `a`
      (`ChronoUnit.DAYS.between(a, b)`). */
  function DaysBetween(a: Date, b: Date): nat
    requires Valid(a) && Valid(b) && !IsAfter(a, b)
    decreases b.year - a.year
  {
    if a.year == b.year then b.dayOfYear - a.dayOfYear
    else (DaysInYear(a.year) - a.dayOfYear + 1) + DaysBetween(Date(a.year + 1, 1), b)
  }

  /** Walking `DaysBetween(a, b)` days forward from `a` lands exactly on `b`. */
  lemma {:induction false} PlusDaysBetween(a: Date, b: Date)
    requires Valid(a) && Valid(b) && !IsAfter(a, b)
    ensures PlusDays(a, DaysBetween(a, b)) == b
    decreases b.year - a.year
  {
    if a.year != b.year {
      PlusDaysBetween(Date(a.year + 1, 1), b);
    }
  }

  /** Adding days never goes back, and adding a positive number of days moves strictly
      forward. */
  lemma {:induction false} PlusDaysAdvances(d: Date, n: nat)
    requires Valid(d)
    ensures !IsAfter(d, PlusDays(d, n))
    ensures n > 0 <==> IsAfter(PlusDays(d, n), d)
    decreases n
  {
    if d.dayOfYear + n > DaysInYear(d.year) {
      PlusDaysAdvances(Date(d.year + 1, 1), n - (DaysInYear(d.year) - d.dayOfYear + 1));
    }
  }

  /** `DaysBetween` undoes `PlusDays`. */
  lemma {:induction false} BetweenPlusDays(d: Date, n: nat)
    requires Valid(d)
    ensures !IsAfter(d, PlusDays(d, n)) && DaysBetween(d, PlusDays(d, n)) == n
    decreases n
  {
    PlusDaysAdvances(d, n);
    if d.dayOfYear + n > DaysInYear(d.year) {
      var rest := n - (DaysInYear(d.year) - d.dayOfYear + 1);
      BetweenPlusDays(Date(d.year + 1, 1), rest);
      PlusDaysAdvances(Date(d.year + 1, 1), rest);
    }
  }

  /** Within one year the days between two dates are the difference of their days of the
      year, and a later date is a positive number of days away. */
  lemma {:induction false} DaysBetweenWithinYear(a: Date, b: Date)
    requires Valid(a) && Valid(b) && !IsAfter(a, b)
    ensures a.year == b.year ==> DaysBetween(a, b) == b.dayOfYear - a.dayOfYear
    ensures DaysBetween(a, b) > 0 <==> IsAfter(b, a)
    decreases b.year - a.year
  {
    if a.year != b.year {
      DaysBetweenWithinYear(Date(a.year + 1, 1), b);
    }
  }

  /** Adding `m` days and then `n` more is adding `m + n`. */
  lemma {:induction false} PlusDaysSplit(d: Date, m: nat, n: nat)
    requires Valid(d)
    ensures PlusDays(PlusDays(d, m), n) == PlusDays(d, m + n)
    decreases m
  {
    if d.dayOfYear + m > DaysInYear(d.year) {
      PlusDaysSplit(Date(d.year + 1, 1), m - (DaysInYear(d.year) - d.dayOfYear + 1), n);
    }
  }
}
