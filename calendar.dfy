/**
 * The integer date arithmetic of `LocalDate`, on plain (year, month, day)
 * values: the proleptic Gregorian leap-year and month-length rules of
 * ISO 8601 (section 3.2.1 of ISO 8601:2004), the conversion between a
 * triple and an epoch day (1970-01-01 is day 0), the repair of an
 * out-of-range triple, the day of the week, the unit distances between two
 * dates and the three comparison operators.
 *
 * Every function here mirrors one private computation of the Swift class;
 * the class itself is `LocalDates.LocalDate`.  Swift's `Int` is unbounded
 * here; the supported range is minYear..maxYear.
 */
module Calendar {
  import opened Arith

  /** A (year, month, day) triple, possibly out of range. */
  datatype Date = Date(year: int, month: int, day: int)

  /** The calendar units (`Calendar.Component`) the library dispatches on. */
  datatype Component = Era | Year | Month | WeekOfMonth | Weekday | Day
                     | Hour | Minute | Second | Nanosecond

  const MinMonth := 1
  const MaxMonth := 12
  const MinYear := -999_999_999
  const MaxYear := 999_999_999
  /** The number of days in a 400-year cycle. */
  const DaysPerCycle := 146097
  /** The day number of 1970-01-01 counted from 0000-01-01. */
  const DaysZeroTo1970 := DaysPerCycle * 5 - (30 * 365 + 7)
  /** Days before the first of each month in a common year. */
  const SumMonth: seq<int> := [0, 31, 59, 90, 120, 151, 181, 212, 243, 273, 304, 334, 365]

  // ---------------------------------------------------------------------
  // Leap years and month lengths

  /**
   * `year & 3 == 0` on a two's-complement integer is `year % 4 == 0` with a
   * non-negative remainder; a truncated remainder is zero exactly when the
   * Euclidean one is (`LeapTestsTruncated`), so the other two tests use `%` as well.
   */
  predicate IsLeapYear(year: int)
  {
    year % 4 == 0 && (year % 100 != 0 || year % 400 == 0)
  }

  /** The source's truncating `year % 100` and `year % 400` are zero exactly when the Euclidean ones are. */
  lemma LeapTestsTruncated(year: int)
    ensures TMod(year, 100) == 0 <==> year % 100 == 0
    ensures TMod(year, 400) == 0 <==> year % 400 == 0
  {
    TModZeroIff(year, 100);
    TModZeroIff(year, 400);
  }

  /** The century rule, also on years before year 0. */
  lemma LeapYearExamples()
    ensures !IsLeapYear(1900) && IsLeapYear(2000) && IsLeapYear(2024) && !IsLeapYear(2023)
    ensures IsLeapYear(0) && IsLeapYear(-4) && !IsLeapYear(-100) && IsLeapYear(-400) && !IsLeapYear(-1)
  {
  }

  function LengthOfMonth(year: int, month: int): (n: int)
    ensures 28 <= n <= 31
    ensures n == 29 <==> month == 2 && IsLeapYear(year)
    ensures n == 28 <==> month == 2 && !IsLeapYear(year)
    ensures n == 30 <==> month in {4, 6, 9, 11}
  {
    match month
    case 2 => if IsLeapYear(year) then 29 else 28
    case 4 | 6 | 9 | 11 => 30
    case _ => 31
  }

  function LengthOfYear(year: int): (n: int)
    ensures n == 366 <==> IsLeapYear(year)
    ensures n == 365 <==> !IsLeapYear(year)
  {
    if IsLeapYear(year) then 366 else 365
  }

  predicate IsValid(t: Date)
  {
    MinMonth <= t.month <= MaxMonth && 1 <= t.day <= LengthOfMonth(t.year, t.month)
  }

  // ---------------------------------------------------------------------
  // Reference definitions: counting days one year and one month at a time

  /**
   * The number of days from 0000-01-01 to the first of January of `year`
   * (negative before year 0), summed year by year.
   */
  ghost function DaysBeforeYear(year: int): int
    decreases if year < 0 then -year else year
  {
    if year == 0 then 0
    else if 0 < year then DaysBeforeYear(year - 1) + LengthOfYear(year - 1)
    else DaysBeforeYear(year + 1) - LengthOfYear(year)
  }

  /** The number of days of `year` before the first of `month`, summed month by month. */
  ghost function DaysBeforeMonth(year: int, month: int): int
    requires 1 <= month <= 13
  {
    if month == 1 then 0 else DaysBeforeMonth(year, month - 1) + LengthOfMonth(year, month - 1)
  }

  /** The epoch day of a valid date, from the two counts above. */
  ghost function EpochDayOf(t: Date): int
    requires 1 <= t.month <= 12
  {
    DaysBeforeYear(t.year) + DaysBeforeMonth(t.year, t.month) + t.day - 1 - DaysBeforeYear(1970)
  }

  // ---------------------------------------------------------------------
  // Conversion to and from the epoch day

  /** The epoch day of the stored fields, as `toEpochDay` computes it (no validity check). */
  function ToEpochDay(t: Date): int
  {
    365 * t.year + LeapDaysBefore(t.year) + DaysBeforeMonthIn(t.year, t.month) + t.day - 1
    - DaysZeroTo1970
  }

  /** The leap days in the years before `y` (`toEpochDay`'s two branches on the sign of `y`). */
  function LeapDaysBefore(y: int): int
  {
    if 0 <= y then (y + 3) / 4 - (y + 99) / 100 + (y + 399) / 400
    else -(TDiv(y, -4) - TDiv(y, -100) + TDiv(y, -400))
  }

  /** `(367 * m - 362) / 12`, less one day after February and one more in a common year. */
  function DaysBeforeMonthIn(y: int, m: int): int
  {
    var days := TDiv(367 * m - 362, 12);
    if m > 2 then (if IsLeapYear(y) then days - 1 else days - 2) else days
  }

  /** Days from 0000-03-01 to the first of March of the March-based year `y` (for `y >= 0`). */
  function DaysToMarchYear(y: int): int
  {
    365 * y + y / 4 - y / 100 + y / 400
  }

  /**
   * `init(epochDay:)`: the day count from 0000-03-01, shifted up by whole
   * 400-year cycles when negative, then the estimate-and-correct step.
   */
  function FromEpochDay(epochDay: int): Date
  {
    var zeroDay := epochDay + DaysZeroTo1970 - 60;
    var adjustCycles := if zeroDay < 0 then TDiv(zeroDay + 1, DaysPerCycle) - 1 else 0;
    FromZeroDay(zeroDay + -adjustCycles * DaysPerCycle, adjustCycles * 400)
  }

  /**
   * The estimate-and-correct step of `init(epochDay:)` on a non-negative
   * day count `zeroDay` from 0000-03-01, with `adjust` years added back at
   * the end.  Every dividend that reaches a plain `/` here is
   * non-negative (FromEpochDayCorrect shows it), so Euclidean and
   * truncating division agree.
   */
  function FromZeroDay(zeroDay: int, adjust: int): Date
  {
    var yearEst := (400 * zeroDay + 591) / DaysPerCycle;
    var doyEst := zeroDay - DaysToMarchYear(yearEst);
    var yearEst' := if doyEst < 0 then yearEst - 1 else yearEst;
    var doyEst' := if doyEst < 0 then zeroDay - DaysToMarchYear(yearEst') else doyEst;
    FromMarchDay(yearEst' + adjust, doyEst')
  }

  /**
   * The last step of `init(epochDay:)`: day `doy` (0-based) of the March-based
   * year `marchYear` back to a January-based date.  March-based months 0..9
   * are March..December of `marchYear`; 10 and 11 are January and February
   * of the next year.
   */
  function FromMarchDay(marchYear: int, doy: int): Date
  {
    var marchMonthZero := (doy * 5 + 2) / 153;
    Date(marchYear + marchMonthZero / 10,
         (marchMonthZero + 2) % 12 + 1,
         doy - (marchMonthZero * 306 + 5) / 10 + 1)
  }
}
