/**
 * The value-level meaning of `LocalDate`'s lazy repair and of the
 * computations it performs on repaired fields: `normalize`, `dayOfWeek`,
 * the two `until` variants and the comparison operators.  Every function
 * takes the raw stored triple and repairs it first, as the Swift getters do.
 */
module Dates {
  import opened Arith
  import opened Calendar
  import opened EpochDays

  // ---------------------------------------------------------------------
  // Normalisation

  /** `prolepticMonth`: months counted from January of year 0 (also `monthCount` of `normalize`). */
  function ProlepticMonth(t: Date): int
  {
    t.year * 12 + (t.month - 1)
  }

  /** The epoch day of the first of the month with proleptic month `pm`. */
  function MonthStart(pm: int): int
  {
    ToEpochDay(Date(pm / 12, pm % 12 + 1, 1))
  }

  /**
   * The first half of `normalize`: the year becomes the floor of the month
   * count over 12 and the month its truncated remainder plus one; the day
   * is kept.
   */
  function Folded(t: Date): Date
  {
    Date(ProlepticMonth(t) / 12, TMod(ProlepticMonth(t), 12) + 1, t.day)
  }

  /**
   * `normalize`: a valid triple is kept; any other is folded and sent
   * through `init(epochDay: toEpochDay())`.  The result is always valid.
   */
  function Normalized(t: Date): (r: Date)
    ensures IsValid(r)
    ensures IsValid(t) ==> r == t
  {
    if IsValid(t) then t
    else
      var e := ToEpochDay(Folded(t));
      FromEpochDayCorrect(e);
      FromEpochDay(e)
  }

  // ---------------------------------------------------------------------
  // The next calendar day and the day of the week

  /** The calendar day after a valid date, across month and year ends. */
  function Succ(t: Date): Date
  {
    if t.day < LengthOfMonth(t.year, t.month) then t.(day := t.day + 1)
    else if t.month < 12 then Date(t.year, t.month + 1, 1)
    else Date(t.year + 1, 1, 1)
  }

  /**
   * The running total of `dayOfWeek`: the day count of the previous year
   * end with truncating divisions, one less when negative, then the month
   * table, the leap day and `day - 2`.
   */
  function WeekdayTotal(t: Date): int
    requires 1 <= t.month <= 12
  {
    var ly := t.year - 1;
    var lm := t.month - 1;
    var ld := t.day - 1;
    var base := ly * 365 + TDiv(ly, 400) - TDiv(ly, 100) + TDiv(ly, 4);
    var base' := if base < 0 then base - 1 else base;
    base' + SumMonth[lm] + (if IsLeapYear(t.year) && lm >= 2 then 1 else 0) + ld - 1
  }

  /** `dayOfWeek` on the repaired fields: a negative total gets 7 added to its truncated remainder. */
  function DayOfWeek(t: Date): int
    requires 1 <= t.month <= 12
  {
    var total := WeekdayTotal(t);
    if total < 0 then 7 + TMod(total, 7) else TMod(total, 7)
  }

  // ---------------------------------------------------------------------
  // Distances between two dates
  //
  // The `until` methods read `start` and `end` through the getters, so the
  // functions below take the repaired dates; `LocalDate` repairs first.

  /** `dayUntil`: the difference of the epoch days. */
  function DayUntil(s: Date, e: Date): int
  {
    ToEpochDay(e) - ToEpochDay(s)
  }

  /** `monthUntil`: the difference of `prolepticMonth * 32 + day`, divided by 32 and truncated. */
  function MonthUntil(s: Date, e: Date): int
  {
    var packed1 := ProlepticMonth(s) * 32 + s.day;
    var packed2 := ProlepticMonth(e) * 32 + e.day;
    TDiv(packed2 - packed1, 32)
  }

  /** The units `until(endDate:component:)` accepts; any other stops the program. */
  predicate IsDateUnit(unit: Component)
  {
    unit == Day || unit == Weekday || unit == Month || unit == Year
  }

  /** `until(endDate:component:)`: days, whole weeks, months, or whole years of months. */
  function UntilUnit(s: Date, e: Date, unit: Component): int
    requires IsDateUnit(unit)
  {
    if unit == Day then DayUntil(s, e)
    else if unit == Weekday then TDiv(DayUntil(s, e), 7)
    else if unit == Month then MonthUntil(s, e)
    else TDiv(MonthUntil(s, e), 12)
  }

  /** The raw (years, months, days) triple that `until(endDate:)` hands to `Period`. */
  datatype YearsMonthsDays = YearsMonthsDays(years: int, months: int, days: int)

  /**
   * `until(endDate:)`: with a later end month but a smaller day of the
   * month it borrows a month and counts days from the start moved by the
   * remaining months; with an earlier end month but a larger day it lends
   * one and subtracts the length of the end month.
   */
  function Until(s: Date, e: Date): YearsMonthsDays
  {
    UntilFrom(s, e, ProlepticMonth(e) - ProlepticMonth(s), e.day - s.day)
  }

  /** The days of the borrowing branch: from the start moved by `months` (and repaired) to the end. */
  function BorrowedDays(s: Date, e: Date, months: int): int
  {
    ToEpochDay(e) - ToEpochDay(Normalized(Date(s.year, s.month + months, s.day)))
  }

  /** The branches of `until(endDate:)`, given the month and day differences it starts from. */
  function UntilFrom(s: Date, e: Date, totalMonth: int, days: int): YearsMonthsDays
  {
    if totalMonth > 0 && days < 0 then
      YearsMonthsDays(TDiv(totalMonth - 1, 12), TMod(totalMonth - 1, 12), BorrowedDays(s, e, totalMonth - 1))
    else if totalMonth < 0 && days > 0 then
      YearsMonthsDays(TDiv(totalMonth + 1, 12), TMod(totalMonth + 1, 12), days - LengthOfMonth(e.year, e.month))
    else
      YearsMonthsDays(TDiv(totalMonth, 12), TMod(totalMonth, 12), days)
  }

  // ---------------------------------------------------------------------
  // Comparison operators

  /** `<` as written: true as soon as any one repaired field is smaller. */
  predicate Less(lhs: Date, rhs: Date)
  {
    var l, r := Normalized(lhs), Normalized(rhs);
    l.year < r.year || l.month < r.month || l.day < r.day
  }

  /** `>` as written: true as soon as any one repaired field is larger. */
  predicate Greater(lhs: Date, rhs: Date)
  {
    var l, r := Normalized(lhs), Normalized(rhs);
    l.year > r.year || l.month > r.month || l.day > r.day
  }

  /** `==`: the repaired fields agree. */
  predicate Equal(lhs: Date, rhs: Date)
  {
    Normalized(lhs) == Normalized(rhs)
  }
}
