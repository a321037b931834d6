/**
 * The epoch-day conversion of `LocalDate` is exact: `toEpochDay` agrees with
 * counting days year by year and month by month, `init(epochDay:)` always
 * yields a valid date with the given epoch day, and the two are inverse.
 */
module EpochDays {
  import opened Arith
  import opened Calendar

  // ---------------------------------------------------------------------
  // Closed forms of the reference counts

  /** Days from 0000-01-01 to the date, by the closed year form and the month table. */
  function DayNumber(t: Date): int
    requires 1 <= t.month <= 12
  {
    YearStart(t.year) + SumMonth[t.month - 1]
    + (if 2 < t.month && IsLeapYear(t.year) then 1 else 0) + t.day - 1
  }

  /** Closed form of the year count: 365 days a year plus the leap days before `y`. */
  function YearStart(y: int): int
  {
    365 * y + (y + 3) / 4 - (y + 99) / 100 + (y + 399) / 400
  }

  /** Divisibility by 400 implies divisibility by 100, which implies divisibility by 4. */
  lemma DivisibilityChain(y: int)
    ensures y % 400 == 0 ==> y % 100 == 0
    ensures y % 100 == 0 ==> y % 4 == 0
  {
    if y % 400 == 0 {
      assert y / 100 == 4 * (y / 400);
    }
    if y % 100 == 0 {
      assert y / 4 == 25 * (y / 100);
    }
  }

  /** The leap day as inclusion-exclusion over the three divisibility tests. */
  lemma LeapIndicator(y: int)
    ensures (if IsLeapYear(y) then 1 else 0)
            == (if y % 4 == 0 then 1 else 0) - (if y % 100 == 0 then 1 else 0) + (if y % 400 == 0 then 1 else 0)
  {
    DivisibilityChain(y);
  }

  /** `ceil((y + 1) / k) - ceil(y / k)` is 1 exactly when `k` divides `y`. */
  lemma CeilStep4(y: int)
    ensures (y + 4) / 4 - (y + 3) / 4 == (if y % 4 == 0 then 1 else 0)
    ensures (y + 3) / 4 == y / 4 + (if y % 4 == 0 then 0 else 1)
  {
  }

  lemma CeilStep100(y: int)
    ensures (y + 100) / 100 - (y + 99) / 100 == (if y % 100 == 0 then 1 else 0)
    ensures (y + 99) / 100 == y / 100 + (if y % 100 == 0 then 0 else 1)
  {
  }

  lemma CeilStep400(y: int)
    ensures (y + 400) / 400 - (y + 399) / 400 == (if y % 400 == 0 then 1 else 0)
    ensures (y + 399) / 400 == y / 400 + (if y % 400 == 0 then 0 else 1)
  {
  }

  lemma YearStartStep(y: int)
    ensures YearStart(y + 1) == YearStart(y) + LengthOfYear(y)
  {
    CeilStep4(y);
    CeilStep100(y);
    CeilStep400(y);
    LeapIndicator(y);
  }

  lemma YearStartBack(y: int)
    ensures YearStart(y) == YearStart(y - 1) + LengthOfYear(y - 1)
  {
    YearStartStep(y - 1);
  }

  /** Summing year lengths gives the closed form, for negative years too. */
  lemma {:induction false} DaysBeforeYearClosedForm(y: int)
    ensures DaysBeforeYear(y) == YearStart(y)
    decreases if y < 0 then -y else y
  {
    if y == 0 {
    } else if 0 < y {
      DaysBeforeYearClosedForm(y - 1);
      YearStartBack(y);
      assert DaysBeforeYear(y) == DaysBeforeYear(y - 1) + LengthOfYear(y - 1);
    } else {
      DaysBeforeYearClosedForm(y + 1);
      YearStartStep(y);
      assert DaysBeforeYear(y) == DaysBeforeYear(y + 1) - LengthOfYear(y);
    }
  }

  /** The two branches of `toEpochDay`'s leap-day count both compute the closed form. */
  lemma LeapDaysAgree(y: int)
    ensures 365 * y + LeapDaysBefore(y) == YearStart(y)
  {
    if y < 0 {
      var n := -y;
      assert TDiv(y, -4) == n / 4;
      assert TDiv(y, -100) == n / 100;
      assert TDiv(y, -400) == n / 400;
      assert (y + 3) / 4 == -(n / 4);
      assert (y + 99) / 100 == -(n / 100);
      assert (y + 399) / 400 == -(n / 400);
    }
  }

  /** The month table with the leap correction is the month-by-month count. */
  lemma {:induction false} DaysBeforeMonthTable(y: int, m: int)
    requires 1 <= m <= 13
    ensures DaysBeforeMonth(y, m) == SumMonth[m - 1] + (if 2 < m && IsLeapYear(y) then 1 else 0)
  {
    if 1 < m {
      DaysBeforeMonthTable(y, m - 1);
    }
  }

  /** `(367 * m - 362) / 12` with the February correction reproduces the month table. */
  lemma MonthFormula(y: int, m: int)
    requires 1 <= m <= 12
    ensures DaysBeforeMonthIn(y, m) == DaysBeforeMonth(y, m)
    ensures DaysBeforeMonthIn(y, m) == SumMonth[m - 1] + (if 2 < m && IsLeapYear(y) then 1 else 0)
  {
    DaysBeforeMonthTable(y, m);
    TruncatedIsEuclideanWhenNonNegative(367 * m - 362, 12);
  }

  lemma DaysZeroTo1970IsYearStart()
    ensures DaysBeforeYear(1970) == DaysZeroTo1970 == 719528
  {
    DaysBeforeYearClosedForm(1970);
  }

  /** `toEpochDay` counts the days since 1970-01-01, for every year and every in-range month. */
  lemma ToEpochDayCounts(t: Date)
    requires 1 <= t.month <= 12
    ensures ToEpochDay(t) == EpochDayOf(t)
    ensures ToEpochDay(t) == DayNumber(t) - DaysZeroTo1970
  {
    LeapDaysAgree(t.year);
    MonthFormula(t.year, t.month);
    DaysBeforeMonthTable(t.year, t.month);
    DaysBeforeYearClosedForm(t.year);
    DaysZeroTo1970IsYearStart();
  }

  // ---------------------------------------------------------------------
  // The March-based year of `init(epochDay:)`

  lemma MarchYearCycle(q: int, r: int)
    ensures DaysToMarchYear(400 * q + r) == DaysPerCycle * q + DaysToMarchYear(r)
  {
    assert (400 * q + r) / 4 == 100 * q + r / 4;
    assert (400 * q + r) / 100 == 4 * q + r / 100;
    assert (400 * q + r) / 400 == q + r / 400;
  }

  /** A March-based year `y` runs to the end of February of calendar year `y + 1`. */
  lemma MarchYearLength(y: int)
    ensures DaysToMarchYear(y + 1) == DaysToMarchYear(y) + LengthOfYear(y + 1)
  {
    MarchYearVsCalendarYear(y);
    MarchYearVsCalendarYear(y + 1);
    YearStartStep(y);
  }

  /** The first of March of `y` is 59 or 60 days after the first of January, and 0000-03-01 is day 60. */
  lemma MarchYearVsCalendarYear(y: int)
    ensures DaysToMarchYear(y) == YearStart(y) + (if IsLeapYear(y) then 1 else 0) - 1
  {
    CeilStep4(y);
    CeilStep100(y);
    CeilStep400(y);
    LeapIndicator(y);
  }

  lemma CycleRemainderLower(r: int)
    requires 0 <= r < 400
    ensures DaysPerCycle * r - 591 <= 400 * DaysToMarchYear(r)
  {
    var a, b, k := r / 4, r % 4, r / 100;
    assert r == 4 * a + b && 0 <= b < 4;
    assert 100 * k <= r < 100 * k + 100 && 0 <= k <= 3;
    assert r / 400 == 0;
    assert 25 * k <= a;
  }

  lemma CycleRemainderUpper(r: int)
    requires 0 <= r < 400
    ensures 400 * DaysToMarchYear(r) <= 146100 * r
  {
    assert r / 400 == 0;
  }

  /** The estimate `(400 * z + 591) / daysPerCycle` is the March-based year or one more. */
  lemma YearEstimate(z: int)
    requires 0 <= z
    ensures var est := (400 * z + 591) / DaysPerCycle;
      0 <= est && DaysToMarchYear(est - 1) <= z < DaysToMarchYear(est + 1)
  {
    var est := (400 * z + 591) / DaysPerCycle;
    assert est * DaysPerCycle <= 400 * z + 591 < (est + 1) * DaysPerCycle;
    var x := est - 1;
    MarchYearCycle(x / 400, x % 400);
    CycleRemainderUpper(x % 400);
    var w := est + 1;
    MarchYearCycle(w / 400, w % 400);
    CycleRemainderLower(w % 400);
  }

  /** The Gregorian rule repeats every 400 years. */
  lemma LeapYearPeriodic(y: int, c: int)
    ensures IsLeapYear(y + 400 * c) == IsLeapYear(y)
  {
    assert (y + 400 * c) / 4 == y / 4 + 100 * c;
    assert (y + 400 * c) / 100 == y / 100 + 4 * c;
    assert (y + 400 * c) / 400 == y / 400 + c;
  }

  /** `(doy * 5 + 2) / 153` finds the March-based month, whose first day is `(month * 306 + 5) / 10`. */
  lemma MarchMonthOfDay(doy: int)
    requires 0 <= doy < 366
    ensures var k := (doy * 5 + 2) / 153;
      0 <= k <= 11 && (k * 306 + 5) / 10 <= doy < ((k + 1) * 306 + 5) / 10
  {
  }

  /** March..December: the table offset is 59 days and month lengths follow the March-based boundaries. */
  lemma MarchToDecemberTable(y: int, k: int)
    requires 0 <= k <= 9
    ensures SumMonth[k + 2] - (k * 306 + 5) / 10 == 59
    ensures LengthOfMonth(y, k + 3) == ((k + 1) * 306 + 5) / 10 - (k * 306 + 5) / 10
  {
  }

  /** `FromMarchDay` lands on a valid date with the matching day count. */
  lemma FromMarchDayCorrect(y: int, doy: int)
    requires 0 <= doy < LengthOfYear(y + 1)
    ensures IsValid(FromMarchDay(y, doy))
    ensures ToEpochDay(FromMarchDay(y, doy)) == DaysToMarchYear(y) + doy + 60 - DaysZeroTo1970
  {
    MarchMonthOfDay(doy);
    var r := FromMarchDay(y, doy);
    if (doy * 5 + 2) / 153 < 10 {
      MarchToDecember(y, doy);
    } else {
      JanuaryFebruary(y, doy);
    }
    ToEpochDayCounts(r);
  }

  lemma MarchToDecember(y: int, doy: int)
    requires 0 <= doy < LengthOfYear(y + 1) && (doy * 5 + 2) / 153 < 10
    ensures IsValid(FromMarchDay(y, doy))
    ensures DayNumber(FromMarchDay(y, doy)) == DaysToMarchYear(y) + doy + 60
  {
    var k := (doy * 5 + 2) / 153;
    var start, next := (k * 306 + 5) / 10, ((k + 1) * 306 + 5) / 10;
    assert 0 <= k <= 9 && start <= doy < next by {
      MarchMonthOfDay(doy);
    }
    assert LengthOfMonth(y, k + 3) == next - start by {
      MarchToDecemberTable(y, k);
    }
    var d := doy - start + 1;
    MarchDateOf(y, doy, k, start);
    MarchMonthDayNumber(y, doy, k, start);
    assert 1 <= d <= LengthOfMonth(y, k + 3);
  }

  /** Day `doy - start + 1` of calendar month `k + 3` is day `doy` of the March-based year `y`. */
  lemma MarchMonthDayNumber(y: int, doy: int, k: int, start: int)
    requires 0 <= k <= 9 && start == (k * 306 + 5) / 10
    ensures DayNumber(Date(y, k + 3, doy - start + 1)) == DaysToMarchYear(y) + doy + 60
  {
    MarchToDecemberTable(y, k);
    MarchYearVsCalendarYear(y);
  }

  /** Before January, day `doy` of the March-based year `y` falls in month `k + 3` of `y`. */
  lemma MarchDateOf(y: int, doy: int, k: int, start: int)
    requires 0 <= k <= 9 && k == (doy * 5 + 2) / 153 && start == (k * 306 + 5) / 10
    ensures FromMarchDay(y, doy) == Date(y, k + 3, doy - start + 1)
  {
  }

  lemma JanuaryFebruary(y: int, doy: int)
    requires 0 <= doy < LengthOfYear(y + 1) && 10 <= (doy * 5 + 2) / 153
    ensures IsValid(FromMarchDay(y, doy))
    ensures DayNumber(FromMarchDay(y, doy)) == DaysToMarchYear(y) + doy + 60
  {
    var k := (doy * 5 + 2) / 153;
    assert k <= 11 && (k * 306 + 5) / 10 <= doy by {
      MarchMonthOfDay(doy);
    }
    var m, start := if k == 10 then 1 else 2, if k == 10 then 306 else 337;
    assert FromMarchDay(y, doy) == Date(y + 1, m, doy - start + 1);
    NextYearDayNumber(y, doy, m, start);
  }

  /** January and February close the March-based year `y`: they belong to calendar year `y + 1`. */
  lemma NextYearDayNumber(y: int, doy: int, m: int, start: int)
    requires (m == 1 && start == 306) || (m == 2 && start == 337)
    ensures DayNumber(Date(y + 1, m, doy - start + 1)) == DaysToMarchYear(y) + doy + 60
  {
    MarchYearVsCalendarYear(y);
    YearStartStep(y);
  }

  /** Negative day numbers are lifted by whole 400-year cycles into `0 .. daysPerCycle`. */
  lemma CycleShift(zeroDay: int) returns (c: int, z: int)
    ensures c == (if zeroDay < 0 then TDiv(zeroDay + 1, DaysPerCycle) - 1 else 0)
    ensures z == zeroDay + -c * DaysPerCycle
    ensures 0 <= z
  {
    c := if zeroDay < 0 then TDiv(zeroDay + 1, DaysPerCycle) - 1 else 0;
    z := zeroDay + -c * DaysPerCycle;
    if zeroDay < 0 {
      var n := -(zeroDay + 1);
      assert TDiv(zeroDay + 1, DaysPerCycle) == -(n / DaysPerCycle);
    }
  }

  /** The corrected estimate is the March-based year holding day `z`. */
  lemma MarchYearOfDay(z: int) returns (est: int, y: int, doy: int)
    requires 0 <= z
    ensures est == (400 * z + 591) / DaysPerCycle
    ensures y == (if z - DaysToMarchYear(est) < 0 then est - 1 else est)
    ensures doy == z - DaysToMarchYear(y)
    ensures 0 <= doy < LengthOfYear(y + 1)
  {
    YearEstimate(z);
    est := (400 * z + 591) / DaysPerCycle;
    MarchYearLength(est - 1);
    MarchYearLength(est);
    y := if z - DaysToMarchYear(est) < 0 then est - 1 else est;
    doy := z - DaysToMarchYear(y);
  }

  lemma FromZeroDayUnfolded(z: int, adjust: int, est: int, y: int, doy: int)
    requires est == (400 * z + 591) / DaysPerCycle
    requires y == (if z - DaysToMarchYear(est) < 0 then est - 1 else est)
    requires doy == z - DaysToMarchYear(y)
    ensures FromZeroDay(z, adjust) == FromMarchDay(y + adjust, doy)
  {
  }

  /** `init(epochDay:)` reduces to a day of a March-based year, counted exactly. */
  lemma MarchDayOfEpochDay(e: int) returns (marchYear: int, doy: int)
    ensures FromEpochDay(e) == FromMarchDay(marchYear, doy)
    ensures 0 <= doy < LengthOfYear(marchYear + 1)
    ensures DaysToMarchYear(marchYear) + doy + 60 - DaysZeroTo1970 == e
  {
    var zeroDay := e + DaysZeroTo1970 - 60;
    var c, z := CycleShift(zeroDay);
    var est, y, d := MarchYearOfDay(z);
    marchYear, doy := y + 400 * c, d;
    FromEpochDayShifted(e, zeroDay, c, z);
    FromZeroDayUnfolded(z, 400 * c, est, y, d);
    ShiftedMarchYear(zeroDay, c, z, y, d, marchYear);
  }

  lemma FromEpochDayShifted(e: int, zeroDay: int, c: int, z: int)
    requires zeroDay == e + DaysZeroTo1970 - 60
    requires c == (if zeroDay < 0 then TDiv(zeroDay + 1, DaysPerCycle) - 1 else 0)
    requires z == zeroDay + -c * DaysPerCycle
    ensures FromEpochDay(e) == FromZeroDay(z, 400 * c)
  {
  }

  /** Adding back `c` whole cycles keeps the year length and the day count. */
  lemma ShiftedMarchYear(zeroDay: int, c: int, z: int, y: int, d: int, marchYear: int)
    requires z == zeroDay + -c * DaysPerCycle && d == z - DaysToMarchYear(y) && marchYear == y + 400 * c
    ensures LengthOfYear(marchYear + 1) == LengthOfYear(y + 1)
    ensures DaysToMarchYear(marchYear) + d == zeroDay
  {
    LeapYearPeriodic(y + 1, c);
    MarchYearCycle(c, y);
  }

  /** `init(epochDay:)` yields a valid date whose epoch day is the one it was given, for every integer. */
  lemma FromEpochDayCorrect(e: int)
    ensures IsValid(FromEpochDay(e))
    ensures ToEpochDay(FromEpochDay(e)) == e
  {
    var marchYear, doy := MarchDayOfEpochDay(e);
    FromMarchDayCorrect(marchYear, doy);
  }

  // ---------------------------------------------------------------------
  // The converse direction: `toEpochDay` is strictly increasing on valid dates

  /** A later year starts at least a whole year later. */
  lemma {:induction false} YearStartIncreasing(a: int, b: int)
    requires a < b
    ensures YearStart(a) + LengthOfYear(a) <= YearStart(b)
    decreases b - a
  {
    YearStartStep(a);
    if a + 1 < b {
      YearStartIncreasing(a + 1, b);
    }
  }

  /** The day of the year of a valid date is below the length of its year. */
  lemma DayOfYearInRange(t: Date)
    requires IsValid(t)
    ensures 0 <= SumMonth[t.month - 1] + (if 2 < t.month && IsLeapYear(t.year) then 1 else 0) + t.day - 1
            < LengthOfYear(t.year)
  {
  }

  /** One valid date is lexicographically before another (year, then month, then day). */
  predicate Before(a: Date, b: Date)
  {
    a.year < b.year
    || (a.year == b.year && a.month < b.month)
    || (a.year == b.year && a.month == b.month && a.day < b.day)
  }

  /** Within one year a later month starts after every day of an earlier month. */
  lemma MonthStartIncreasing(y: int, ma: int, mb: int)
    requires 1 <= ma < mb <= 12
    ensures SumMonth[ma - 1] + (if 2 < ma && IsLeapYear(y) then 1 else 0) + LengthOfMonth(y, ma)
            <= SumMonth[mb - 1] + (if 2 < mb && IsLeapYear(y) then 1 else 0)
  {
    DaysBeforeMonthTable(y, ma);
    DaysBeforeMonthTable(y, ma + 1);
    DaysBeforeMonthTable(y, mb);
  }

  lemma DayNumberIncreasing(a: Date, b: Date)
    requires IsValid(a) && IsValid(b) && Before(a, b)
    ensures DayNumber(a) < DayNumber(b)
  {
    if a.year < b.year {
      DayOfYearInRange(a);
      DayOfYearInRange(b);
      YearStartIncreasing(a.year, b.year);
    } else if a.month < b.month {
      MonthStartIncreasing(a.year, a.month, b.month);
    }
  }

  lemma ToEpochDayIncreasing(a: Date, b: Date)
    requires IsValid(a) && IsValid(b) && Before(a, b)
    ensures ToEpochDay(a) < ToEpochDay(b)
  {
    ToEpochDayCounts(a);
    ToEpochDayCounts(b);
    DayNumberIncreasing(a, b);
  }

  /** Two valid dates with the same epoch day are the same date. */
  lemma ToEpochDayInjective(a: Date, b: Date)
    requires IsValid(a) && IsValid(b) && ToEpochDay(a) == ToEpochDay(b)
    ensures a == b
  {
    if Before(a, b) {
      ToEpochDayIncreasing(a, b);
    } else if Before(b, a) {
      ToEpochDayIncreasing(b, a);
    }
  }

  /** `init(epochDay: t.toEpochDay())` gives back every valid date. */
  lemma EpochDayRoundTrip(t: Date)
    requires IsValid(t)
    ensures FromEpochDay(ToEpochDay(t)) == t
  {
    FromEpochDayCorrect(ToEpochDay(t));
    ToEpochDayInjective(FromEpochDay(ToEpochDay(t)), t);
  }

  /** 1970-01-01 is epoch day 0. */
  lemma EpochOrigin()
    ensures ToEpochDay(Date(1970, 1, 1)) == 0
    ensures FromEpochDay(0) == Date(1970, 1, 1)
  {
    EpochDayRoundTrip(Date(1970, 1, 1));
  }
}
