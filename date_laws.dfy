/**
 * What `LocalDate`'s repair and its distances, days of the week and
 * comparisons mean, stated about the functions of `Dates`.
 */
module DateLaws {
  import opened Arith
  import opened Calendar
  import opened EpochDays
  import opened Dates

  // ---------------------------------------------------------------------
  // Normalisation

  /** With a non-negative month count the folded triple counts its days from the first of that month. */
  lemma FoldedEpochDay(t: Date)
    ensures 0 <= ProlepticMonth(t) ==>
      ToEpochDay(Folded(t)) == MonthStart(ProlepticMonth(t)) + t.day - 1
  {
    if 0 <= ProlepticMonth(t) {
      TruncatedIsEuclideanWhenNonNegative(ProlepticMonth(t), 12);
    }
  }

  /** A valid triple with a non-negative month count folds to itself. */
  lemma FoldedValid(t: Date)
    ensures IsValid(t) && 0 <= ProlepticMonth(t) ==> Folded(t) == t
  {
    if IsValid(t) && 0 <= ProlepticMonth(t) {
      var pm := ProlepticMonth(t);
      TruncatedIsEuclideanWhenNonNegative(pm, 12);
      assert pm == 12 * t.year + (t.month - 1);
      assert pm / 12 == t.year;
      assert pm % 12 == t.month - 1;
    }
  }

  /** Repairing twice is repairing once. */
  lemma NormalizedIdempotent(t: Date)
    ensures Normalized(Normalized(t)) == Normalized(t)
  {
  }

  /** A valid date's epoch day counts from the first of its month. */
  lemma ValidEpochDay(t: Date)
    requires IsValid(t) && 0 <= t.year
    ensures ToEpochDay(t) == MonthStart(ProlepticMonth(t)) + t.day - 1
  {
    FoldedEpochDay(t);
    FoldedValid(t);
  }

  /** Adding `n` to the raw day of a valid date of year 0 or later moves its epoch day by `n`. */
  lemma PlusDaysEpochDay(t: Date, n: int)
    requires IsValid(t) && 0 <= t.year
    ensures ToEpochDay(Normalized(t.(day := t.day + n))) == ToEpochDay(t) + n
  {
    ValidEpochDay(t);
    InMonth(t.(day := t.day + n), ProlepticMonth(t));
  }

  /** Two triples naming the same day repair to the same date. */
  lemma SameDayRepairsAlike(a: Date, b: Date)
    requires ToEpochDay(Normalized(a)) == ToEpochDay(Normalized(b))
    ensures Normalized(a) == Normalized(b)
  {
    ToEpochDayInjective(Normalized(a), Normalized(b));
  }

  /**
   * The first of the month after `pm` is `lengthOfMonth` days after the
   * first of month `pm`.
   */
  lemma MonthStartStep(pm: int)
    ensures MonthStart(pm + 1) == MonthStart(pm) + LengthOfMonth(pm / 12, pm % 12 + 1)
  {
    var y, m := pm / 12, pm % 12 + 1;
    var last := Date(y, m, LengthOfMonth(y, m));
    SuccIsNextDay(last);
    assert pm == 12 * y + (m - 1);
    if m < 12 {
      assert (pm + 1) / 12 == y && (pm + 1) % 12 + 1 == m + 1;
    } else {
      assert (pm + 1) / 12 == y + 1 && (pm + 1) % 12 + 1 == 1;
    }
    assert Succ(last) == Date((pm + 1) / 12, (pm + 1) % 12 + 1, 1);
  }

  /** Repair example: a thirteenth month rolls into January of the next year. */
  lemma NormalizedThirteenthMonth()
    ensures Normalized(Date(2023, 13, 1)) == Date(2024, 1, 1)
  {
    assert Folded(Date(2023, 13, 1)) == Date(2024, 1, 1);
    EpochDayRoundTrip(Date(2024, 1, 1));
  }

  /** Repair example: a day past the end of February rolls into March. */
  lemma NormalizedPastFebruary()
    ensures Normalized(Date(2023, 2, 30)) == Date(2023, 3, 2)
  {
    assert !IsLeapYear(2023);
    assert Folded(Date(2023, 2, 30)) == Date(2023, 2, 30);
    assert ToEpochDay(Date(2023, 2, 30)) == ToEpochDay(Date(2023, 3, 2));
    EpochDayRoundTrip(Date(2023, 3, 2));
  }

  /**
   * In a negative year the truncated remainder makes the folded month zero
   * or negative, so the repair lands in the wrong year: 40 March of year
   * -5 becomes 10 April of year -6, not 9 April of year -5.
   */
  lemma NormalizedNegativeYearAsWritten()
    ensures Normalized(Date(-5, 3, 40)) == Date(-6, 4, 10)
  {
    assert Folded(Date(-5, 3, 40)) == Date(-5, -9, 40);
    assert ToEpochDay(Date(-5, -9, 40)) == ToEpochDay(Date(-6, 4, 10));
    EpochDayRoundTrip(Date(-6, 4, 10));
  }

  // ---------------------------------------------------------------------
  // The next calendar day and the day of the week

  /** In every year, the days before month `m + 1` are those before `m` plus the length of `m`. */
  lemma MonthTableStep(y: int, m: int)
    requires 1 <= m <= 11
    ensures SumMonth[m] + (if 2 < m + 1 && IsLeapYear(y) then 1 else 0)
            == SumMonth[m - 1] + (if 2 < m && IsLeapYear(y) then 1 else 0) + LengthOfMonth(y, m)
  {
    DaysBeforeMonthTable(y, m);
    DaysBeforeMonthTable(y, m + 1);
  }

  /** The day after a valid date is valid and one day further on in the day count from 0000-01-01. */
  lemma DayNumberSucc(t: Date)
    requires IsValid(t)
    ensures IsValid(Succ(t))
    ensures DayNumber(Succ(t)) == DayNumber(t) + 1
  {
    if t.day < LengthOfMonth(t.year, t.month) {
    } else if t.month < 12 {
      MonthTableStep(t.year, t.month);
    } else {
      YearStartStep(t.year);
    }
  }

  /** `Succ` is the next calendar day: valid, and one epoch day later. */
  lemma SuccIsNextDay(t: Date)
    requires IsValid(t)
    ensures IsValid(Succ(t))
    ensures ToEpochDay(Succ(t)) == ToEpochDay(t) + 1
  {
    DayNumberSucc(t);
    ToEpochDayCounts(t);
    ToEpochDayCounts(Succ(t));
  }

  /** For a valid date of year 0 or later, `plus(day: 1)` read back is the next calendar day. */
  lemma PlusOneDayIsSucc(t: Date)
    requires IsValid(t) && 0 <= t.year
    ensures Normalized(t.(day := t.day + 1)) == Succ(t)
  {
    ValidEpochDay(t);
    SuccIsNextDay(t);
    RepairsTo(t.(day := t.day + 1), Succ(t), ToEpochDay(t) + 1);
  }

  /** From year 0 on, 29 February of a common year is 1 March. */
  lemma LeapDayInCommonYear(year: int)
    requires 0 <= year && !IsLeapYear(year)
    ensures Normalized(Date(year, 2, 29)) == Date(year, 3, 1)
  {
    PlusOneDayIsSucc(Date(year, 2, 28));
  }

  /** The day count of `dayOfWeek` for the year before a positive year is one short of that year's start. */
  lemma PreviousYearEnd(ly: int)
    requires 0 <= ly
    ensures 0 <= ly * 365 + TDiv(ly, 400) - TDiv(ly, 100) + TDiv(ly, 4)
    ensures ly * 365 + TDiv(ly, 400) - TDiv(ly, 100) + TDiv(ly, 4) == YearStart(ly + 1) - 366
  {
    TruncatedIsEuclideanWhenNonNegative(ly, 4);
    TruncatedIsEuclideanWhenNonNegative(ly, 100);
    TruncatedIsEuclideanWhenNonNegative(ly, 400);
    assert (ly + 4) / 4 == ly / 4 + 1;
    assert (ly + 100) / 100 == ly / 100 + 1;
    assert (ly + 400) / 400 == ly / 400 + 1;
    assert ly / 100 <= ly / 4;
  }

  /** From year 1 on, the running total is the day count from 0000-01-01 less 367, at least -1. */
  lemma WeekdayTotalCounts(t: Date)
    requires IsValid(t) && 1 <= t.year
    ensures WeekdayTotal(t) == ToEpochDay(t) + DaysZeroTo1970 - 367
    ensures -1 <= WeekdayTotal(t)
  {
    PreviousYearEnd(t.year - 1);
    ToEpochDayCounts(t);
    DayOfYearInRange(t);
  }

  /**
   * From year 1 on, `dayOfWeek` is the epoch day shifted by a constant,
   * modulo 7, so it lies in 0..6.
   */
  lemma DayOfWeekFromEpochDay(t: Date)
    ensures IsValid(t) && 1 <= t.year ==> DayOfWeek(t) == WeekdayOfEpochDay(ToEpochDay(t)) && 0 <= DayOfWeek(t) <= 6
  {
    if IsValid(t) && 1 <= t.year {
      DayOfWeekOfValid(t);
    }
  }

  lemma DayOfWeekOfValid(t: Date)
    requires IsValid(t) && 1 <= t.year
    ensures DayOfWeek(t) == WeekdayOfEpochDay(ToEpochDay(t))
  {
    WeekdayTotalCounts(t);
    var total := WeekdayTotal(t);
    if total < 0 {
      assert total == -1;
      assert TMod(total, 7) == -1;
    } else {
      TruncatedIsEuclideanWhenNonNegative(total, 7);
    }
  }

  /** From year 1 on, the next calendar day has the next day of the week. */
  lemma DayOfWeekSucc(t: Date)
    requires IsValid(t) && 1 <= t.year
    ensures DayOfWeek(Succ(t)) == (DayOfWeek(t) + 1) % 7
  {
    SuccIsNextDay(t);
    DayOfWeekOfNextDay(t, Succ(t));
  }

  /** A valid date one epoch day after another has the next day of the week. */
  lemma DayOfWeekOfNextDay(t: Date, u: Date)
    requires IsValid(t) && IsValid(u) && 1 <= t.year && 1 <= u.year
    requires ToEpochDay(u) == ToEpochDay(t) + 1
    ensures DayOfWeek(u) == (DayOfWeek(t) + 1) % 7
  {
    var x := ToEpochDay(t);
    DayOfWeekFromEpochDay(t);
    DayOfWeekFromEpochDay(u);
    NextResidue(x);
    assert ToEpochDay(u) == x + 1;
  }

  /** The label `dayOfWeek` gives, from year 1 on, to an epoch day. */
  function WeekdayOfEpochDay(x: int): int
  {
    (x + 719161) % 7
  }

  lemma NextResidue(x: int)
    ensures WeekdayOfEpochDay(x + 1) == (WeekdayOfEpochDay(x) + 1) % 7
  {
    var y := x + 719161;
    var q, r := y / 7, y % 7;
    assert y == 7 * q + r;
    if r < 6 {
      assert y + 1 == 7 * q + (r + 1);
    } else {
      assert y + 1 == 7 * (q + 1);
    }
  }

  /**
   * The labels as written: 2000-01-01 (a Saturday) gets 4, and
   * 0000-01-04 gets 7, outside 0..6, because the remainder of a negative
   * multiple of 7 is 0.
   */
  lemma DayOfWeekAsWritten()
    ensures DayOfWeek(Date(2000, 1, 1)) == 4
    ensures DayOfWeek(Date(0, 1, 4)) == 7
  {
    DayOfWeekFromEpochDay(Date(2000, 1, 1));
    assert TDiv(-1, 400) == 0 && TDiv(-1, 100) == 0 && TDiv(-1, 4) == 0;
    assert TMod(-364, 7) == 0;
  }

  // ---------------------------------------------------------------------
  // Distances between two dates

  /**
   * The month count is the difference of proleptic months, one less when
   * a later end month has a smaller day of the month, one more when an
   * earlier end month has a larger one.
   */
  lemma MonthUntilCounts(s: Date, e: Date)
    requires IsValid(s) && IsValid(e)
    ensures var months := ProlepticMonth(e) - ProlepticMonth(s);
      MonthUntil(s, e)
      == if months > 0 && e.day < s.day then months - 1
         else if months < 0 && e.day > s.day then months + 1
         else months
  {
    var months := ProlepticMonth(e) - ProlepticMonth(s);
    var diff := ProlepticMonth(e) * 32 + e.day - (ProlepticMonth(s) * 32 + s.day);
    assert diff == 32 * months + (e.day - s.day);
    assert -31 < e.day - s.day < 31;
    var q := TDiv(diff, 32);
    if months > 0 {
      assert 0 <= diff && 0 <= diff - 32 * q < 32;
    } else if months < 0 {
      assert diff < 0 && -32 < diff - 32 * q <= 0;
    }
  }

  /** Every unit is antisymmetric: swapping the dates negates the distance. */
  lemma UntilAntisymmetric(s: Date, e: Date, unit: Component)
    requires IsDateUnit(unit)
    ensures UntilUnit(e, s, unit) == -UntilUnit(s, e, unit)
  {
    var diff := ProlepticMonth(e) * 32 + e.day - (ProlepticMonth(s) * 32 + s.day);
    TDivNegate(diff, 32);
    assert MonthUntil(e, s) == -MonthUntil(s, e);
    TDivNegate(DayUntil(s, e), 7);
    TDivNegate(MonthUntil(s, e), 12);
  }

  /** The distance from a date to itself is 0 in every unit. */
  lemma UntilSelf(date: Date, unit: Component)
    requires IsDateUnit(unit)
    ensures UntilUnit(date, date, unit) == 0
  {
  }

  /**
   * `plus(day: until(endDate:component: .day))` on a valid start date
   * reads back as the end date (from year 0 on).
   */
  lemma DayUntilThenPlus(s: Date, e: Date)
    requires IsValid(s) && IsValid(e) && 0 <= s.year
    ensures Normalized(s.(day := s.day + DayUntil(s, e))) == e
  {
    ValidEpochDay(s);
    RepairsTo(s.(day := s.day + DayUntil(s, e)), e, ToEpochDay(e));
  }

  /** The years and months of `until(endDate:)` are the month and year units of the other `until`. */
  lemma UntilAgreesWithUnits(s: Date, e: Date)
    requires IsValid(s) && IsValid(e)
    ensures Until(s, e).years == UntilUnit(s, e, Year)
    ensures Until(s, e).years * 12 + Until(s, e).months == UntilUnit(s, e, Month)
    ensures -12 < Until(s, e).months < 12
  {
    UntilHasShape(s, e);
    UnitsOfShape(s, e, Until(s, e));
  }

  /** The years and months of any triple of the shape of `until(endDate:)` are `monthUntil` and its years. */
  lemma UnitsOfShape(s: Date, e: Date, p: YearsMonthsDays)
    requires IsValid(s) && IsValid(e) && UntilShape(s, e, p)
    ensures p.years == TDiv(MonthUntil(s, e), 12)
    ensures p.years * 12 + p.months == MonthUntil(s, e)
    ensures -12 < p.months < 12
  {
    MonthUntilCounts(s, e);
    SplitMonths(MonthUntil(s, e), p.years, p.months);
  }

  /** A month count split into years and months with the sign of the count is Swift's `/ 12` and `% 12`. */
  lemma SplitMonths(a: int, q: int, r: int)
    requires a == 12 * q + r
    requires 0 <= a ==> 0 <= r < 12
    requires a < 0 ==> -12 < r <= 0
    ensures TDiv(a, 12) == q && TMod(a, 12) == r
  {
  }

  /**
   * Adding the (years, months, days) of `until(endDate:)` to the fields of
   * the start date reads back as the end date (both from year 0 on).
   */
  lemma UntilThenPlus(s: Date, e: Date)
    requires IsValid(s) && IsValid(e) && 0 <= s.year && 0 <= e.year
    ensures ReadsBack(s, Until(s, e), e)
  {
    var p := Until(s, e);
    assert ReadsBack(s, p, e) by {
      UntilHasShape(s, e);
      ReadBack(s, e, p);
    }
  }

  /** Adding the (years, months, days) of `p` to `s` field by field and repairing gives `e`. */
  predicate ReadsBack(s: Date, p: YearsMonthsDays, e: Date)
  {
    Normalized(Date(s.year + p.years, s.month + p.months, s.day + p.days)) == e
  }

  /** The three branches of `until(endDate:)`, stated on the repaired dates and the result alone. */
  predicate UntilShape(s: Date, e: Date, p: YearsMonthsDays)
  {
    var k := ProlepticMonth(e) - ProlepticMonth(s);
    if k > 0 && e.day < s.day then
      12 * p.years + p.months == k - 1 && 0 <= p.months < 12
      && p.days == ToEpochDay(e) - ToEpochDay(Normalized(Date(s.year, s.month + (k - 1), s.day)))
    else if k < 0 && e.day > s.day then
      12 * p.years + p.months == k + 1 && -12 < p.months <= 0
      && p.days == e.day - s.day - LengthOfMonth(e.year, e.month)
    else
      12 * p.years + p.months == k && (if k < 0 then -12 < p.months <= 0 else 0 <= p.months < 12)
      && p.days == e.day - s.day
  }

  /** `until(endDate:)` takes one of its three branches. */
  lemma UntilHasShape(s: Date, e: Date)
    ensures UntilShape(s, e, Until(s, e))
  {
  }

  /** Each branch's triple, added back to the start, lands on the end. */
  lemma ReadBack(s: Date, e: Date, p: YearsMonthsDays)
    requires IsValid(s) && IsValid(e) && 0 <= s.year && 0 <= e.year && UntilShape(s, e, p)
    ensures ReadsBack(s, p, e)
  {
    var k := ProlepticMonth(e) - ProlepticMonth(s);
    if k > 0 && e.day < s.day {
      ReadBackBorrowing(s, e, p);
    } else if k < 0 && e.day > s.day {
      ReadBackLending(s, e, p);
    } else {
      ReadBackPlain(s, e, p);
    }
  }

  lemma ReadBackBorrowing(s: Date, e: Date, p: YearsMonthsDays)
    requires IsValid(s) && IsValid(e) && 0 <= s.year && 0 <= e.year
    requires 0 < ProlepticMonth(e) - ProlepticMonth(s) && 12 * p.years + p.months == ProlepticMonth(e) - ProlepticMonth(s) - 1
    requires p.days == ToEpochDay(e) - ToEpochDay(Normalized(Date(s.year, s.month + (ProlepticMonth(e) - ProlepticMonth(s) - 1), s.day)))
    ensures ReadsBack(s, p, e)
  {
    var moved := Date(s.year + p.years, s.month + p.months, s.day + p.days);
    var calcDate := Date(s.year, s.month + (ProlepticMonth(e) - ProlepticMonth(s) - 1), s.day);
    var pm := ProlepticMonth(e) - 1;
    assert ProlepticMonth(moved) == pm && ProlepticMonth(calcDate) == pm;
    InMonth(calcDate, pm);
    RepairsTo(moved, e, ToEpochDay(e));
  }

  lemma ReadBackLending(s: Date, e: Date, p: YearsMonthsDays)
    requires IsValid(s) && IsValid(e) && 0 <= s.year && 0 <= e.year
    requires 12 * p.years + p.months == ProlepticMonth(e) - ProlepticMonth(s) + 1
    requires p.days == e.day - s.day - LengthOfMonth(e.year, e.month)
    ensures ReadsBack(s, p, e)
  {
    var moved := Date(s.year + p.years, s.month + p.months, s.day + p.days);
    assert ProlepticMonth(moved) == ProlepticMonth(e) + 1;
    NextMonthStart(e);
    RepairsTo(moved, e, ToEpochDay(e));
  }

  /** The month after a valid date starts `lengthOfMonth - day + 1` days after it. */
  lemma NextMonthStart(e: Date)
    requires IsValid(e) && 0 <= e.year
    ensures MonthStart(ProlepticMonth(e) + 1) == ToEpochDay(e) - e.day + 1 + LengthOfMonth(e.year, e.month)
  {
    var pm := ProlepticMonth(e);
    assert pm / 12 == e.year && pm % 12 == e.month - 1;
    ValidEpochDay(e);
    MonthStartStep(pm);
  }

  lemma ReadBackPlain(s: Date, e: Date, p: YearsMonthsDays)
    requires IsValid(s) && IsValid(e) && 0 <= s.year && 0 <= e.year
    requires 12 * p.years + p.months == ProlepticMonth(e) - ProlepticMonth(s)
    requires p.days == e.day - s.day
    ensures ReadsBack(s, p, e)
  {
    var moved := Date(s.year + p.years, s.month + p.months, s.day + p.days);
    assert ProlepticMonth(moved) == ProlepticMonth(e);
    ValidEpochDay(e);
    RepairsTo(moved, e, ToEpochDay(e));
  }

  /** A triple with month count `pm >= 0` repairs to the date `day - 1` days after the first of month `pm`. */
  lemma InMonth(t: Date, pm: int)
    requires ProlepticMonth(t) == pm && 0 <= pm
    ensures ToEpochDay(Normalized(t)) == MonthStart(pm) + t.day - 1
  {
    FoldedEpochDay(t);
    FoldedValid(t);
    if !IsValid(t) {
      FromEpochDayCorrect(ToEpochDay(Folded(t)));
    }
  }

  /** A triple whose month count and day point at the epoch day of a valid date repairs to that date. */
  lemma RepairsTo(t: Date, d: Date, x: int)
    requires 0 <= ProlepticMonth(t) && MonthStart(ProlepticMonth(t)) + t.day - 1 == x
    requires IsValid(d) && ToEpochDay(d) == x
    ensures Normalized(t) == d
  {
    InMonth(t, ProlepticMonth(t));
    ToEpochDayInjective(Normalized(t), d);
  }

  /**
   * As written, the borrowed month keeps an overflowing day: from 31 January
   * to 1 March 2023 is one month and minus two days (31 February is 3 March).
   */
  lemma UntilMonthEndAsWritten()
    ensures Until(Date(2023, 1, 31), Date(2023, 3, 1)) == YearsMonthsDays(0, 1, -2)
  {
    NormalizedPastFebruaryEnd();
  }

  /** 31 February 2023 repairs to 3 March. */
  lemma NormalizedPastFebruaryEnd()
    ensures Normalized(Date(2023, 2, 31)) == Date(2023, 3, 3)
    ensures ToEpochDay(Date(2023, 3, 1)) - ToEpochDay(Date(2023, 3, 3)) == -2
  {
    assert !IsLeapYear(2023);
    assert Folded(Date(2023, 2, 31)) == Date(2023, 2, 31);
    assert ToEpochDay(Date(2023, 2, 31)) == ToEpochDay(Date(2023, 3, 3));
    EpochDayRoundTrip(Date(2023, 3, 3));
  }

  // ---------------------------------------------------------------------
  // Comparison operators

  /** `==` holds exactly when the two triples name the same day. */
  lemma EqualIsSameDay(lhs: Date, rhs: Date)
    ensures Equal(lhs, rhs) <==> ToEpochDay(Normalized(lhs)) == ToEpochDay(Normalized(rhs))
  {
    if ToEpochDay(Normalized(lhs)) == ToEpochDay(Normalized(rhs)) {
      SameDayRepairsAlike(lhs, rhs);
    }
  }

  /** `==` compares repaired fields, so a thirteenth month equals January of the next year. */
  lemma EqualAfterRepair()
    ensures Equal(Date(2023, 13, 1), Date(2024, 1, 1))
  {
    NormalizedThirteenthMonth();
  }

  /** `<` and `>` are irreflexive and mirror each other. */
  lemma LessGreaterMirror(lhs: Date, rhs: Date)
    ensures !Less(lhs, lhs) && !Greater(lhs, lhs)
    ensures Less(lhs, rhs) <==> Greater(rhs, lhs)
  {
  }

  /** `==` holds exactly when neither `<` nor `>` does. */
  lemma EqualIsNeitherLessNorGreater(lhs: Date, rhs: Date)
    ensures Equal(lhs, rhs) <==> !Less(lhs, rhs) && !Greater(lhs, rhs)
  {
  }

  /** A date that is earlier in the calendar compares `<`, and a smaller year always does. */
  lemma EarlierIsLess(lhs: Date, rhs: Date)
    ensures Before(Normalized(lhs), Normalized(rhs)) ==> Less(lhs, rhs)
    ensures Normalized(lhs).year < Normalized(rhs).year ==> Less(lhs, rhs)
    ensures Normalized(lhs).year > Normalized(rhs).year ==> Greater(lhs, rhs)
  {
  }

  /** `<` is no order: December 2023 and January 2024 are each `<` the other. */
  lemma LessAsWritten()
    ensures Less(Date(2023, 12, 1), Date(2024, 1, 1))
    ensures Less(Date(2024, 1, 1), Date(2023, 12, 1))
  {
    assert IsValid(Date(2023, 12, 1)) && IsValid(Date(2024, 1, 1));
  }
}
